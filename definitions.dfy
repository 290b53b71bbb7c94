/** Wildcard definitions: their `type-category-name` keys,
    `get_dataset_definitions`, `update_dataset_options`, the collapse of
    racing shared definitions, `delete_question` and
    `get_random_guess_score`. */
module Definitions {
  import opened Wrappers
  import opened Text
  import opened Assoc
  import opened DatasetOptions

  /** A row of `question_dataset_definitions`; `id` is None until the row
      is inserted. Type and category are kept as the text PHP interpolates
      into keys. */
  datatype Definition = Definition(id: Option<nat>, dtype: string, category: string, name: string,
                                   options: string, itemcount: int)

  /** `"{$type}-{$category}-{$name}"`. */
  function Key(d: Definition): string
  {
    d.dtype + "-" + d.category + "-" + d.name
  }

  /** `list(, , $name) = explode('-', $key, 3)`: everything after the
      second `-` (null, that is `""`, when there is none). */
  function NameOfKey(key: string): string
  {
    var p := SplitAtMost3(key, '-');
    if |p| == 3 then p[2] else ""
  }

  /** `explode("-", $key)[2]`, as the generator and the scorer read names:
      only the part between the second and the third `-`. */
  function NameOfKeyAsWritten(key: string): string
  {
    var p := Split(key, '-');
    if |p| >= 3 then p[2] else ""
  }

  /** The name read back from a key is the definition's name, whatever
      `-` the name itself holds. */
  lemma NameOfKeyInverts(d: Definition)
    requires Lacks(d.dtype, '-') && Lacks(d.category, '-')
    ensures NameOfKey(Key(d)) == d.name
  {
    var s := Key(d);
    var t := d.category + "-" + d.name;
    assert s == d.dtype + "-" + t;
    assert s[|d.dtype|] == '-';
    assert FindChar(s, '-', 0) == |d.dtype|;
    assert s[|d.dtype| + 1..] == t;
    assert t[|d.category|] == '-';
    assert FindChar(t, '-', 0) == |d.category|;
    assert t[|d.category| + 1..] == d.name;
  }

  /** A name holding a `-` is cut at it by the generator as written,
      while `explode` with a limit keeps it whole. A wildcard such as
      `{a-b}` is a legal placeholder name. */
  lemma HyphenatedNameTruncated(d: Definition, head: string, tail: string)
    requires Lacks(d.dtype, '-') && Lacks(d.category, '-') && Lacks(head, '-')
    requires d.name == head + "-" + tail
    ensures NameOfKeyAsWritten(Key(d)) == head
    ensures NameOfKey(Key(d)) == d.name
  {
    assert Key(d) == d.dtype + ['-'] + (d.category + ['-'] + (head + ['-'] + tail));
    SplitCons(d.dtype, d.category + ['-'] + (head + ['-'] + tail), '-');
    SplitCons(d.category, head + ['-'] + tail, '-');
    SplitCons(head, tail, '-');
    NameOfKeyInverts(d);
  }

  // ---------------------------------------------------------------------
  // get_dataset_definitions

  /** The stored definitions keyed by their keys; a later row with the
      same key replaces an earlier one in its place. */
  function FromRecords(records: seq<Definition>): (r: Entries<string, Definition>)
    ensures UniqueKeys(r)
    decreases |records|
  {
    if records == [] then []
    else
      var init := FromRecords(records[..|records| - 1]);
      var last := records[|records| - 1];
      PutUnique(init, Key(last), last);
      Put(init, Key(last), last)
  }

  /** The last row with key `k`: with rows ordered by id, the newest. */
  function LastWithKey(records: seq<Definition>, k: string): Option<Definition>
    decreases |records|
  {
    if records == [] then None
    else if Key(records[|records| - 1]) == k then Some(records[|records| - 1])
    else LastWithKey(records[..|records| - 1], k)
  }

  /** Each key present maps to the last row carrying it. */
  lemma {:induction false} FromRecordsNewest(records: seq<Definition>, k: string)
    ensures Get(FromRecords(records), k) == LastWithKey(records, k)
    decreases |records|
  {
    if records != [] {
      var init := records[..|records| - 1];
      var last := records[|records| - 1];
      FromRecordsNewest(init, k);
      if Key(last) == k {
        PutGetSame(FromRecords(init), k, last);
      } else {
        PutGetOther(FromRecords(init), Key(last), last, k);
      }
    }
  }

  /** A definition created for a new `type-category-name` key: no id, no
      items, the default options. */
  function NewDefinition(key: string): (d: Definition)
    ensures d.id.None? && d.itemcount == 0
    ensures Parse(d.options) == Some(DefaultOptions)
  {
    var p := SplitAtMost3(key, '-');
    DefaultPacks();
    PackThenParse(DefaultOptions);
    Definition(None, p[0], if |p| > 1 then p[1] else "", if |p| > 2 then p[2] else "", Pack(DefaultOptions), 0)
  }

  /** The new keys of the form, skipping the empty ones (`""` and `"0"`)
      and those already present. */
  function AddNew(defs: Entries<string, Definition>, keys: seq<string>): (r: Entries<string, Definition>)
    decreases |keys|
  {
    if keys == [] then defs
    else
      var k := keys[0];
      if k == "" || k == "0" || HasKey(defs, k) then AddNew(defs, keys[1..])
      else AddNew(Put(defs, k, NewDefinition(k)), keys[1..])
  }

  /** `get_dataset_definitions`: the question's stored definitions (rows
      ordered by id), then a fresh definition for each new key. */
  function GetDatasetDefinitions(records: seq<Definition>, newKeys: seq<string>): Entries<string, Definition>
  {
    AddNew(FromRecords(records), newKeys)
  }

  /** Adding new keys never drops or alters a definition already there,
      gives every non-empty new key a definition, that definition fresh
      unless the key was already there, and keeps the keys distinct. */
  lemma {:induction false} AddNewSpec(defs: Entries<string, Definition>, keys: seq<string>, k: string)
    requires UniqueKeys(defs)
    ensures UniqueKeys(AddNew(defs, keys))
    ensures HasKey(defs, k) ==> Get(AddNew(defs, keys), k) == Get(defs, k)
    ensures !HasKey(defs, k) && k in keys && k != "" && k != "0" ==>
              Get(AddNew(defs, keys), k) == Some(NewDefinition(k))
    ensures !HasKey(defs, k) && (k !in keys || k == "" || k == "0") ==> !HasKey(AddNew(defs, keys), k)
    decreases |keys|
  {
    if keys != [] {
      var k0 := keys[0];
      if k0 == "" || k0 == "0" || HasKey(defs, k0) {
        AddNewSpec(defs, keys[1..], k);
      } else {
        var defs' := Put(defs, k0, NewDefinition(k0));
        PutUnique(defs, k0, NewDefinition(k0));
        AddNewSpec(defs', keys[1..], k);
        if k == k0 {
          PutGetSame(defs, k0, NewDefinition(k0));
        } else {
          PutGetOther(defs, k0, NewDefinition(k0), k);
        }
      }
    }
  }

  /** What `get_dataset_definitions` returns for every key: the newest
      stored row when there is one, else a fresh definition for a
      non-empty new key, else nothing. */
  lemma GetDatasetDefinitionsSpec(records: seq<Definition>, newKeys: seq<string>, k: string)
    ensures UniqueKeys(GetDatasetDefinitions(records, newKeys))
    ensures LastWithKey(records, k).Some? ==>
              Get(GetDatasetDefinitions(records, newKeys), k) == LastWithKey(records, k)
    ensures LastWithKey(records, k).None? && k in newKeys && k != "" && k != "0" ==>
              Get(GetDatasetDefinitions(records, newKeys), k) == Some(NewDefinition(k))
  {
    FromRecordsNewest(records, k);
    AddNewSpec(FromRecords(records), newKeys, k);
  }

  // ---------------------------------------------------------------------
  // update_dataset_options

  /** `empty()` on a string. */
  predicate PhpEmptyString(s: string)
  {
    s == "" || s == "0"
  }

  /** Form field `$key + 1` of a form array (absent fields are null). */
  function Field(fields: map<int, string>, i: int): Option<string>
  {
    if i in fields then Some(fields[i]) else None
  }

  /** The new options for form row `k + 1`, when its three fields are
      numeric. The distribution is always `uniform`. */
  function FormOptions(numeric: string -> bool, calcmin: map<int, string>, calcmax: map<int, string>,
                       calclength: map<int, string>, k: nat): Option<Options>
  {
    match (Field(calcmin, k + 1), Field(calcmax, k + 1), Field(calclength, k + 1))
    case (Some(lo), Some(hi), Some(len)) =>
      if numeric(lo) && numeric(hi) && numeric(len) then Some(Options(UniformDist, lo, hi, len)) else None
    case _ => None
  }

  /** The position of `x` in `s`. */
  function PositionOf(s: seq<string>, x: string): (r: Option<nat>)
    ensures r.None? <==> x !in s
    ensures r.Some? ==> r.value < |s| && s[r.value] == x
  {
    if s == [] then None
    else if s[0] == x then Some(0)
    else match PositionOf(s[1..], x)
      case None => None
      case Some(j) => Some(j + 1)
  }

  /** The form row of `x` when the distinct keys `ids` are numbered from
      `k`. */
  function RowOf(ids: seq<string>, x: string, k: nat): Option<nat>
  {
    match PositionOf(ids, x)
    case None => None
    case Some(j) => Some(k + j)
  }

  /** A definition after the first loop, given its form row: the options
      of that row if they are numeric, its own otherwise. */
  function FromFormRow(d: Definition, row: Option<nat>, numeric: string -> bool,
                       calcmin: map<int, string>, calcmax: map<int, string>,
                       calclength: map<int, string>): Definition
  {
    match row
    case None => d
    case Some(k) =>
      match FormOptions(numeric, calcmin, calcmax, calclength, k)
      case None => d
      case Some(o) => d.(options := Pack(o))
  }

  /** One pass of the first loop: the definition with key `id`, if there
      is one, takes the options of form row `k + 1` if they are numeric. */
  function FormStep(defs: Entries<string, Definition>, id: string, k: nat,
                    numeric: string -> bool, calcmin: map<int, string>, calcmax: map<int, string>,
                    calclength: map<int, string>): (r: Entries<string, Definition>)
    ensures |r| == |defs|
  {
    match (Get(defs, id), FormOptions(numeric, calcmin, calcmax, calclength, k))
    case (Some(d), Some(o)) => Put(defs, id, d.(options := Pack(o)))
    case _ => defs
  }

  /** The pass changes the entry with key `id` and no other. */
  lemma FormStepSpec(defs: Entries<string, Definition>, id: string, k: nat,
                     numeric: string -> bool, calcmin: map<int, string>, calcmax: map<int, string>,
                     calclength: map<int, string>, i: nat)
    requires UniqueKeys(defs) && i < |defs|
    ensures var r := FormStep(defs, id, k, numeric, calcmin, calcmax, calclength);
            UniqueKeys(r) && |r| == |defs| &&
            r[i] == (defs[i].0, if defs[i].0 == id then FromFormRow(defs[i].1, Some(k), numeric, calcmin, calcmax, calclength)
                                else defs[i].1)
  {
    match (Get(defs, id), FormOptions(numeric, calcmin, calcmax, calclength, k))
    case (Some(d), Some(o)) =>
      PutUnique(defs, id, d.(options := Pack(o)));
      var j := IndexOf(defs, id).value;
      assert defs[i].0 == id <==> j == i;
    case (None, _) =>
    case (_, None) =>
  }

  /** The first loop: distinct definition keys of the form, numbered from
      0, each given the options of its form row. */
  function ApplyForm(defs: Entries<string, Definition>, ids: seq<string>, k: nat,
                     numeric: string -> bool, calcmin: map<int, string>, calcmax: map<int, string>,
                     calclength: map<int, string>): (r: Entries<string, Definition>)
    ensures |r| == |defs|
    decreases |ids|
  {
    if ids == [] then defs
    else
      ApplyForm(FormStep(defs, ids[0], k, numeric, calcmin, calcmax, calclength), ids[1..], k + 1,
                numeric, calcmin, calcmax, calclength)
  }

  /** Each definition ends the first loop with the options of its own form
      row, when those are numeric. */
  lemma {:induction false} ApplyFormSpec(defs: Entries<string, Definition>, ids: seq<string>, k: nat,
                                         numeric: string -> bool, calcmin: map<int, string>,
                                         calcmax: map<int, string>, calclength: map<int, string>, i: nat)
    requires UniqueKeys(defs) && i < |defs|
    requires forall a, b :: 0 <= a < b < |ids| ==> ids[a] != ids[b]
    ensures ApplyForm(defs, ids, k, numeric, calcmin, calcmax, calclength)[i] ==
              (defs[i].0, FromFormRow(defs[i].1, RowOf(ids, defs[i].0, k), numeric, calcmin, calcmax, calclength))
    decreases |ids|
  {
    if ids == [] {
      assert PositionOf(ids, defs[i].0) == None;
      assert ApplyForm(defs, ids, k, numeric, calcmin, calcmax, calclength) == defs;
    } else {
      var x := defs[i].0;
      var next := FormStep(defs, ids[0], k, numeric, calcmin, calcmax, calclength);
      var rest := ids[1..];
      var step := if x == ids[0] then FromFormRow(defs[i].1, Some(k), numeric, calcmin, calcmax, calclength)
                  else defs[i].1;
      assert UniqueKeys(next) && i < |next| && next[i] == (x, step) by {
        FormStepSpec(defs, ids[0], k, numeric, calcmin, calcmax, calclength, i);
      }
      assert forall a, b :: 0 <= a < b < |rest| ==> rest[a] != rest[b] by {
        assert forall a :: 0 <= a < |rest| ==> rest[a] == ids[a + 1];
      }
      ApplyFormSpec(next, rest, k + 1, numeric, calcmin, calcmax, calclength, i);
      assert ApplyForm(defs, ids, k, numeric, calcmin, calcmax, calclength) ==
             ApplyForm(next, rest, k + 1, numeric, calcmin, calcmax, calclength);
      if x == ids[0] {
        assert x !in rest by {
          assert forall a :: 0 <= a < |rest| ==> rest[a] == ids[a + 1];
        }
      } else {
        RowOfTail(ids, x, k);
      }
    }
  }

  lemma RowOfTail(ids: seq<string>, x: string, k: nat)
    requires ids != [] && ids[0] != x
    ensures RowOf(ids, x, k) == RowOf(ids[1..], x, k + 1)
  {
    match PositionOf(ids[1..], x)
    case None =>
    case Some(j) =>
      assert PositionOf(ids, x) == Some(j + 1);
  }

  /** The second loop: empty options become the default. */
  function FillDefaults(defs: Entries<string, Definition>): (r: Entries<string, Definition>)
    ensures |r| == |defs|
    ensures forall i :: 0 <= i < |defs| ==> r[i].0 == defs[i].0
    ensures forall i :: 0 <= i < |defs| ==>
              r[i].1 == if PhpEmptyString(defs[i].1.options) then defs[i].1.(options := Pack(DefaultOptions)) else defs[i].1
  {
    seq(|defs|, i requires 0 <= i < |defs| =>
      if PhpEmptyString(defs[i].1.options) then (defs[i].0, defs[i].1.(options := Pack(DefaultOptions)))
      else defs[i])
  }

  /** `update_dataset_options`. */
  function UpdateDatasetOptions(defs: Entries<string, Definition>, definitionField: seq<string>,
                                numeric: string -> bool, calcmin: map<int, string>,
                                calcmax: map<int, string>, calclength: map<int, string>): Entries<string, Definition>
  {
    FillDefaults(ApplyForm(defs, Unique(definitionField, {}), 0, numeric, calcmin, calcmax, calclength))
  }

  /** After the update, each definition keeps its key and everything but
      its options; it has the options of its form row (numbered by the
      first occurrence of its key in the form) when all three of them are
      numeric, else its own; and options that are then empty become the
      default. */
  lemma UpdateDatasetOptionsSpec(defs: Entries<string, Definition>, definitionField: seq<string>,
                                 numeric: string -> bool, calcmin: map<int, string>,
                                 calcmax: map<int, string>, calclength: map<int, string>, i: nat)
    requires UniqueKeys(defs) && i < |defs|
    ensures var r := UpdateDatasetOptions(defs, definitionField, numeric, calcmin, calcmax, calclength);
            var u := FromFormRow(defs[i].1, RowOf(Unique(definitionField, {}), defs[i].0, 0),
                                 numeric, calcmin, calcmax, calclength);
            |r| == |defs| && r[i].0 == defs[i].0 &&
            r[i].1 == (if PhpEmptyString(u.options) then u.(options := Pack(DefaultOptions)) else u)
  {
    ApplyFormSpec(defs, Unique(definitionField, {}), 0, numeric, calcmin, calcmax, calclength, i);
  }

  /** No definition is left without options. */
  lemma UpdatedOptionsNonEmpty(defs: Entries<string, Definition>, definitionField: seq<string>,
                               numeric: string -> bool, calcmin: map<int, string>,
                               calcmax: map<int, string>, calclength: map<int, string>, i: nat)
    requires i < |defs|
    ensures !PhpEmptyString(UpdateDatasetOptions(defs, definitionField, numeric, calcmin, calcmax, calclength)[i].1.options)
  {
    DefaultPacks();
  }

  // ---------------------------------------------------------------------
  // save_dataset_definitions: collapsing racing shared definitions

  /** The `while (array_shift)` loop: the definition just inserted is
      deleted in favour of the next older one, which in turn is deleted in
      favour of the one before, until the oldest remains. `older` holds
      the ids of the older rows with the same identity, newest first. */
  method CollapseToOldest(inserted: nat, older: seq<nat>) returns (kept: nat, deleted: seq<nat>)
    ensures older == [] ==> kept == inserted && deleted == []
    ensures older != [] ==> kept == older[|older| - 1] && deleted == [inserted] + older[..|older| - 1]
  {
    kept := inserted;
    deleted := [];
    var queue := older;
    while queue != []
      invariant |queue| <= |older| && queue == older[|older| - |queue|..]
      invariant queue != older ==> kept == older[|older| - |queue| - 1]
      invariant queue == older ==> kept == inserted && deleted == []
      invariant queue != older ==> deleted == [inserted] + older[..|older| - |queue| - 1]
      decreases |queue|
    {
      deleted := deleted + [kept];
      kept := queue[0];
      queue := queue[1..];
    }
  }

  /** With the older ids newest first and below the inserted one, the
      collapse keeps the smallest id and deletes every other. */
  lemma CollapseKeepsOldest(inserted: nat, older: seq<nat>)
    requires forall i, j :: 0 <= i < j < |older| ==> older[i] > older[j]
    requires forall i :: 0 <= i < |older| ==> older[i] < inserted
    ensures var all := [inserted] + older;
            var kept := if older == [] then inserted else older[|older| - 1];
            (forall x :: x in all ==> kept <= x) &&
            multiset(if older == [] then [] else [inserted] + older[..|older| - 1]) + multiset{kept} == multiset(all)
  {
    if older != [] {
      var n := |older|;
      assert older == older[..n - 1] + [older[n - 1]];
    }
  }

  // ---------------------------------------------------------------------
  // delete_question

  /** A row of `question_datasets`. */
  datatype Link = Link(question: nat, definition: nat)

  /** A row of `question_dataset_items`. */
  datatype Item = Item(id: nat, definition: nat, itemnumber: int, value: string)

  /** Some question other than `q` uses definition `d`. */
  predicate SharedWithOthers(links: seq<Link>, q: nat, d: nat)
  {
    exists l :: l in links && l.question != q && l.definition == d
  }

  /** The definitions `delete_question` removes: those `q` links to and no
      other question does. */
  predicate Orphaned(links: seq<Link>, q: nat, d: nat)
  {
    Link(q, d) in links && !SharedWithOthers(links, q, d)
  }

  function FilterLinks(links: seq<Link>, keep: Link -> bool): (r: seq<Link>)
    ensures forall l :: l in r <==> l in links && keep(l)
  {
    if links == [] then []
    else
      assert forall l :: l in links <==> l == links[0] || l in links[1..];
      (if keep(links[0]) then [links[0]] else []) + FilterLinks(links[1..], keep)
  }

  function FilterDefinitions(defs: seq<nat>, keep: nat -> bool): (r: seq<nat>)
    ensures forall d :: d in r <==> d in defs && keep(d)
  {
    if defs == [] then []
    else
      assert forall d :: d in defs <==> d == defs[0] || d in defs[1..];
      (if keep(defs[0]) then [defs[0]] else []) + FilterDefinitions(defs[1..], keep)
  }

  function FilterItems(items: seq<Item>, keep: Item -> bool): (r: seq<Item>)
    ensures forall it :: it in r <==> it in items && keep(it)
  {
    if items == [] then []
    else
      assert forall it :: it in items <==> it == items[0] || it in items[1..];
      (if keep(items[0]) then [items[0]] else []) + FilterItems(items[1..], keep)
  }

  /** The dataset part of `delete_question`, on the three tables (the
      definitions by id). */
  function DeleteQuestion(q: nat, links: seq<Link>, defs: seq<nat>, items: seq<Item>): (seq<Link>, seq<nat>, seq<Item>)
  {
    (FilterLinks(links, (l: Link) => l.question != q),
     FilterDefinitions(defs, (d: nat) => !Orphaned(links, q, d)),
     FilterItems(items, (it: Item) => !Orphaned(links, q, it.definition)))
  }

  /** A definition, and its items, go exactly when `q` used it and no other
      question does; a shared definition survives with its items; every
      link of `q` goes and no other link does. */
  lemma DeleteQuestionSpec(q: nat, links: seq<Link>, defs: seq<nat>, items: seq<Item>)
    ensures var (links', defs', items') := DeleteQuestion(q, links, defs, items);
            (forall l :: l in links' <==> l in links && l.question != q) &&
            (forall d :: d in defs ==> (d !in defs' <==> Link(q, d) in links && !SharedWithOthers(links, q, d))) &&
            (forall it :: it in items ==> (it !in items' <==> Orphaned(links, q, it.definition)))
  {
  }

  // ---------------------------------------------------------------------
  // get_random_guess_score

  /** An answer: its text and its grade fraction. */
  datatype AnswerRow = AnswerRow(text: string, fraction: real)

  function GetRandomGuessScore(answers: seq<AnswerRow>, unitpenalty: real): (r: real)
    ensures r >= 0.0
    ensures (forall i :: 0 <= i < |answers| ==> Trim(answers[i].text) != "*") ==> r == 0.0
  {
    if answers == [] then 0.0
    else if Trim(answers[0].text) == "*" then
      (if answers[0].fraction - unitpenalty > 0.0 then answers[0].fraction - unitpenalty else 0.0)
    else GetRandomGuessScore(answers[1..], unitpenalty)
  }

  /** The score is that of the first any-value answer, less the unit
      penalty and never negative. */
  lemma {:induction false} RandomGuessFirstStar(answers: seq<AnswerRow>, unitpenalty: real, i: nat)
    requires i < |answers| && Trim(answers[i].text) == "*"
    requires forall j :: 0 <= j < i ==> Trim(answers[j].text) != "*"
    ensures GetRandomGuessScore(answers, unitpenalty) ==
              if answers[i].fraction - unitpenalty > 0.0 then answers[i].fraction - unitpenalty else 0.0
    decreases i
  {
    if i > 0 {
      assert Trim(answers[0].text) != "*";
      RandomGuessFirstStar(answers[1..], unitpenalty, i - 1);
    }
  }
}
