/** The dataset items of a question: `get_database_dataset_items` and
    `pick_question_dataset`, which read them, and `save_dataset_items`,
    which writes what a submission of the items page asks for. The
    database is not modelled: a query's rows are an input, and the rows a
    step inserts, updates or keeps are its result. */
module DatasetItems {
  import opened Wrappers
  import opened Assoc
  import opened Substitution
  import opened Definitions
  import opened Selector

  /** `MAX_DATASET_ITEMS`. */
  const MaxDatasetItems: int := 100

  // ---------------------------------------------------------------------
  // The first row per key

  /** Looking a key up after appending an entry. */
  lemma GetAppend<K, V>(e: Entries<K, V>, x: (K, V), k: K)
    ensures Get(e + [x], k) == if HasKey(e, k) then Get(e, k) else if x.0 == k then Some(x.1) else None
  {
    var r := e + [x];
    assert forall i :: 0 <= i < |e| ==> r[i] == e[i];
    if HasKey(e, k) {
      var i := IndexOf(e, k).value;
      var j := IndexOf(r, k).value;
      assert j <= i;
    } else if x.0 == k {
      assert r[|e|].0 == k;
    }
  }

  /** The `isset` loop over rows that come newest first: a key keeps the
      value of its first row, and the later rows with that key are
      skipped. */
  method KeepFirst<K(==), V(==)>(rows: seq<(K, V)>) returns (r: Entries<K, V>)
    ensures UniqueKeys(r)
    ensures forall k :: Get(r, k) == Get(rows, k)
    ensures forall x :: x in r ==> x in rows
  {
    r := [];
    for i := 0 to |rows|
      invariant UniqueKeys(r)
      invariant forall k :: Get(r, k) == Get(rows[..i], k)
      invariant forall x :: x in r ==> x in rows
    {
      assert rows[..i + 1] == rows[..i] + [rows[i]];
      var r' := if HasKey(r, rows[i].0) then r else r + [rows[i]];
      forall k
        ensures Get(r', k) == Get(rows[..i + 1], k)
      {
        GetAppend(rows[..i], rows[i], k);
        GetAppend(r, rows[i], k);
        assert HasKey(r, k) <==> HasKey(rows[..i], k) by {
          assert Get(r, k) == Get(rows[..i], k);
        }
      }
      if !HasKey(r, rows[i].0) {
        forall a, b | 0 <= a < b < |r'|
          ensures r'[a].0 != r'[b].0
        {
          if b == |r| {
            assert r'[a] == r[a];
          }
        }
      }
      r := r';
    }
    assert rows[..|rows|] == rows;
  }

  /** With the rows in descending order of a row id, the first row of a
      key is the one of that key with the greatest id. */
  lemma FirstHasGreatestId<K, V>(e: Entries<K, V>, id: V -> int, k: K)
    requires forall i, j :: 0 <= i < j < |e| ==> id(e[i].1) > id(e[j].1)
    ensures Get(e, k).Some? ==>
              exists i :: 0 <= i < |e| && e[i] == (k, Get(e, k).value) &&
                forall j :: 0 <= j < |e| && e[j].0 == k ==> id(e[j].1) <= id(e[i].1)
  {
    if Get(e, k).Some? {
      var i := IndexOf(e, k).value;
      assert e[i] == (k, Get(e, k).value);
    }
  }

  // ---------------------------------------------------------------------
  // get_database_dataset_items

  predicate Ascending<V>(e: Entries<int, V>)
  {
    forall i, j :: 0 <= i < j < |e| ==> e[i].0 < e[j].0
  }

  /** Inserting an entry with a new key into entries in ascending key
      order. */
  function InsertByKey<V(!new)>(e: Entries<int, V>, x: (int, V)): (r: Entries<int, V>)
    requires Ascending(e) && forall y :: y in e ==> y.0 != x.0
    ensures Ascending(r) && |r| == |e| + 1
    ensures forall y :: y in r <==> y in e || y == x
  {
    if e == [] then [x]
    else if x.0 < e[0].0 then [x] + e
    else
      assert forall y :: y in e <==> y == e[0] || y in e[1..];
      var rest := InsertByKey(e[1..], x);
      assert forall y :: y in rest ==> e[0].0 < y.0;
      [e[0]] + rest
  }

  /** `ksort`: the same entries in ascending key order. */
  function KSort<V(!new)>(e: Entries<int, V>): (r: Entries<int, V>)
    requires UniqueKeys(e)
    ensures Ascending(r) && |r| == |e|
    ensures forall y :: y in r <==> y in e
  {
    if e == [] then []
    else
      assert forall y :: y in e <==> y == e[0] || y in e[1..];
      assert forall y :: y in e[1..] ==> y.0 != e[0].0;
      InsertByKey(KSort(e[1..]), e[0])
  }

  /** Two entry lists with distinct keys and the same entries agree on
      every lookup. */
  lemma SameEntriesSameGet<K, V>(a: Entries<K, V>, b: Entries<K, V>, k: K)
    requires UniqueKeys(a) && UniqueKeys(b)
    requires forall y :: y in a <==> y in b
    ensures Get(a, k) == Get(b, k)
  {
    if HasKey(a, k) {
      var i := IndexOf(a, k).value;
      assert a[i] in b;
    }
    if HasKey(b, k) {
      var j := IndexOf(b, k).value;
      assert b[j] in a;
    }
  }

  /** The query's rows keyed by item number. */
  function ByItemNumber(rows: seq<Item>): (r: Entries<int, Item>)
    ensures |r| == |rows| && forall i :: 0 <= i < |rows| ==> r[i] == (rows[i].itemnumber, rows[i])
  {
    seq(|rows|, i requires 0 <= i < |rows| => (rows[i].itemnumber, rows[i]))
  }

  /** `get_database_dataset_items`, given the definition's items in the
      query's order (newest first): item numbers in ascending order, each
      with the first of its rows. */
  method GetDatabaseDatasetItems(rows: seq<Item>) returns (r: Entries<int, Item>)
    ensures Ascending(r)
    ensures forall n :: Get(r, n) == Get(ByItemNumber(rows), n)
  {
    var first := KeepFirst(ByItemNumber(rows));
    r := KSort(first);
    forall n
      ensures Get(r, n) == Get(ByItemNumber(rows), n)
    {
      SameEntriesSameGet(r, first, n);
    }
  }

  /** With the rows newest first, an item number maps to its row with the
      greatest id, and the item numbers present are exactly those of the
      rows. */
  lemma NewestItemKept(rows: seq<Item>, n: int)
    requires forall i, j :: 0 <= i < j < |rows| ==> rows[i].id > rows[j].id
    ensures Get(ByItemNumber(rows), n).None? <==> forall i :: 0 <= i < |rows| ==> rows[i].itemnumber != n
    ensures Get(ByItemNumber(rows), n).Some? ==>
              var it := Get(ByItemNumber(rows), n).value;
              it in rows && it.itemnumber == n &&
              forall i :: 0 <= i < |rows| && rows[i].itemnumber == n ==> rows[i].id <= it.id
  {
    var e := ByItemNumber(rows);
    FirstHasGreatestId(e, (x: Item) => x.id, n);
    if Get(e, n).None? {
      forall i | 0 <= i < |rows|
        ensures rows[i].itemnumber != n
      {
        assert e[i].0 == rows[i].itemnumber;
      }
    } else {
      var i :| 0 <= i < |e| && e[i] == (n, Get(e, n).value) &&
        forall j :: 0 <= j < |e| && e[j].0 == n ==> e[j].1.id <= e[i].1.id;
      assert rows[i] == Get(e, n).value;
    }
  }

  // ---------------------------------------------------------------------
  // pick_question_dataset

  /** A row of the query: item id, definition name, value. */
  datatype DatasetRow = DatasetRow(id: nat, name: string, value: string)

  function ByName(rows: seq<DatasetRow>): (r: Entries<string, string>)
    ensures |r| == |rows| && forall i :: 0 <= i < |rows| ==> r[i] == (rows[i].name, rows[i].value)
  {
    seq(|rows|, i requires 0 <= i < |rows| => (rows[i].name, rows[i].value))
  }

  /** `pick_question_dataset`, given the rows of the item number in the
      query's order (newest first): no rows is the `print_error` abort;
      otherwise each name takes the value of its first row. */
  method PickQuestionDataset(rows: seq<DatasetRow>) returns (r: Option<Entries<string, string>>)
    ensures r.None? <==> rows == []
    ensures r.Some? ==> UniqueKeys(r.value) && forall name :: Get(r.value, name) == Get(ByName(rows), name)
  {
    if rows == [] {
      return None;
    }
    var dataset := KeepFirst(ByName(rows));
    return Some(dataset);
  }

  /** With the rows newest first, a name takes the value of its row with
      the greatest id. */
  lemma NewestValuePicked(rows: seq<DatasetRow>, name: string)
    requires forall i, j :: 0 <= i < j < |rows| ==> rows[i].id > rows[j].id
    ensures Get(ByName(rows), name).None? <==> forall i :: 0 <= i < |rows| ==> rows[i].name != name
    ensures Get(ByName(rows), name).Some? ==>
              exists i :: 0 <= i < |rows| && rows[i].name == name && rows[i].value == Get(ByName(rows), name).value &&
                forall j :: 0 <= j < |rows| && rows[j].name == name ==> rows[j].id <= rows[i].id
  {
    var e := ByName(rows);
    if Get(e, name).None? {
      forall i | 0 <= i < |rows|
        ensures rows[i].name != name
      {
        assert e[i].0 == rows[i].name;
      }
    } else {
      var i := IndexOf(e, name).value;
      forall j | 0 <= j < |rows| && rows[j].name == name
        ensures rows[j].id <= rows[i].id
      {
        assert e[j].0 == name;
      }
    }
  }

  // ---------------------------------------------------------------------
  // maxnumber

  /** One step of the `maxnumber` loop: the first count, then any count
      below the one held. */
  function MaxNumberStep(m: int, c: int): int
  {
    if m == -1 || c < m then c else m
  }

  /** `maxnumber` after the loop over the definitions. */
  function MaxNumberOf(defs: Entries<string, Definition>): int
    decreases |defs|
  {
    if defs == [] then -1
    else MaxNumberStep(MaxNumberOf(defs[..|defs| - 1]), defs[|defs| - 1].1.itemcount)
  }

  /** The loop of `save_dataset_items` and of the items form's
      constructor. */
  method MaxNumber(defs: Entries<string, Definition>) returns (m: int)
    ensures m == MaxNumberOf(defs)
  {
    m := -1;
    for i := 0 to |defs|
      invariant m == MaxNumberOf(defs[..i])
    {
      assert defs[..i + 1][..i] == defs[..i];
      if m == -1 || defs[i].1.itemcount < m {
        m := defs[i].1.itemcount;
      }
    }
    assert defs[..|defs|] == defs;
  }

  /** With item counts that are not negative, `maxnumber` is -1 exactly
      when there is no definition, and otherwise the smallest item count. */
  lemma {:induction false} MaxNumberIsSmallest(defs: Entries<string, Definition>)
    requires forall i :: 0 <= i < |defs| ==> defs[i].1.itemcount >= 0
    ensures MaxNumberOf(defs) == -1 <==> defs == []
    ensures defs != [] ==>
              (exists i :: 0 <= i < |defs| && defs[i].1.itemcount == MaxNumberOf(defs)) &&
              forall i :: 0 <= i < |defs| ==> MaxNumberOf(defs) <= defs[i].1.itemcount
    decreases |defs|
  {
    if defs != [] {
      var init := defs[..|defs| - 1];
      MaxNumberIsSmallest(init);
      assert forall i :: 0 <= i < |init| ==> init[i] == defs[i];
      if init != [] {
        var i :| 0 <= i < |init| && init[i].1.itemcount == MaxNumberOf(init);
        assert defs[i].1.itemcount == MaxNumberOf(init);
      }
    }
  }

  /** `maxnumber` held to `MAX_DATASET_ITEMS`. */
  function Capped(m: int): (r: int)
    ensures r <= MaxDatasetItems && (r == m || (m > MaxDatasetItems && r == MaxDatasetItems))
  {
    if m > MaxDatasetItems then MaxDatasetItems else m
  }

  /** The form's `noofitems`. */
  function NoOfItems(maxnumber: int): int
  {
    if maxnumber != -1 then maxnumber else 0
  }

  /** `noofitems` is 0, and the form offers the generate button, exactly
      when there is no definition or some definition has no items. */
  lemma NoOfItemsZero(defs: Entries<string, Definition>)
    requires forall i :: 0 <= i < |defs| ==> defs[i].1.itemcount >= 0
    ensures NoOfItems(MaxNumberOf(defs)) >= 0
    ensures NoOfItems(MaxNumberOf(defs)) == 0 <==> defs == [] || exists i :: 0 <= i < |defs| && defs[i].1.itemcount == 0
  {
    MaxNumberIsSmallest(defs);
  }

  // ---------------------------------------------------------------------
  // The items the form submits

  /** An item row to write: its definition's id (null for a definition
      not saved yet), its item number, and its value (null where the
      source reads a missing field). */
  datatype NewItem = NewItem(definition: Option<nat>, itemnumber: int, value: Option<Value>)

  datatype Write = Update(id: nat, item: NewItem) | Insert(item: NewItem)

  /** `ceil($i / $n)` for positive integers. */
  function CeilDiv(i: int, n: int): (r: int)
    requires i >= 1 && n >= 1
    ensures r >= 1 && (r - 1) * n < i <= r * n
  {
    var q := (i + n - 1) / n;
    assert i + n - 1 == q * n + (i + n - 1) % n;
    assert (q - 1) * n == q * n - n;
    q
  }

  /** No item number exceeds the number of items the fields cover. */
  lemma CeilDivAtMost(i: int, n: int, m: int)
    requires i >= 1 && n >= 1 && i <= n * m
    ensures CeilDiv(i, n) <= m
  {
    var r := CeilDiv(i, n);
    PositiveFactor(m - r + 1, n, n * m - (r - 1) * n);
  }

  /** A product with a positive factor that is positive has a positive
      other factor. */
  lemma PositiveFactor(a: int, n: int, p: int)
    requires n >= 1 && p > 0 && a * n == p
    ensures a >= 1
  {
    assert a * n == (a - 1) * n + n;
  }

  /** `$datasetdefs[$defid]->id`: null for a definition that is missing or
      not saved. */
  function DefinitionId(defs: Entries<string, Definition>, defid: string): Option<nat>
  {
    match Get(defs, defid)
    case None => None
    case Some(d) => d.id
  }

  /** The write for form field `i`, of definition `defid`: an update of
      the record the field was loaded from, or an insert. */
  function FormWrite(defs: Entries<string, Definition>, defid: string, i: int,
                     number: map<int, string>, itemid: map<int, nat>): Write
    requires i >= 1 && |defs| >= 1
  {
    var item := NewItem(DefinitionId(defs, defid), CeilDiv(i, |defs|),
                        if i in number then Some(Stored(number[i])) else None);
    if i in itemid && itemid[i] != 0 then Update(itemid[i], item) else Insert(item)
  }

  /** How many fields the loop writes: all of them, or the
      `count * maxnumber` before it breaks. */
  function FieldsWritten(count: int, fields: int, maxnumber: int): (n: int)
    requires fields >= 0
    ensures 0 <= n <= fields && (n == fields || n == count * maxnumber || (n == 0 && count * maxnumber < 0))
  {
    if count * maxnumber < 0 then 0
    else if fields <= count * maxnumber then fields
    else count * maxnumber
  }

  /** The writes of the form loop: one per field in key order, the field
      at position `i` (from 1) belonging to item `ceil(i / count)`. */
  function FormWrites(defs: Entries<string, Definition>, fields: seq<string>, number: map<int, string>,
                      itemid: map<int, nat>, maxnumber: int): (r: seq<Write>)
  {
    if |defs| == 0 then []
    else
      var n := FieldsWritten(|defs|, |fields|, maxnumber);
      seq(n, j requires 0 <= j < n => FormWrite(defs, fields[j], j + 1, number, itemid))
  }

  /** The loop over the submitted fields (already in key order). */
  method SaveFormItems(defs: Entries<string, Definition>, fields: seq<string>, number: map<int, string>,
                       itemid: map<int, nat>, maxnumber: int) returns (writes: seq<Write>)
    ensures writes == FormWrites(defs, fields, number, itemid, maxnumber)
  {
    writes := [];
    var i := 1;
    while i <= |fields|
      invariant 1 <= i <= |fields| + 1
      invariant |defs| == 0 ==> writes == []
      invariant |defs| > 0 ==> i - 1 <= FieldsWritten(|defs|, |fields|, maxnumber) &&
                                 writes == FormWrites(defs, fields, number, itemid, maxnumber)[..i - 1]
    {
      if i > |defs| * maxnumber {
        break;
      }
      var defid := fields[i - 1];
      var item := NewItem(DefinitionId(defs, defid), CeilDiv(i, |defs|),
                          if i in number then Some(Stored(number[i])) else None);
      if i in itemid && itemid[i] != 0 {
        writes := writes + [Update(itemid[i], item)];
      } else {
        writes := writes + [Insert(item)];
      }
      i := i + 1;
    }
  }

  /** Every write carries an item number from 1 to `maxnumber`, that of
      the group of `count` fields it is in; so the branch after the loop
      that raises the item counts when the last item number exceeds
      `maxnumber` is never taken. */
  lemma FormItemNumbers(defs: Entries<string, Definition>, fields: seq<string>, number: map<int, string>,
                        itemid: map<int, nat>, maxnumber: int)
    ensures var w := FormWrites(defs, fields, number, itemid, maxnumber);
            forall j :: 0 <= j < |w| ==>
              1 <= w[j].item.itemnumber <= maxnumber &&
              (w[j].item.itemnumber - 1) * |defs| < j + 1 <= w[j].item.itemnumber * |defs|
  {
    var w := FormWrites(defs, fields, number, itemid, maxnumber);
    forall j | 0 <= j < |w|
      ensures 1 <= w[j].item.itemnumber <= maxnumber
    {
      CeilDivAtMost(j + 1, |defs|, maxnumber);
    }
  }

  /** The form loop writes every field up to `count * maxnumber`, each to
      the record it was loaded from when there is one, with the submitted
      value. */
  lemma FormWritesFields(defs: Entries<string, Definition>, fields: seq<string>, number: map<int, string>,
                         itemid: map<int, nat>, maxnumber: int)
    requires |defs| >= 1 && maxnumber >= 0
    ensures var w := FormWrites(defs, fields, number, itemid, maxnumber);
            (|w| == |fields| || |w| == |defs| * maxnumber) &&
            forall j :: 0 <= j < |w| ==>
              w[j].item.definition == DefinitionId(defs, fields[j]) &&
              (w[j].Update? <==> j + 1 in itemid && itemid[j + 1] != 0) &&
              (w[j].Update? ==> w[j].id == itemid[j + 1]) &&
              (j + 1 in number ==> w[j].item.value == Some(Stored(number[j + 1])))
  {
  }

  // ---------------------------------------------------------------------
  // Supplementary items

  /** The add branch runs when the add button was pressed with a positive
      amount and fewer than `MAX_DATASET_ITEMS` items. */
  predicate AddRequested(addbutton: bool, selectadd: int, maxnumber: int)
  {
    addbutton && selectadd > 0 && maxnumber < MaxDatasetItems
  }

  /** `numbertoadd`: the amount asked for, held so that the items stay
      within `MAX_DATASET_ITEMS`. */
  function NumberToAdd(selectadd: int, maxnumber: int): (n: int)
    ensures n <= selectadd && maxnumber + n <= MaxDatasetItems
    ensures n == selectadd || maxnumber + n == MaxDatasetItems
  {
    if MaxDatasetItems - maxnumber < selectadd then MaxDatasetItems - maxnumber else selectadd
  }

  /** When the add branch runs, it adds at least one slot. */
  lemma NumberToAddPositive(addbutton: bool, selectadd: int, maxnumber: int)
    requires AddRequested(addbutton, selectadd, maxnumber)
    ensures 1 <= NumberToAdd(selectadd, maxnumber) <= selectadd
  {
  }

  /** `$dataset_items[$defid][$idx]` for the definition at position `k`:
      null when generation returned `false`, or past the generated
      slots. */
  function Read(generated: Option<seq<seq<Num>>>, k: nat, idx: int): Option<Num>
  {
    if generated.Some? && 0 <= idx < |generated.value| && k < |generated.value[idx]|
    then Some(generated.value[idx][k])
    else None
  }

  /** The reads of the inner loop: indices `first` to `first + n - 1`. */
  function Reads(generated: Option<seq<seq<Num>>>, k: nat, first: int, n: nat): (r: seq<Option<Num>>)
    ensures |r| == n && forall j :: 0 <= j < n ==> r[j] == Read(generated, k, first + j)
  {
    seq(n, j requires 0 <= j < n => Read(generated, k, first + j))
  }

  /** The reads the NaN test lets through, in order (`is_nan(null)` is
      false, so a null read is kept). */
  function Kept(vs: seq<Option<Num>>): (r: seq<Option<Num>>)
    ensures |r| <= |vs|
    ensures forall x :: x in r ==> x in vs && x != Some(NaN)
    ensures forall x :: x in vs && x != Some(NaN) ==> x in r
    decreases |vs|
  {
    if vs == [] then []
    else
      var init := vs[..|vs| - 1];
      var last := vs[|vs| - 1];
      assert forall x :: x in vs <==> x in init || x == last;
      Kept(init) + (if last == Some(NaN) then [] else [last])
  }

  function ValueOf(v: Option<Num>): Option<Value>
  {
    match v
    case None => None
    case Some(n) => Some(Float(n))
  }

  /** The items inserted for one definition: the kept reads, numbered from
      1 by `addedevals + 1`. */
  function DefinitionItems(id: Option<nat>, vs: seq<Option<Num>>): (r: seq<NewItem>)
  {
    Numbered(id, Kept(vs))
  }

  /** Item rows for the values `kept`, numbered from 1. */
  function Numbered(id: Option<nat>, kept: seq<Option<Num>>): (r: seq<NewItem>)
    ensures |r| == |kept|
  {
    seq(|kept|, j requires 0 <= j < |kept| => NewItem(id, j + 1, ValueOf(kept[j])))
  }

  lemma NumberedAppend(id: Option<nat>, kept: seq<Option<Num>>, v: Option<Num>)
    ensures Numbered(id, kept + [v]) == Numbered(id, kept) + [NewItem(id, |kept| + 1, ValueOf(v))]
  {
    var a := Numbered(id, kept + [v]);
    var b := Numbered(id, kept) + [NewItem(id, |kept| + 1, ValueOf(v))];
    forall j | 0 <= j < |a|
      ensures a[j] == b[j]
    {
      if j < |kept| {
        assert (kept + [v])[j] == kept[j];
      }
    }
  }

  /** The items of one definition are numbered 1, 2, ... with the values
      the NaN test keeps, in the order of the reads. */
  lemma DefinitionItemsSpec(id: Option<nat>, vs: seq<Option<Num>>)
    ensures var r := DefinitionItems(id, vs);
            |r| == |Kept(vs)| <= |vs| &&
            forall j :: 0 <= j < |r| ==>
              r[j].definition == id && r[j].itemnumber == j + 1 && r[j].value == ValueOf(Kept(vs)[j]) &&
              r[j].value != Some(Float(NaN))
  {
    var kept := Kept(vs);
    forall j | 0 <= j < |kept|
      ensures kept[j] != Some(NaN)
    {
      assert kept[j] in kept;
    }
  }

  /** The inserted items of the first `k` definitions. */
  function Added(defs: Entries<string, Definition>, generated: Option<seq<seq<Num>>>, first: int, n: nat, k: nat): seq<NewItem>
    requires k <= |defs|
  {
    if k == 0 then []
    else Added(defs, generated, first, n, k - 1) + DefinitionItems(defs[k - 1].1.id, Reads(generated, k - 1, first, n))
  }

  /** `maxnumber` after the branch: the number of items inserted for the
      last definition (PHP's null, which compares as 0, when there is no
      definition). */
  function AddedMaxNumber(defs: Entries<string, Definition>, generated: Option<seq<seq<Num>>>, first: int, n: nat): int
  {
    if defs == [] then 0 else |Kept(Reads(generated, |defs| - 1, first, n))|
  }

  /** Adding one read to the inner loop. */
  lemma KeptStep(vs: seq<Option<Num>>, v: Option<Num>)
    ensures Kept(vs + [v]) == Kept(vs) + (if v == Some(NaN) then [] else [v])
  {
    assert (vs + [v])[..|vs|] == vs;
  }

  /** A NaN read adds no item. */
  lemma DefinitionItemsSkip(id: Option<nat>, vs: seq<Option<Num>>, v: Option<Num>)
    requires v == Some(NaN)
    ensures Kept(vs + [v]) == Kept(vs)
    ensures DefinitionItems(id, vs + [v]) == DefinitionItems(id, vs)
  {
    KeptStep(vs, v);
  }

  /** Any other read adds one item, numbered after the kept ones. */
  lemma DefinitionItemsKeep(id: Option<nat>, vs: seq<Option<Num>>, v: Option<Num>)
    requires v != Some(NaN)
    ensures Kept(vs + [v]) == Kept(vs) + [v]
    ensures DefinitionItems(id, vs + [v]) == DefinitionItems(id, vs) + [NewItem(id, |Kept(vs)| + 1, ValueOf(v))]
  {
    KeptStep(vs, v);
    NumberedAppend(id, Kept(vs), v);
  }

  /** One more read. */
  lemma ReadsStep(generated: Option<seq<seq<Num>>>, k: nat, first: int, n: nat)
    ensures Reads(generated, k, first, n + 1) == Reads(generated, k, first, n) + [Read(generated, k, first + n)]
  {
    var a := Reads(generated, k, first, n + 1);
    var b := Reads(generated, k, first, n) + [Read(generated, k, first + n)];
    assert forall j :: 0 <= j < n + 1 ==> a[j] == b[j];
  }

  /** The inner loop for the definition at position `k`: the reads at
      indices `first` to `first + n - 1` that are not NaN, numbered from 1
      by `addedevals`. */
  method AddDefinitionItems(id: Option<nat>, generated: Option<seq<seq<Num>>>, k: nat, first: int, n: nat)
    returns (items: seq<NewItem>, addedevals: nat)
    ensures items == DefinitionItems(id, Reads(generated, k, first, n))
    ensures addedevals == |Kept(Reads(generated, k, first, n))|
  {
    items := [];
    addedevals := 0;
    var numberadded := first + 1;
    ghost var done: nat := 0;
    while numberadded <= first + n
      invariant numberadded == first + 1 + done && done <= n
      invariant items == DefinitionItems(id, Reads(generated, k, first, done))
      invariant addedevals == |Kept(Reads(generated, k, first, done))|
    {
      var v := Read(generated, k, numberadded - 1);
      ghost var before := Reads(generated, k, first, done);
      ReadsStep(generated, k, first, done);
      if v == Some(NaN) {
        DefinitionItemsSkip(id, before, v);
      } else {
        DefinitionItemsKeep(id, before, v);
        items := items + [NewItem(id, addedevals + 1, ValueOf(v))];
        addedevals := addedevals + 1;
      }
      numberadded := numberadded + 1;
      done := done + 1;
    }
  }

  /** The loop over the definitions, reading the generated values at
      indices `maxnumber` to `maxnumber + numbertoadd - 1` as the source
      does, followed by the update of the saved definitions' counts. */
  method AddSupplementary(defs: Entries<string, Definition>, generated: Option<seq<seq<Num>>>,
                          maxnumber: int, numbertoadd: nat)
    returns (inserted: seq<NewItem>, newmax: int, updated: Entries<string, Definition>)
    ensures inserted == Added(defs, generated, maxnumber, numbertoadd, |defs|)
    ensures newmax == AddedMaxNumber(defs, generated, maxnumber, numbertoadd)
    ensures updated == WithItemCount(defs, newmax)
  {
    inserted := [];
    var addedevals := 0;
    for k := 0 to |defs|
      invariant inserted == Added(defs, generated, maxnumber, numbertoadd, k)
      invariant k > 0 ==> addedevals == |Kept(Reads(generated, k - 1, maxnumber, numbertoadd))|
    {
      var items;
      items, addedevals := AddDefinitionItems(defs[k].1.id, generated, k, maxnumber, numbertoadd);
      inserted := inserted + items;
    }
    newmax := if |defs| == 0 then 0 else addedevals;
    updated := WithItemCount(defs, newmax);
  }

  /** Every saved definition takes item count `m`. */
  function WithItemCount(defs: Entries<string, Definition>, m: int): (r: Entries<string, Definition>)
    ensures |r| == |defs|
    ensures forall i :: 0 <= i < |defs| ==>
              r[i].0 == defs[i].0 && (defs[i].1.id.Some? ==> r[i].1 == defs[i].1.(itemcount := m)) &&
              (defs[i].1.id.None? ==> r[i].1 == defs[i].1)
  {
    seq(|defs|, i requires 0 <= i < |defs| =>
      (defs[i].0, if defs[i].1.id.Some? then defs[i].1.(itemcount := m) else defs[i].1))
  }

  /** Column `k` of the first `n` generated slots. */
  function Column(generated: seq<seq<Num>>, k: nat, n: nat): (r: seq<Option<Num>>)
    requires n <= |generated| && forall j :: 0 <= j < n ==> k < |generated[j]|
    ensures |r| == n && forall j :: 0 <= j < n ==> r[j] == Some(generated[j][k])
  {
    seq(n, j requires 0 <= j < n => Some(generated[j][k]))
  }

  /** With no items yet, the only case the form offers the generate
      button in, each definition reads exactly its generated values. */
  lemma FromEmptyReadsGenerated(generated: seq<seq<Num>>, k: nat, n: nat)
    requires n <= |generated| && forall j :: 0 <= j < n ==> k < |generated[j]|
    ensures Reads(Some(generated), k, 0, n) == Column(generated, k, n)
  {
  }

  /** Starting from `maxnumber` items, the last `maxnumber` reads of a
      generation of `n` slots lie past the generated slots; those reads
      are null and are stored as null values. */
  lemma OffsetReadsPastGenerated(generated: seq<seq<Num>>, k: nat, maxnumber: nat, n: nat, j: nat)
    requires |generated| == n && j < n && n - maxnumber <= j
    ensures Reads(Some(generated), k, maxnumber, n)[j] == None
    ensures Kept([None]) == [None]
  {
  }

  /** One definition, one item already, one slot generated with value 2:
      the inserted item has a null value instead of 2. */
  lemma OffsetStoresNull(d: Definition)
    requires d.id == Some(1)
    ensures Added([("a", d)], Some([[Real(2.0)]]), 1, 1, 1) == [NewItem(Some(1), 1, None)]
    ensures Added([("a", d)], Some([[Real(2.0)]]), 0, 1, 1) == [NewItem(Some(1), 1, Some(Float(Real(2.0))))]
  {
    assert Reads(Some([[Real(2.0)]]), 0, 1, 1) == [None];
    assert Kept([None]) == Kept([]) + [None];
    assert Reads(Some([[Real(2.0)]]), 0, 0, 1) == [Some(Real(2.0))];
    assert Kept([Some(Real(2.0))]) == Kept([]) + [Some(Real(2.0))];
  }

  /** A slot is NaN for every definition or for none. */
  predicate WholeSlotNaN(generated: seq<seq<Num>>, width: nat, n: nat)
    requires n <= |generated| && forall j :: 0 <= j < n ==> width <= |generated[j]|
  {
    forall j, k, k' :: 0 <= j < n && 0 <= k < width && 0 <= k' < width ==>
      (generated[j][k] == NaN <==> generated[j][k'] == NaN)
  }

  /** Two read sequences with NaN at the same positions keep as many
      values. */
  lemma {:induction false} KeptSameLength(vs: seq<Option<Num>>, ws: seq<Option<Num>>)
    requires |vs| == |ws| && forall j :: 0 <= j < |vs| ==> (vs[j] == Some(NaN) <==> ws[j] == Some(NaN))
    ensures |Kept(vs)| == |Kept(ws)|
    decreases |vs|
  {
    if vs != [] {
      KeptSameLength(vs[..|vs| - 1], ws[..|ws| - 1]);
    }
  }

  /** When each generated slot is NaN for every definition or for none,
      every definition gets as many items as the last one, so the count
      written to every saved definition matches its items. */
  lemma EqualCountsFromEmpty(defs: Entries<string, Definition>, generated: seq<seq<Num>>, n: nat, k: nat)
    requires n <= |generated| && forall j :: 0 <= j < n ==> |defs| <= |generated[j]|
    requires WholeSlotNaN(generated, |defs|, n)
    requires k < |defs|
    ensures |DefinitionItems(defs[k].1.id, Reads(Some(generated), k, 0, n))| ==
            AddedMaxNumber(defs, Some(generated), 0, n)
  {
    var vs := Reads(Some(generated), k, 0, n);
    var ws := Reads(Some(generated), |defs| - 1, 0, n);
    DefinitionItemsSpec(defs[k].1.id, vs);
    KeptSameLength(vs, ws);
  }

  // ---------------------------------------------------------------------
  // Deleting the generated items

  /** A row of `question_randomdata_results`, with its question. */
  datatype SavedResult = SavedResult(question: nat, row: ResultRow)

  predicate SavedId(defs: Entries<string, Definition>, d: nat)
  {
    exists i :: 0 <= i < |defs| && defs[i].1.id == Some(d)
  }

  function FilterResults(rs: seq<SavedResult>, q: nat): (r: seq<SavedResult>)
    ensures forall x :: x in r <==> x in rs && x.question != q
  {
    if rs == [] then []
    else
      assert forall x :: x in rs <==> x == rs[0] || x in rs[1..];
      (if rs[0].question != q then [rs[0]] else []) + FilterResults(rs[1..], q)
  }

  /** The delete branch: the definitions whose count equals `maxnumber`
      drop to 0, every item of every saved definition goes, and so do the
      question's results (the loop deletes them once per definition, so
      not at all when there is none). The amount selected for deletion
      is not used. */
  function DeleteGenerated(defs: Entries<string, Definition>, maxnumber: int, items: seq<Item>,
                           results: seq<SavedResult>, q: nat): (Entries<string, Definition>, seq<Item>, seq<SavedResult>)
  {
    (seq(|defs|, i requires 0 <= i < |defs| =>
       (defs[i].0, if defs[i].1.itemcount == maxnumber then defs[i].1.(itemcount := 0) else defs[i].1)),
     FilterItems(items, (it: Item) => !SavedId(defs, it.definition)),
     if defs == [] then results else FilterResults(results, q))
  }

  /** What deletion keeps: a definition's count is reset exactly when it
      equals `maxnumber`; an item survives exactly when no saved
      definition owns it; a result survives exactly when it belongs to
      another question or there is no definition. */
  lemma DeleteGeneratedSpec(defs: Entries<string, Definition>, maxnumber: int, items: seq<Item>,
                            results: seq<SavedResult>, q: nat)
    ensures var (defs', items', results') := DeleteGenerated(defs, maxnumber, items, results, q);
            |defs'| == |defs| &&
            (forall i :: 0 <= i < |defs| ==>
               defs'[i].0 == defs[i].0 &&
               defs'[i].1.itemcount == (if defs[i].1.itemcount == maxnumber then 0 else defs[i].1.itemcount) &&
               defs'[i].1 == defs[i].1.(itemcount := defs'[i].1.itemcount)) &&
            (forall it :: it in items' <==> it in items && !SavedId(defs, it.definition)) &&
            (forall x :: x in results' <==> x in results && (defs == [] || x.question != q))
  {
  }

  /** With item counts that are not negative, deletion leaves at least one
      definition whose count is 0. */
  lemma DeleteResetsSmallest(defs: Entries<string, Definition>, items: seq<Item>, results: seq<SavedResult>, q: nat)
    requires defs != [] && forall i :: 0 <= i < |defs| ==> defs[i].1.itemcount >= 0
    ensures var defs' := DeleteGenerated(defs, MaxNumberOf(defs), items, results, q).0;
            exists i :: 0 <= i < |defs'| && defs'[i].1.itemcount == 0
  {
    MaxNumberIsSmallest(defs);
    var i :| 0 <= i < |defs| && defs[i].1.itemcount == MaxNumberOf(defs);
    assert DeleteGenerated(defs, MaxNumberOf(defs), items, results, q).0[i].1.itemcount == 0;
  }
}
