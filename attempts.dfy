/** The loops of `generate_data_with_distribution` that do not depend on
    how a value is drawn: up to 30 attempts per slot and distribution, the
    four distributions of a slot in turn, and the slots one after another.
    An attempt's draw and its check are parameters; a failure of either
    (type `E`) ends the generation. */
module Attempts {
  import opened Wrappers
  import opened Substitution

  /** Attempts per slot and distribution. */
  const MaxAttempts: nat := 30

  function NaNs(n: nat): (r: seq<Num>)
    ensures |r| == n && forall k :: 0 <= k < n ==> r[k] == NaN
  {
    seq(n, _ => NaN)
  }

  /** One attempt's draw: the values of every definition from a draw
      position, and the position after them. */
  type Draw<E> = nat -> Result<(seq<Num>, nat), E>

  /** The validation of one attempt's values: `Success(true)` asks again. */
  type Verdict<E> = seq<Num> -> Result<bool, E>

  /** How a slot ends: its values, the next unused draw, the attempts
      made, and whether an assignment was accepted. */
  datatype SlotOutcome = SlotOutcome(values: seq<Num>, next: nat, attempts: nat, accepted: bool)

  /** Attempt `attempt` and the ones after it: draw, check, and stop on the
      first accepted assignment or after the last attempt, with `width`
      NaNs in place of a rejected one. */
  function Retry<E>(draw: Draw<E>, verdict: Verdict<E>, width: nat, pos: nat, attempt: nat): (r: Result<SlotOutcome, E>)
    requires 1 <= attempt <= MaxAttempts
    ensures r.Success? ==> attempt <= r.value.attempts <= MaxAttempts
    ensures r.Success? && !r.value.accepted ==> r.value.attempts == MaxAttempts && r.value.values == NaNs(width)
    decreases MaxAttempts - attempt
  {
    match draw(pos)
    case Failure(e) => Failure(e)
    case Success((values, next)) =>
      match verdict(values)
      case Failure(e) => Failure(e)
      case Success(rejected) =>
        if !rejected then Success(SlotOutcome(values, next, attempt, true))
        else if attempt < MaxAttempts then Retry(draw, verdict, width, next, attempt + 1)
        else Success(SlotOutcome(NaNs(width), next, attempt, false))
  }

  /** An accepted assignment is one that an attempt drew and the validation
      accepted. */
  lemma {:induction false} RetrySound<E>(draw: Draw<E>, verdict: Verdict<E>, width: nat, pos: nat, attempt: nat)
    requires 1 <= attempt <= MaxAttempts
    requires Retry(draw, verdict, width, pos, attempt).Success?
    ensures var o := Retry(draw, verdict, width, pos, attempt).value;
            o.accepted ==> verdict(o.values) == Success(false) &&
                           exists p: nat :: draw(p) == Success((o.values, o.next))
    decreases MaxAttempts - attempt
  {
    var (values, next) := draw(pos).value;
    if verdict(values) == Success(true) && attempt < MaxAttempts {
      RetrySound(draw, verdict, width, next, attempt + 1);
    }
  }

  /** The `do ... while ($rejected && $attempts < 30)` loop of one slot
      and distribution, followed by the NaN fill. */
  method GenerateSlot<E>(draw: Draw<E>, verdict: Verdict<E>, width: nat, pos: nat) returns (r: Result<SlotOutcome, E>)
    ensures r == Retry(draw, verdict, width, pos, 1)
  {
    var attempts := 0;
    var rejected := true;
    var values: seq<Num> := [];
    var p := pos;
    while rejected && attempts < MaxAttempts
      invariant 0 <= attempts <= MaxAttempts
      invariant attempts == 0 ==> rejected && p == pos
      invariant rejected && attempts < MaxAttempts ==>
                  Retry(draw, verdict, width, pos, 1) == Retry(draw, verdict, width, p, attempts + 1)
      invariant !rejected ==> Retry(draw, verdict, width, pos, 1) == Success(SlotOutcome(values, p, attempts, true))
      invariant rejected && attempts == MaxAttempts ==>
                  Retry(draw, verdict, width, pos, 1) == Success(SlotOutcome(NaNs(width), p, attempts, false))
      decreases MaxAttempts - attempts
    {
      attempts := attempts + 1;
      var drawn := draw(p);
      if drawn.Failure? {
        return Failure(drawn.error);
      }
      var v := verdict(drawn.value.0);
      if v.Failure? {
        return Failure(v.error);
      }
      rejected := v.value;
      values := drawn.value.0;
      p := drawn.value.1;
    }
    if rejected {
      values := NaNs(width);
    }
    return Success(SlotOutcome(values, p, attempts, !rejected));
  }

  /** The first accepted assignment is kept as drawn. */
  lemma FirstAcceptedKept<E>(draw: Draw<E>, verdict: Verdict<E>, width: nat, pos: nat, attempt: nat)
    requires 1 <= attempt <= MaxAttempts
    requires draw(pos).Success? && verdict(draw(pos).value.0) == Success(false)
    ensures Retry(draw, verdict, width, pos, attempt) ==
              Success(SlotOutcome(draw(pos).value.0, draw(pos).value.1, attempt, true))
  {
  }

  /** Rejections up to the last attempt leave the slot NaN. */
  lemma {:induction false} AlwaysRejectedIsNaN<E>(draw: Draw<E>, verdict: Verdict<E>, width: nat, pos: nat, attempt: nat)
    requires 1 <= attempt <= MaxAttempts
    requires forall p: nat :: draw(p).Success? && verdict(draw(p).value.0) == Success(true)
    ensures var r := Retry(draw, verdict, width, pos, attempt);
            r.Success? && r.value.values == NaNs(width) && r.value.attempts == MaxAttempts && !r.value.accepted
    decreases MaxAttempts - attempt
  {
    if attempt < MaxAttempts {
      AlwaysRejectedIsNaN(draw, verdict, width, draw(pos).value.1, attempt + 1);
    }
  }

  // ---------------------------------------------------------------------
  // The four distributions of a slot

  /** The draws of an attempt under each of the four distributions. */
  datatype Distributions<E> = Distributions(uniform: Draw<E>, loguniform: Draw<E>, normal: Draw<E>, triangle: Draw<E>)

  /** The four outcomes of one slot. */
  datatype Row = Row(uniform: SlotOutcome, loguniform: SlotOutcome, normal: SlotOutcome, triangle: SlotOutcome)

  /** The four distributions of one slot, in the source's order, sharing
      the draws. */
  function SlotRow<E>(ds: Distributions<E>, verdict: Verdict<E>, width: nat, pos: nat): Result<(Row, nat), E>
  {
    match Retry(ds.uniform, verdict, width, pos, 1)
    case Failure(e) => Failure(e)
    case Success(u) =>
      match Retry(ds.loguniform, verdict, width, u.next, 1)
      case Failure(e) => Failure(e)
      case Success(l) =>
        match Retry(ds.normal, verdict, width, l.next, 1)
        case Failure(e) => Failure(e)
        case Success(n) =>
          match Retry(ds.triangle, verdict, width, n.next, 1)
          case Failure(e) => Failure(e)
          case Success(t) => Success((Row(u, l, n, t), t.next))
  }

  /** The four distributions of one slot, one retry loop after the other. */
  method GenerateRow<E>(ds: Distributions<E>, verdict: Verdict<E>, width: nat, pos: nat) returns (r: Result<(Row, nat), E>)
    ensures r == SlotRow(ds, verdict, width, pos)
  {
    var u := GenerateSlot(ds.uniform, verdict, width, pos);
    if u.Failure? {
      return Failure(u.error);
    }
    var l := GenerateSlot(ds.loguniform, verdict, width, u.value.next);
    if l.Failure? {
      return Failure(l.error);
    }
    var n := GenerateSlot(ds.normal, verdict, width, l.value.next);
    if n.Failure? {
      return Failure(n.error);
    }
    var t := GenerateSlot(ds.triangle, verdict, width, n.value.next);
    if t.Failure? {
      return Failure(t.error);
    }
    return Success((Row(u.value, l.value, n.value, t.value), t.value.next));
  }

  // ---------------------------------------------------------------------
  // All slots

  /** The four tables, slot by slot; `uniform[j][k]` is the value of
      definition `k` in slot `j + 1`. */
  datatype Tables = Tables(uniform: seq<seq<Num>>, loguniform: seq<seq<Num>>, normal: seq<seq<Num>>,
                           triangle: seq<seq<Num>>)

  /** One slot's row from a draw position, and the position after it. */
  type RowDraw<E> = nat -> Result<(Row, nat), E>

  /** A row before the tables of the later slots. */
  function AddRow(row: Row, t: Tables): Tables
  {
    Tables([row.uniform.values] + t.uniform, [row.loguniform.values] + t.loguniform,
           [row.normal.values] + t.normal, [row.triangle.values] + t.triangle)
  }

  /** `count` slots from draw `pos` on. */
  function Slots<E>(rows: RowDraw<E>, pos: nat, count: nat): (r: Result<(Tables, nat), E>)
    decreases count
  {
    if count == 0 then Success((Tables([], [], [], []), pos))
    else
      match rows(pos)
      case Failure(e) => Failure(e)
      case Success((row, next)) =>
        match Slots(rows, next, count - 1)
        case Failure(e) => Failure(e)
        case Success((t, last)) => Success((AddRow(row, t), last))
  }

  /** Tables of the earlier slots before an outcome. */
  function Before<E>(t: Tables, r: Result<(Tables, nat), E>): Result<(Tables, nat), E>
  {
    match r
    case Failure(e) => Failure(e)
    case Success((u, last)) =>
      Success((Tables(t.uniform + u.uniform, t.loguniform + u.loguniform, t.normal + u.normal,
                      t.triangle + u.triangle), last))
  }

  /** The tables with one more slot at the end. */
  function Append(t: Tables, row: Row): (r: Tables)
    ensures r.uniform == t.uniform + [row.uniform.values] && r.loguniform == t.loguniform + [row.loguniform.values]
    ensures r.normal == t.normal + [row.normal.values] && r.triangle == t.triangle + [row.triangle.values]
  {
    Tables(t.uniform + [row.uniform.values], t.loguniform + [row.loguniform.values],
           t.normal + [row.normal.values], t.triangle + [row.triangle.values])
  }

  /** Moving one slot from the slots still to come to the tables so far. */
  lemma BeforeStep<E>(rows: RowDraw<E>, tables: Tables, pos: nat, count: nat, row: Row, next: nat)
    requires count > 0 && rows(pos) == Success((row, next))
    ensures Before(tables, Slots(rows, pos, count)) == Before(Append(tables, row), Slots(rows, next, count - 1))
  {
    match Slots(rows, next, count - 1) {
      case Failure(_) =>
      case Success((later, _)) =>
        assert tables.uniform + ([row.uniform.values] + later.uniform) ==
               (tables.uniform + [row.uniform.values]) + later.uniform;
        assert tables.loguniform + ([row.loguniform.values] + later.loguniform) ==
               (tables.loguniform + [row.loguniform.values]) + later.loguniform;
        assert tables.normal + ([row.normal.values] + later.normal) ==
               (tables.normal + [row.normal.values]) + later.normal;
        assert tables.triangle + ([row.triangle.values] + later.triangle) ==
               (tables.triangle + [row.triangle.values]) + later.triangle;
    }
  }

  /** No slots so far leave an outcome as it is. */
  lemma BeforeEmpty<E>(r: Result<(Tables, nat), E>)
    ensures Before(Tables([], [], [], []), r) == r
  {
    match r {
      case Failure(_) =>
      case Success((u, _)) =>
        assert [] + u.uniform == u.uniform && [] + u.loguniform == u.loguniform;
        assert [] + u.normal == u.normal && [] + u.triangle == u.triangle;
    }
  }

  /** The outer `for ($i = 1; $i <= $selectadd; $i++)` loop. */
  method GenerateSlots<E>(ds: Distributions<E>, verdict: Verdict<E>, width: nat, ghost rows: RowDraw<E>, selectadd: int)
    returns (r: Result<Tables, E>)
    requires forall p: nat :: rows(p) == SlotRow(ds, verdict, width, p)
    ensures var count := if selectadd < 0 then 0 else selectadd;
            match Slots(rows, 0, count)
            case Failure(e) => r == Failure(e)
            case Success((t, _)) => r == Success(t)
  {
    var left: nat := if selectadd < 0 then 0 else selectadd;
    var tables := Tables([], [], [], []);
    var p: nat := 0;
    ghost var goal := Slots(rows, 0, left);
    BeforeEmpty(goal);
    while left > 0
      invariant goal == Before(tables, Slots(rows, p, left))
    {
      var slot := GenerateRow(ds, verdict, width, p);
      if slot.Failure? {
        return Failure(slot.error);
      }
      var (row, q) := slot.value;
      BeforeStep(rows, tables, p, left, row, q);
      tables := Append(tables, row);
      p := q;
      left := left - 1;
    }
    assert tables.uniform + [] == tables.uniform && tables.loguniform + [] == tables.loguniform;
    assert tables.normal + [] == tables.normal && tables.triangle + [] == tables.triangle;
    return Success(tables);
  }

  // ---------------------------------------------------------------------
  // What the tables hold

  predicate RowOk(ok: seq<Num> -> bool, row: Row)
  {
    ok(row.uniform.values) && ok(row.loguniform.values) && ok(row.normal.values) && ok(row.triangle.values)
  }

  predicate TableOk(ok: seq<Num> -> bool, table: seq<seq<Num>>)
  {
    forall j :: 0 <= j < |table| ==> ok(table[j])
  }

  lemma AddRowOk(ok: seq<Num> -> bool, row: Row, t: Tables)
    requires RowOk(ok, row)
    requires TableOk(ok, t.uniform) && TableOk(ok, t.loguniform) && TableOk(ok, t.normal) && TableOk(ok, t.triangle)
    ensures var u := AddRow(row, t);
            |u.uniform| == |t.uniform| + 1 && |u.loguniform| == |t.loguniform| + 1 &&
            |u.normal| == |t.normal| + 1 && |u.triangle| == |t.triangle| + 1 &&
            TableOk(ok, u.uniform) && TableOk(ok, u.loguniform) && TableOk(ok, u.normal) && TableOk(ok, u.triangle)
  {
    assert forall j :: 0 < j <= |t.uniform| ==> ([row.uniform.values] + t.uniform)[j] == t.uniform[j - 1];
    assert forall j :: 0 < j <= |t.loguniform| ==> ([row.loguniform.values] + t.loguniform)[j] == t.loguniform[j - 1];
    assert forall j :: 0 < j <= |t.normal| ==> ([row.normal.values] + t.normal)[j] == t.normal[j - 1];
    assert forall j :: 0 < j <= |t.triangle| ==> ([row.triangle.values] + t.triangle)[j] == t.triangle[j - 1];
  }

  /** Tables built from rows that satisfy `ok` have one row per slot, and
      every row satisfies `ok`. */
  lemma {:induction false} SlotsSound<E>(ok: seq<Num> -> bool, rows: RowDraw<E>, pos: nat, count: nat)
    requires forall p: nat :: rows(p).Success? ==> RowOk(ok, rows(p).value.0)
    requires Slots(rows, pos, count).Success?
    ensures var t := Slots(rows, pos, count).value.0;
            |t.uniform| == count && |t.loguniform| == count && |t.normal| == count && |t.triangle| == count &&
            TableOk(ok, t.uniform) && TableOk(ok, t.loguniform) && TableOk(ok, t.normal) && TableOk(ok, t.triangle)
    decreases count
  {
    if count > 0 {
      var (row, next) := rows(pos).value;
      SlotsSound(ok, rows, next, count - 1);
      AddRowOk(ok, row, Slots(rows, next, count - 1).value.0);
    }
  }
}
