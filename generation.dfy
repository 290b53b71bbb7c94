/** `generate_data_with_distribution` on the question's definitions: each
    distribution draws every definition in turn, and the validation sees the
    dataset those values make. */
module Generation {
  import opened Wrappers
  import opened Assoc
  import opened Substitution
  import opened Constraints
  import opened Definitions
  import opened Generator
  import opened Attempts

  /** The draw of every definition under one distribution. */
  function Drawer(src: Sampler, kind: Kind, defs: Entries<string, Definition>, draws: seq<real>): Draw<GenError>
  {
    (p: nat) => DrawAll(src, kind, defs, draws, p)
  }

  /** The validation of the dataset the values make; an answer the validation cannot
      use aborts the generation. */
  function Validator(check: Dataset -> Result<bool, Answer>, defs: Entries<string, Definition>): Verdict<GenError>
  {
    (values: seq<Num>) =>
      match check(SlotDataset(defs, values))
      case Failure(a) => Failure(CheckAborted(a))
      case Success(rejected) => Success(rejected)
  }

  function ForDefinitions(src: Sampler, defs: Entries<string, Definition>, draws: seq<real>): Distributions<GenError>
  {
    Distributions(Drawer(src, UniformKind, defs, draws), Drawer(src, LogUniformKind, defs, draws),
                  Drawer(src, NormalKind, defs, draws), Drawer(src, TriangleKind, defs, draws))
  }

  /** The rows of every slot. */
  function Rows(src: Sampler, check: Dataset -> Result<bool, Answer>, defs: Entries<string, Definition>,
                draws: seq<real>): RowDraw<GenError>
  {
    (p: nat) => SlotRow(ForDefinitions(src, defs, draws), Validator(check, defs), |defs|, p)
  }

  /** The tables of `count` slots of a question: every definition drawn
      anew for each slot and distribution, checked by `check`. */
  function Generate(src: Sampler, check: Dataset -> Result<bool, Answer>, defs: Entries<string, Definition>,
                    draws: seq<real>, count: nat): Result<(Tables, nat), GenError>
  {
    Slots(Rows(src, check, defs, draws), 0, count)
  }

  /** `generate_data_with_distribution`: the tables of `selectadd` slots. */
  method GenerateWithDistribution(src: Sampler, check: Dataset -> Result<bool, Answer>, defs: Entries<string, Definition>,
                                  draws: seq<real>, selectadd: int) returns (r: Result<Tables, GenError>)
    ensures match Generate(src, check, defs, draws, if selectadd < 0 then 0 else selectadd)
            case Failure(e) => r == Failure(e)
            case Success((t, _)) => r == Success(t)
  {
    r := GenerateSlots(ForDefinitions(src, defs, draws), Validator(check, defs), |defs|, Rows(src, check, defs, draws),
                       selectadd);
  }

  // ---------------------------------------------------------------------
  // What the tables hold

  /** A slot's values for one distribution: one per definition, and either
      accepted by the validation or NaN throughout. */
  predicate SlotSound(check: Dataset -> Result<bool, Answer>, defs: Entries<string, Definition>, values: seq<Num>)
  {
    |values| == |defs| &&
    (values == NaNs(|defs|) || check(SlotDataset(defs, values)) == Success(false))
  }

  function Sound(check: Dataset -> Result<bool, Answer>, defs: Entries<string, Definition>): seq<Num> -> bool
  {
    (values: seq<Num>) => SlotSound(check, defs, values)
  }

  /** A slot of one distribution is sound. */
  lemma SlotIsSound(src: Sampler, check: Dataset -> Result<bool, Answer>, kind: Kind, defs: Entries<string, Definition>,
                    draws: seq<real>, pos: nat)
    requires Retry(Drawer(src, kind, defs, draws), Validator(check, defs), |defs|, pos, 1).Success?
    ensures SlotSound(check, defs, Retry(Drawer(src, kind, defs, draws), Validator(check, defs), |defs|, pos, 1).value.values)
  {
    var draw := Drawer(src, kind, defs, draws);
    var verdict := Validator(check, defs);
    RetrySound(draw, verdict, |defs|, pos, 1);
    var o := Retry(draw, verdict, |defs|, pos, 1).value;
    if o.accepted {
      var p: nat :| draw(p) == Success((o.values, o.next));
      assert DrawAll(src, kind, defs, draws, p) == Success((o.values, o.next));
    }
  }

  /** Every row of the question is sound. */
  lemma SlotRowSound(src: Sampler, check: Dataset -> Result<bool, Answer>, defs: Entries<string, Definition>,
                     draws: seq<real>, pos: nat)
    requires SlotRow(ForDefinitions(src, defs, draws), Validator(check, defs), |defs|, pos).Success?
    ensures RowOk(Sound(check, defs), SlotRow(ForDefinitions(src, defs, draws), Validator(check, defs), |defs|, pos).value.0)
  {
    var ds := ForDefinitions(src, defs, draws);
    var verdict := Validator(check, defs);
    var u := Retry(ds.uniform, verdict, |defs|, pos, 1).value;
    var l := Retry(ds.loguniform, verdict, |defs|, u.next, 1).value;
    var n := Retry(ds.normal, verdict, |defs|, l.next, 1).value;
    SlotIsSound(src, check, UniformKind, defs, draws, pos);
    SlotIsSound(src, check, LogUniformKind, defs, draws, u.next);
    SlotIsSound(src, check, NormalKind, defs, draws, l.next);
    SlotIsSound(src, check, TriangleKind, defs, draws, n.next);
  }

  /** Every generated table has one row per slot, and every row is an
      accepted assignment or all NaN. */
  lemma GenerateSound(src: Sampler, check: Dataset -> Result<bool, Answer>, defs: Entries<string, Definition>,
                      draws: seq<real>, count: nat)
    requires Generate(src, check, defs, draws, count).Success?
    ensures var t := Generate(src, check, defs, draws, count).value.0;
            var ok := Sound(check, defs);
            |t.uniform| == count && |t.loguniform| == count && |t.normal| == count && |t.triangle| == count &&
            TableOk(ok, t.uniform) && TableOk(ok, t.loguniform) && TableOk(ok, t.normal) && TableOk(ok, t.triangle)
  {
    var rows := Rows(src, check, defs, draws);
    forall p: nat | rows(p).Success?
      ensures RowOk(Sound(check, defs), rows(p).value.0)
    {
      SlotRowSound(src, check, defs, draws, p);
    }
    SlotsSound(Sound(check, defs), rows, 0, count);
  }

  /** With the question's rules as the validation, every value set kept in a
      table that is not NaN is one every rule accepts. */
  lemma AcceptedByEveryRule(host: Host, rules: seq<Rule>, defs: Entries<string, Definition>, values: seq<Num>)
    requires SlotSound(RuleCheck(host, rules), defs, values) && values != NaNs(|defs|)
    ensures forall i :: 0 <= i < |rules| ==> RuleRejects(host, rules[i], SlotDataset(defs, values)) == Success(false)
  {
    var ds := SlotDataset(defs, values);
    CombineAccepts(Verdicts(host, rules, ds));
  }
}
