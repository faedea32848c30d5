/** Gandi: one TXT rrset, replaced as a whole. */
module Gandi {
  import opened DnsText
  import opened RecordSets

  const CHALLENGE_TTL := 300

  const API: Api<string, string> := Api((x, v) => Content(x) == v, v => v, x => x)

  /** Published values carry no quotes of their own. */
  predicate Bare(values: set<string>) {
    forall v :: v in values ==> Content(v) == v
  }

  lemma {:induction false} ApiIsSane(ours: set<string>)
    requires Bare(ours)
    ensures Sane(API, ours)
  {
  }

  lemma {:induction false} NothingToFill(xs: seq<string>)
    ensures Filled(API, xs) == xs
  {
  }

  /** The rrset: an absent one has no values and no TTL. */
  datatype RRSet = RRSet(ttl: int, values: seq<string>)

  function Floored(ttl: int): int {
    if ttl < CHALLENGE_TTL then CHALLENGE_TTL else ttl
  }

  function Next(rr: RRSet, op: Op<string>): RRSet {
    if !op.applied then rr
    else if op.Present? then RRSet(Floored(rr.ttl), Added(API, rr.values, op.value))
    else if Find(API, rr.values, op.value) < 0 then rr
    else
      var remaining := Dropped(API, rr.values, op.value);
      if remaining == [] then RRSet(0, []) else RRSet(Floored(rr.ttl), remaining)
  }

  function Run(rr: RRSet, ops: seq<Op<string>>): RRSet {
    if ops == [] then rr else Next(Run(rr, ops[..|ops| - 1]), ops[|ops| - 1])
  }

  class Zone {
    var rr: RRSet

    constructor (rr: RRSet)
      ensures this.rr == rr
    {
      this.rr := rr;
    }

    /** A cleanup comes back whenever anything may have been created. */
    method Publish(value: string, outcome: Outcome) returns (ok: bool, cleanup: bool)
      modifies this
      ensures rr == Next(old(rr), Op.Present(value, Took(outcome)))
      ensures ok <==> outcome.Applied?
      ensures cleanup <==> !outcome.ReadFailed?
    {
      if outcome.ReadFailed? {
        return false, false;
      }
      var values := rr.values;
      var at := IndexOf(API, values, value);
      if at < 0 {
        values := values + [value];
      }
      if Took(outcome) {
        rr := RRSet(Floored(rr.ttl), values);
      }
      return outcome.Applied?, true;
    }

    /** Withdraws the captured value and no other; an absent one issues no write. */
    method Withdraw(value: string, outcome: Outcome) returns (ok: bool)
      modifies this
      ensures rr == Next(old(rr), Op.Cleanup(value, Took(outcome)))
      ensures ok <==> !outcome.ReadFailed? && (!Holds(API, old(rr).values, value) || outcome.Applied?)
    {
      if outcome.ReadFailed? {
        return false;
      }
      var at := IndexOf(API, rr.values, value);
      if at < 0 {
        return true;
      }
      var remaining := rr.values[..at] + rr.values[at + 1..];
      if Took(outcome) {
        rr := if remaining == [] then RRSet(0, []) else RRSet(Floored(rr.ttl), remaining);
      }
      return outcome.Applied?;
    }
  }

  /** The rrset's values follow the whole-set discipline. */
  lemma {:induction false} RunIsExec(rr: RRSet, ops: seq<Op<string>>)
    ensures Run(rr, ops).values == Exec(API, rr.values, ops)
    decreases |ops|
  {
    if ops != [] {
      var front, last := ops[..|ops| - 1], ops[|ops| - 1];
      RunIsExec(rr, front);
      NothingToFill(Added(API, Run(rr, front).values, last.value));
      NothingToFill(Dropped(API, Run(rr, front).values, last.value));
    }
  }

  /** Over any run, every value that is not one of ours stays byte for byte and in
      order. */
  lemma {:induction false} ForeignValuesStay(rr: RRSet, ops: seq<Op<string>>, ours: set<string>)
    requires Bare(ours) && Ours(ops, ours)
    ensures Foreign(API, ours, Run(rr, ops).values) == Foreign(API, ours, rr.values)
  {
    ApiIsSane(ours);
    RunIsExec(rr, ops);
    RunKeepsForeign(API, ours, rr.values, ops);
    NothingToFill(Foreign(API, ours, rr.values));
  }

  /** While a foreign value is there the rrset is never deleted, so its TTL moves at
      most up to the floor. */
  lemma {:induction false} TtlStays(rr: RRSet, ops: seq<Op<string>>, ours: set<string>)
    requires Bare(ours) && Ours(ops, ours) && Foreign(API, ours, rr.values) != []
    ensures Run(rr, ops).ttl == rr.ttl || Run(rr, ops).ttl == Floored(rr.ttl)
    decreases |ops|
  {
    if ops != [] {
      TtlStays(rr, ops[..|ops| - 1], ours);
      ForeignValuesStay(rr, ops, ours);
      assert Run(rr, ops).values != [];
    }
  }

  lemma {:induction false} EmptyHasNoTtl(rr: RRSet, ops: seq<Op<string>>)
    requires rr.values == [] ==> rr.ttl == 0
    ensures Run(rr, ops).values == [] ==> Run(rr, ops).ttl == 0
    decreases |ops|
  {
    if ops != [] {
      EmptyHasNoTtl(rr, ops[..|ops| - 1]);
    }
  }

  /** Once every cleanup has applied the rrset is back: absent if it was absent, and
      otherwise with its own values and a TTL raised at most to the floor. */
  lemma {:induction false} CleanupsRestoreRRSet(rr: RRSet, ops: seq<Op<string>>, ours: set<string>)
    requires Bare(ours) && Ours(ops, ours) && (rr.values == [] ==> rr.ttl == 0)
    requires forall v :: v in ours ==> !Holds(API, rr.values, v) && Settled(ops, v)
    ensures Run(rr, ops).values == rr.values
    ensures rr.values == [] || rr.ttl >= CHALLENGE_TTL ==> Run(rr, ops) == rr
    ensures Run(rr, ops).ttl == rr.ttl || Run(rr, ops).ttl == Floored(rr.ttl)
  {
    ApiIsSane(ours);
    RunIsExec(rr, ops);
    CleanupsRestore(API, ours, rr.values, ops);
    NothingToFill(rr.values);
    EmptyHasNoTtl(rr, ops);
    AllForeign(API, ours, rr.values);
    if rr.values != [] {
      TtlStays(rr, ops, ours);
    }
  }

  /** A publish and its cleanup leave the rrset as it was exactly when it held no value
      of the same content and its TTL met the floor or it was absent. In particular a
      value this process never published can be the one removed. */
  lemma {:induction false} RestoresExactlyIff(rr: RRSet, v: string)
    requires Content(v) == v && (rr.values == [] ==> rr.ttl == 0)
    ensures Run(rr, [Present(v, true), Cleanup(v, true)]) == rr <==>
            !Holds(API, rr.values, v) && (rr.values == [] || rr.ttl >= CHALLENGE_TTL)
  {
    PublishThenCleanup(rr, v);
    AddThenDrop(rr.values, v);
    AddedIsFound(rr.values, v);
  }

  /** The rrset between and after the two calls. */
  lemma {:induction false} PublishThenCleanup(rr: RRSet, v: string)
    ensures Run(rr, [Present(v, true), Cleanup(v, true)])
         == Next(RRSet(Floored(rr.ttl), Added(API, rr.values, v)), Cleanup(v, true))
  {
    var ops := [Present(v, true), Cleanup(v, true)];
    assert ops[..1] == [Present(v, true)] && ops[..1][..0] == [];
    assert Run(rr, ops[..1]) == Next(rr, ops[0]);
  }

  /** On values, dropping what was added restores exactly when nothing was there. */
  lemma {:induction false} AddThenDrop(values: seq<string>, v: string)
    requires Content(v) == v
    ensures Dropped(API, Added(API, values, v), v) == values <==> !Holds(API, values, v)
  {
    ApiIsSane({v});
    RestoresIff(API, values, v);
    NothingToFill(values);
    NothingToFill(Added(API, values, v));
    NothingToFill(Dropped(API, Added(API, values, v), v));
  }

  lemma {:induction false} AddedIsFound(values: seq<string>, v: string)
    requires Content(v) == v
    ensures Holds(API, Added(API, values, v), v)
  {
    if Find(API, values, v) < 0 {
      assert FoundAt(API, values + [v], v, |values|);
    }
  }

  /** The quoted value was there before; publishing and cleaning up removes it. */
  lemma {:induction false} RemovesAnEqualForeignValue()
    ensures var rr := RRSet(300, ["\"tok\"", "other"]);
            Run(rr, [Present("tok", true), Cleanup("tok", true)]) == RRSet(300, ["other"])
  {
    var rr := RRSet(300, ["\"tok\"", "other"]);
    FirstIsTok();
    PublishThenCleanup(rr, "tok");
    assert Added(API, rr.values, "tok") == rr.values;
    assert Dropped(API, rr.values, "tok") == ["other"];
  }

  lemma {:induction false} FirstIsTok()
    ensures Find(API, ["\"tok\"", "other"], "tok") == 0
  {
    assert Content("\"tok\"") == "tok";
    assert FoundAt(API, ["\"tok\"", "other"], "tok", 0);
  }
}
