/** The failover store: requests that degrade to memory when the primary is out, and
    the reprobe loop that switches back. */
module Failover {
  import opened Common
  import opened CounterStore

  const DEFAULT_REPROBE := 5 * MINUTE
  const MAX_REPROBE := 60 * MINUTE

  // ---------------------------------------------------------------------
  // Backoff
  // ---------------------------------------------------------------------

  /** WithReprobeInterval: a non-positive value leaves the default. */
  function BaseInterval(configured: int): int {
    if configured > 0 then configured else DEFAULT_REPROBE
  }

  /** Doubled, with the 64-bit overflow of the doubling, and capped. */
  function NextInterval(cur: int, max: int): int {
    var next := Wrap64(cur * 2);
    if next > max || next <= 0 then max else next
  }

  /** The delay the loop holds after a number of failed probes. */
  function Backoff(base: int, fails: nat): int {
    if fails == 0 then base else NextInterval(Backoff(base, fails - 1), MAX_REPROBE)
  }

  function Min(a: int, b: int): int {
    if a <= b then a else b
  }

  /** After the first failure the delay is the base doubled once per failure, capped at
      exactly one hour, with no overflow whatever 64-bit base was configured. */
  lemma {:induction false} BackoffClosedForm(base: int, fails: nat)
    requires 0 < base < MAX_INT64 + 1 && fails > 0
    ensures Backoff(base, fails) == Min(base * Pow2(fails), 60 * MINUTE)
  {
    PositiveProduct(base, fails - 1);
    Doubles(base, fails - 1);
    if fails > 1 {
      BackoffClosedForm(base, fails - 1);
    }
    NextIsCappedDouble(Backoff(base, fails - 1));
  }

  /** Overflow included, a step doubles and caps. */
  lemma {:induction false} NextIsCappedDouble(cur: int)
    requires 0 < cur < MAX_INT64 + 1
    ensures NextInterval(cur, MAX_REPROBE) == Min(2 * cur, MAX_REPROBE)
  {
  }

  lemma {:induction false} Doubles(base: int, n: nat)
    ensures base * Pow2(n + 1) == 2 * (base * Pow2(n))
    ensures base * Pow2(0) == base
  {
  }

  lemma {:induction false} PositiveProduct(base: int, n: nat)
    requires base > 0
    ensures base * Pow2(n) > 0
  {
    assert Pow2(n) > 0 by { Pow2Grows(n); }
  }

  lemma {:induction false} Pow2Grows(n: nat)
    ensures Pow2(n) >= n + 1
  {
    if n > 0 {
      Pow2Grows(n - 1);
    }
  }

  /** The one-hour ceiling holds for every wait exactly when the configured interval
      meets it: the first wait is the base, uncapped. */
  lemma {:induction false} CeilingIff(configured: int)
    requires -MAX_INT64 - 1 <= configured <= MAX_INT64
    ensures AlwaysWithinCeiling(BaseInterval(configured)) <==> configured <= 60 * MINUTE
    ensures configured <= 0 ==> BaseInterval(configured) == 5 * MINUTE
  {
    var base := BaseInterval(configured);
    if base <= MAX_REPROBE {
      forall fails: nat
        ensures Backoff(base, fails) <= MAX_REPROBE
      {
        if fails > 0 {
          BackoffClosedForm(base, fails);
        }
      }
    } else {
      var none: nat := 0;
      assert Backoff(base, none) == base;
    }
  }

  ghost predicate AlwaysWithinCeiling(base: int) {
    forall fails: nat :: Backoff(base, fails) <= 60 * MINUTE
  }

  /** A long outage settles at one probe an hour. */
  lemma {:induction false} SettlesAtOneHour(base: int, fails: nat)
    requires 0 < base < MAX_INT64 + 1 && fails > 0 && Pow2(fails) >= MAX_REPROBE
    ensures Backoff(base, fails) == 60 * MINUTE
  {
    BackoffClosedForm(base, fails);
    assert base * Pow2(fails) >= Pow2(fails) by {
      Scales(base, Pow2(fails));
    }
  }

  lemma {:induction false} Scales(base: int, n: nat)
    requires base >= 1
    ensures base * n >= n
  {
    assert base * n == n + (base - 1) * n;
  }

  // ---------------------------------------------------------------------
  // The interleaved store
  // ---------------------------------------------------------------------

  /** Where a request stands: it has not read the flag, it is at the primary, the
      primary was unavailable, it won the flag and has yet to signal, it is to be
      answered from memory, or it is answered. */
  datatype Request = Entered | AtPrimary | Unanswered | Signalling | AtFallback | Answered

  /** Where the reprobe loop stands. `held` remembers that the loop was stopped in the
      middle of an outage. */
  datatype Prober =
    | Waiting
    | LoopHead(interval: int, fails: nat)
    | Timing(interval: int, fails: nat)
    | Probing(interval: int, fails: nat)
    | Recovered
    | Stopped(held: bool)

  /** `failovers`, `wakeups` and `recoveries` count won flag swaps, signals received
      and flags cleared; `dropped` counts signals that found the slot full. */
  datatype State = State(
    degraded: bool, slot: bool, prober: Prober, requests: map<nat, Request>, closed: bool,
    failovers: nat, wakeups: nat, recoveries: nat, dropped: nat)

  datatype Event =
    | Enter(r: nat)
    | LoadFlag(r: nat)
    | PrimaryAnswers(r: nat)
    | PrimaryOut(r: nat)
    | Swap(r: nat)
    | Signal(r: nat)
    | FallbackAnswers(r: nat)
    | Close
    | Receive
    | LoadInLoop
    | TimerFires
    | ProbeFails
    | ProbeSucceeds
    | ClearFlag
    | Stop

  function Init(): State {
    State(false, false, Waiting, map[], false, 0, 0, 0, 0)
  }

  predicate At(s: State, r: nat, where: Request) {
    r in s.requests && s.requests[r] == where
  }

  function Moved(s: State, r: nat, where: Request): State {
    s.(requests := s.requests[r := where])
  }

  predicate Enabled(s: State, e: Event) {
    match e
    case Enter(r) => r !in s.requests
    case LoadFlag(r) => At(s, r, Entered)
    case PrimaryAnswers(r) => At(s, r, AtPrimary)
    case PrimaryOut(r) => At(s, r, AtPrimary)
    case Swap(r) => At(s, r, Unanswered)
    case Signal(r) => At(s, r, Signalling)
    case FallbackAnswers(r) => At(s, r, AtFallback)
    case Close => true
    case Receive => s.prober.Waiting? && s.slot
    case LoadInLoop => s.prober.LoopHead?
    case TimerFires => s.prober.Timing?
    case ProbeFails => s.prober.Probing?
    case ProbeSucceeds => s.prober.Probing?
    case ClearFlag => s.prober.Recovered?
    case Stop => s.closed && (s.prober.Waiting? || s.prober.Timing?)
  }

  /** One atomic step; a step that is not enabled changes nothing. */
  function Step(s: State, e: Event, base: int): State {
    if !Enabled(s, e) then s
    else
      match e
      case Enter(r) => Moved(s, r, Entered)
      case LoadFlag(r) => Moved(s, r, if s.degraded then AtFallback else AtPrimary)
      case PrimaryAnswers(r) => Moved(s, r, Answered)
      case PrimaryOut(r) => Moved(s, r, Unanswered)
      case Swap(r) =>
        if s.degraded then Moved(s, r, AtFallback)
        else Moved(s, r, Signalling).(degraded := true, failovers := s.failovers + 1)
      case Signal(r) =>
        Moved(s, r, AtFallback).(slot := true, dropped := if s.slot then s.dropped + 1 else s.dropped)
      case FallbackAnswers(r) => Moved(s, r, Answered)
      case Close => s.(closed := true)
      case Receive => s.(slot := false, prober := LoopHead(base, 0), wakeups := s.wakeups + 1)
      case LoadInLoop =>
        s.(prober := if s.degraded then Timing(s.prober.interval, s.prober.fails) else Waiting)
      case TimerFires => s.(prober := Probing(s.prober.interval, s.prober.fails))
      case ProbeFails =>
        s.(prober := LoopHead(NextInterval(s.prober.interval, MAX_REPROBE), s.prober.fails + 1))
      case ProbeSucceeds => s.(prober := Recovered)
      case ClearFlag => s.(degraded := false, prober := Waiting, recoveries := s.recoveries + 1)
      case Stop => s.(prober := Stopped(s.prober.Timing?))
  }

  function Exec(s: State, es: seq<Event>, base: int): State {
    if es == [] then s else Step(Exec(s, es[..|es| - 1], base), es[|es| - 1], base)
  }

  ghost predicate Signaller(s: State, r: nat) {
    At(s, r, Signalling)
  }

  predicate Busy(p: Prober) {
    p.LoopHead? || p.Timing? || p.Probing? || p.Recovered? || (p.Stopped? && p.held)
  }

  /** Every outage is in exactly one pair of hands: a request that has yet to signal,
      the slot, or the reprobe loop. Outside an outage nobody holds one. */
  ghost predicate OneHolder(s: State) {
    && (forall q, r :: Signaller(s, q) && Signaller(s, r) ==> q == r)
    && (s.slot ==> forall r :: !Signaller(s, r))
    && (Busy(s.prober) ==> !s.slot && forall r :: !Signaller(s, r))
    && (s.degraded <==> s.slot || Busy(s.prober) || exists r :: Signaller(s, r))
  }

  ghost predicate Inv(s: State, base: int) {
    && OneHolder(s)
    && s.dropped == 0
    && s.failovers == s.recoveries + (if s.degraded then 1 else 0)
    && s.wakeups == s.recoveries + (if Busy(s.prober) then 1 else 0)
    && (s.prober.LoopHead? || s.prober.Timing? || s.prober.Probing? ==>
          s.prober.interval == Backoff(base, s.prober.fails))
    && (s.prober.Stopped? ==> s.closed)
  }

  /** The signallers after one request moved. */
  lemma {:induction false} SignallersAfterMove(s: State, r: nat, where: Request)
    ensures forall q :: q != r ==> (Signaller(Moved(s, r, where), q) <==> Signaller(s, q))
    ensures Signaller(Moved(s, r, where), r) <==> where.Signalling?
  {
  }

  lemma {:induction false} StepKeepsInv(s: State, e: Event, base: int)
    requires Inv(s, base)
    ensures Inv(Step(s, e, base), base)
  {
    if Enabled(s, e) {
      var t := Step(s, e, base);
      match e
      case Swap(r) =>
        SwapKeepsInv(s, r, base);
      case Signal(r) =>
        assert Signaller(s, r);
        SignallersAfterMove(s, r, AtFallback);
        assert forall q :: Signaller(t, q) <==> Signaller(Moved(s, r, AtFallback), q);
      case Enter(r) =>
        SameHands(s, r, Entered, base);
      case LoadFlag(r) =>
        SameHands(s, r, if s.degraded then AtFallback else AtPrimary, base);
      case PrimaryAnswers(r) =>
        SameHands(s, r, Answered, base);
      case PrimaryOut(r) =>
        SameHands(s, r, Unanswered, base);
      case FallbackAnswers(r) =>
        SameHands(s, r, Answered, base);
      case _ =>
        assert t.requests == s.requests;
        assert forall q :: Signaller(t, q) <==> Signaller(s, q);
    }
  }

  /** A request that neither starts nor stops signalling leaves the outage where it is. */
  lemma {:induction false} SameHands(s: State, r: nat, where: Request, base: int)
    requires Inv(s, base) && !Signaller(s, r) && !where.Signalling?
    ensures Inv(Moved(s, r, where), base)
  {
    SignallersAfterMove(s, r, where);
    assert forall q :: Signaller(Moved(s, r, where), q) <==> Signaller(s, q);
  }

  lemma {:induction false} SwapKeepsInv(s: State, r: nat, base: int)
    requires Inv(s, base) && At(s, r, Unanswered)
    ensures Inv(Step(s, Swap(r), base), base)
  {
    if s.degraded {
      SameHands(s, r, AtFallback, base);
    } else {
      var t := Step(s, Swap(r), base);
      SignallersAfterMove(s, r, Signalling);
      assert forall q :: Signaller(t, q) <==> Signaller(Moved(s, r, Signalling), q);
      assert Signaller(t, r);
    }
  }

  lemma {:induction false} ExecKeepsInv(es: seq<Event>, base: int)
    ensures Inv(Exec(Init(), es, base), base)
  {
    if es != [] {
      ExecKeepsInv(es[..|es| - 1], base);
      StepKeepsInv(Exec(Init(), es[..|es| - 1], base), es[|es| - 1], base);
    }
  }

  /** Over every interleaving: the store is degraded exactly while one holder has the
      outage, no signal is ever dropped, failovers and recoveries
      differ by one exactly while degraded, each failover wakes the loop at most once,
      and an open store is never degraded with a loop that nothing will wake. */
  lemma {:induction false} NoLostWakeup(es: seq<Event>, base: int)
    ensures var s := Exec(Init(), es, base);
            && OneHolder(s)
            && s.dropped == 0
            && s.failovers == s.recoveries + (if s.degraded then 1 else 0)
            && s.recoveries <= s.wakeups <= s.failovers
            && (s.degraded && s.prober.Waiting? ==> s.slot || exists r :: Signaller(s, r))
            && (s.degraded && !s.closed ==> !s.prober.Stopped?)
  {
    ExecKeepsInv(es, base);
  }

  /** A degraded store sends nobody to the primary; a healthy one sends every request that
      reads the flag there, and to the fallback only those whom the primary failed. */
  lemma {:induction false} Routing(s: State, e: Event, base: int, r: nat)
    ensures s.degraded && At(Step(s, e, base), r, AtPrimary) ==> At(s, r, AtPrimary)
    ensures !s.degraded && At(s, r, Entered) ==> At(Step(s, LoadFlag(r), base), r, AtPrimary)
    ensures !s.degraded && At(Step(s, e, base), r, AtFallback) ==>
              At(s, r, AtFallback) || (e == Signal(r) && At(s, r, Signalling))
    ensures At(Step(s, e, base), r, Answered) && !At(s, r, Answered) ==>
              (e == PrimaryAnswers(r) && At(s, r, AtPrimary)) || (e == FallbackAnswers(r) && At(s, r, AtFallback))
  {
  }

  /** Every wait of every run is the backoff of the failures counted in this outage: it
      starts over at the base after each recovery. */
  lemma {:induction false} WaitsFollowBackoff(es: seq<Event>, base: int)
    ensures var s := Exec(Init(), es, base);
            s.prober.Timing? ==> s.prober.interval == Backoff(base, s.prober.fails)
  {
    ExecKeepsInv(es, base);
  }

  lemma {:induction false} ExecThen(s: State, es: seq<Event>, e: Event, base: int)
    ensures Exec(s, es + [e], base) == Step(Exec(s, es, base), e, base)
  {
    assert (es + [e])[..|es + [e]| - 1] == es;
  }

  lemma {:induction false} ExecAppend(s: State, es: seq<Event>, more: seq<Event>, base: int)
    ensures Exec(s, es + more, base) == Exec(Exec(s, es, base), more, base)
    decreases |more|
  {
    if more == [] {
      assert es + more == es;
    } else {
      var front, last := more[..|more| - 1], more[|more| - 1];
      assert more == front + [last] && es + more == (es + front) + [last];
      ExecAppend(s, es, front, base);
      ExecThen(s, es + front, last, base);
      ExecThen(Exec(s, es, base), front, last, base);
    }
  }

  /** The steps that end an outage once the primary answers a probe. */
  predicate Finishing(es: seq<Event>) {
    |es| <= 6 &&
    forall e :: e in es ==>
      e.Signal? || e == Receive || e == LoadInLoop || e == TimerFires || e == ProbeSucceeds || e == ClearFlag
  }

  /** From every reachable degraded state of an open store, at most six steps of the
      request that degraded it and of the loop bring the store back, with no further
      request needed. */
  lemma {:induction false} RecoveryIsReachable(es: seq<Event>, base: int) returns (more: seq<Event>)
    requires var s := Exec(Init(), es, base); s.degraded && !s.closed
    ensures Finishing(more) && !Exec(Init(), es + more, base).degraded
  {
    ExecKeepsInv(es, base);
    var s := Exec(Init(), es, base);
    more := FromAnywhere(s, base);
    ExecAppend(Init(), es, more, base);
  }

  function LoopLeft(p: Prober): nat {
    match p
    case LoopHead(_, _) => 4
    case Timing(_, _) => 3
    case Probing(_, _) => 2
    case Recovered => 1
    case _ => 0
  }

  lemma {:induction false} ExecFirst(s: State, e: Event, tail: seq<Event>, base: int)
    ensures Exec(s, [e] + tail, base) == Exec(Step(s, e, base), tail, base)
  {
    assert [] + [e] == [e];
    ExecThen(s, [], e, base);
    ExecAppend(s, [e], tail, base);
  }

  lemma {:induction false} FromLoop(s: State, base: int) returns (more: seq<Event>)
    requires s.degraded && (s.prober.LoopHead? || s.prober.Timing? || s.prober.Probing? || s.prober.Recovered?)
    ensures |more| <= LoopLeft(s.prober) && Finishing(more) && !Exec(s, more, base).degraded
    decreases LoopLeft(s.prober)
  {
    var e := match s.prober
      case Recovered => ClearFlag
      case Probing(_, _) => ProbeSucceeds
      case Timing(_, _) => TimerFires
      case LoopHead(_, _) => LoadInLoop;
    var tail := [];
    if e != ClearFlag {
      tail := FromLoop(Step(s, e, base), base);
    }
    more := [e] + tail;
    ExecFirst(s, e, tail, base);
  }

  lemma {:induction false} FromSlot(s: State, base: int) returns (more: seq<Event>)
    requires s.degraded && s.prober.Waiting? && s.slot
    ensures |more| <= 5 && Finishing(more) && !Exec(s, more, base).degraded
  {
    var tail := FromLoop(Step(s, Receive, base), base);
    more := [Receive] + tail;
    ExecFirst(s, Receive, tail, base);
  }

  lemma {:induction false} FromAnywhere(s: State, base: int) returns (more: seq<Event>)
    requires Inv(s, base) && s.degraded && !s.closed
    ensures Finishing(more) && !Exec(s, more, base).degraded
  {
    if Busy(s.prober) {
      more := FromLoop(s, base);
    } else if s.slot {
      more := FromSlot(s, base);
    } else {
      var r :| Signaller(s, r);
      var tail := FromSlot(Step(s, Signal(r), base), base);
      more := [Signal(r)] + tail;
      ExecFirst(s, Signal(r), tail, base);
    }
  }

  // ---------------------------------------------------------------------
  // One request, start to finish
  // ---------------------------------------------------------------------

  /** The store as one request sees it: what the primary would answer is a parameter. */
  class Store {
    const fallback: MemoryStore
    var degraded: bool
    var slot: bool

    constructor (fallback: MemoryStore)
      ensures this.fallback == fallback && !degraded && !slot
    {
      this.fallback := fallback;
      degraded := false;
      slot := false;
    }

    /** Flip the flag; only the request that flips it signals, and never blocks. */
    method MarkDegraded()
      modifies this`degraded, this`slot
      ensures degraded && slot == (old(slot) || !old(degraded))
    {
      if !degraded {
        degraded := true;
        if !slot {
          slot := true;
        }
      }
    }

    /** The primary's outage never reaches the caller: an unavailable answer means the
        caller's own context was cancelled at the fallback. A primary that answers, or
        rejects the input, is passed through and the fallback is not touched. */
    method Increment(primary: Result<Count, StoreError>, key: string, delta: int, ttl: int, canceled: bool, now: int)
      returns (r: Result<Count, StoreError>)
      requires fallback.Valid() && fallback.clock <= now
      modifies this`degraded, this`slot, fallback
      ensures fallback.Valid()
      ensures degraded <==> old(degraded) || primary == Err(Unavailable)
      ensures slot == (old(slot) || (!old(degraded) && degraded))
      ensures !degraded ==> r == primary && fallback.plain == old(fallback.plain)
      ensures degraded && !canceled && key != "" && delta > 0 && ttl > 0 ==>
                && fallback.plain == Incremented(old(fallback.plain), key, delta, ttl, now)
                && r == Ok(Count(fallback.plain[key].value, fallback.plain[key].expiresAt - now))
      ensures r == Err(Unavailable) ==> degraded && canceled
    {
      if !degraded {
        if primary.Ok? || primary.error != Unavailable {
          return primary;
        }
        MarkDegraded();
      }
      r := fallback.Increment(key, delta, ttl, canceled, now);
    }
  }
}
