/** The approval budget: how often one owner may submit a user code. */
module ApprovalLimit {
  import opened Common
  import opened CounterStore
  import opened Denylist
  import Enrollment
  import Revocation

  const MAX_ATTEMPTS := 20
  const WINDOW := Enrollment.PAIRING_LIFETIME

  /** Count one attempt; refuse when the store cannot answer or the budget is spent. */
  method CheckApprovalLimit(store: MemoryStore, hash: string -> Bytes, owner: string, canceled: bool, now: int)
    returns (ok: bool)
    requires store.Valid() && store.clock <= now && ApprovalKey(hash, owner) != ""
    modifies store
    ensures store.Valid()
    ensures canceled ==> !ok && store.plain == old(store.plain)
    ensures !canceled ==>
              && store.plain == Incremented(old(store.plain), ApprovalKey(hash, owner), 1, WINDOW, now)
              && (ok <==> Passes(old(store.plain), ApprovalKey(hash, owner), now))
  {
    var got := store.Increment(ApprovalKey(hash, owner), 1, WINDOW, canceled, now);
    return got.Ok? && got.value.value <= MAX_ATTEMPTS;
  }

  /** An attempt counted now is within the budget. */
  predicate Passes(m: Entries, key: string, now: int) {
    Incremented(m, key, 1, WINDOW, now)[key].value <= MAX_ATTEMPTS
  }

  /** What happens to the shared store: approval attempts by any owner, and writes of
      the store's other users. */
  datatype Act =
    | Attempt(owner: string, at: int)
    | OtherInc(key: string, delta: int, ttl: int, at: int)
    | OtherDel(key: string, at: int)

  function After(hash: string -> Bytes, m: Entries, a: Act): Entries {
    match a
    case Attempt(owner, at) => Incremented(m, ApprovalKey(hash, owner), 1, WINDOW, at)
    case OtherInc(key, delta, ttl, at) => Incremented(m, key, delta, ttl, at)
    case OtherDel(key, _) => m - {key}
  }

  /** Other users write no approval key; the clock does not go back. */
  ghost predicate Proper(hash: string -> Bytes, acts: seq<Act>, from: int) {
    acts == [] ||
    (&& from <= acts[0].at
     && (!acts[0].Attempt? ==> forall owner :: acts[0].key != ApprovalKey(hash, owner))
     && Proper(hash, acts[1..], acts[0].at))
  }

  /** How many of the owner's attempts in [lo, hi) pass. */
  function Passed(hash: string -> Bytes, m: Entries, acts: seq<Act>, owner: string, lo: int, hi: int): nat
    decreases |acts|
  {
    if acts == [] then 0
    else
      var a := acts[0];
      (if a.Attempt? && a.owner == owner && lo <= a.at < hi && Passes(m, ApprovalKey(hash, owner), a.at) then 1 else 0)
      + Passed(hash, After(hash, m, a), acts[1..], owner, lo, hi)
  }

  /** Counts are positive and the run is far too short to overflow one. */
  ghost predicate Counted(m: Entries, key: string, acts: seq<Act>) {
    key in m ==> 1 <= m[key].value && m[key].value + |acts| <= MAX_INT64
  }

  function Left(m: Entries, key: string): nat
    requires key in m
  {
    if m[key].value < MAX_ATTEMPTS && m[key].value >= 0 then MAX_ATTEMPTS - m[key].value else 0
  }

  lemma {:induction false} Untouched(hash: string -> Bytes, m: Entries, a: Act, owner: string)
    requires Injective(hash) && !(a.Attempt? && a.owner == owner)
    requires !a.Attempt? ==> forall o :: a.key != ApprovalKey(hash, o)
    ensures var key := ApprovalKey(hash, owner);
            (key in After(hash, m, a) <==> key in m) && (key in m ==> After(hash, m, a)[key] == m[key])
  {
    if a.Attempt? && ApprovalKey(hash, a.owner) == ApprovalKey(hash, owner) {
      ApprovalKeyInjective(hash, a.owner, owner);
    }
  }

  /** Nothing at or after hi counts. */
  lemma {:induction false} NoneAfter(hash: string -> Bytes, m: Entries, acts: seq<Act>, owner: string, lo: int, hi: int, from: int)
    requires Proper(hash, acts, from) && hi <= from
    ensures Passed(hash, m, acts, owner, lo, hi) == 0
    decreases |acts|
  {
    if acts != [] {
      NoneAfter(hash, After(hash, m, acts[0]), acts[1..], owner, lo, hi, acts[0].at);
    }
  }

  /** Inside one window at most what is left of its budget passes. */
  lemma {:induction false} WithinWindow(hash: string -> Bytes, m: Entries, acts: seq<Act>, owner: string, lo: int, hi: int, from: int)
    requires Injective(hash) && Proper(hash, acts, from)
    requires var key := ApprovalKey(hash, owner); Counted(m, key, acts) && key in m && hi <= m[key].expiresAt
    ensures Passed(hash, m, acts, owner, lo, hi) <= Left(m, ApprovalKey(hash, owner))
    decreases |acts|
  {
    if acts != [] {
      var key, a, next := ApprovalKey(hash, owner), acts[0], After(hash, m, acts[0]);
      if !(a.Attempt? && a.owner == owner) {
        Untouched(hash, m, a, owner);
        WithinWindow(hash, next, acts[1..], owner, lo, hi, a.at);
      } else if a.at < m[key].expiresAt {
        WithinWindow(hash, next, acts[1..], owner, lo, hi, a.at);
      } else {
        NoneAfter(hash, next, acts[1..], owner, lo, hi, a.at);
      }
    }
  }

  /** An attempt that opens a window covering the rest of the interval. */
  lemma {:induction false} OpeningAttempt(hash: string -> Bytes, m: Entries, acts: seq<Act>, owner: string, lo: int, hi: int, from: int)
    requires Injective(hash) && Proper(hash, acts, from)
    requires acts != [] && acts[0] == Attempt(owner, acts[0].at) && |acts| <= MAX_INT64
    requires !Live(m, ApprovalKey(hash, owner), acts[0].at) && hi <= acts[0].at + WINDOW
    ensures Passed(hash, m, acts, owner, lo, hi) <= MAX_ATTEMPTS
  {
    WithinWindow(hash, After(hash, m, acts[0]), acts[1..], owner, lo, hi, acts[0].at);
  }

  /** The rest of a live window and the window after it. */
  lemma {:induction false} AcrossOneEdge(hash: string -> Bytes, m: Entries, acts: seq<Act>, owner: string, lo: int, hi: int, from: int)
    requires Injective(hash) && Proper(hash, acts, from) && |acts| <= MAX_INT64
    requires var key := ApprovalKey(hash, owner); Counted(m, key, acts) && key in m && hi <= m[key].expiresAt + WINDOW
    ensures Passed(hash, m, acts, owner, lo, hi) <= Left(m, ApprovalKey(hash, owner)) + MAX_ATTEMPTS
    decreases |acts|
  {
    if acts != [] {
      var key, a, next := ApprovalKey(hash, owner), acts[0], After(hash, m, acts[0]);
      if !(a.Attempt? && a.owner == owner) {
        Untouched(hash, m, a, owner);
        AcrossOneEdge(hash, next, acts[1..], owner, lo, hi, a.at);
      } else if a.at < m[key].expiresAt {
        AcrossOneEdge(hash, next, acts[1..], owner, lo, hi, a.at);
      } else {
        OpeningAttempt(hash, m, acts, owner, lo, hi, from);
      }
    }
  }

  /** Over any run of the shared store an owner passes the limit at most 39 times in
      any interval as long as one window: what is left of the window the interval
      starts in, whose first attempt came before it, and one whole window more. */
  lemma {:induction false} IntervalBudget(hash: string -> Bytes, m: Entries, acts: seq<Act>, owner: string, lo: int, from: int)
    requires Injective(hash) && Proper(hash, acts, from) && |acts| <= MAX_INT64
    requires Counted(m, ApprovalKey(hash, owner), acts)
    ensures Passed(hash, m, acts, owner, lo, lo + WINDOW) <= 39
    decreases |acts|
  {
    if acts != [] {
      var key, a, next := ApprovalKey(hash, owner), acts[0], After(hash, m, acts[0]);
      if !(a.Attempt? && a.owner == owner) {
        Untouched(hash, m, a, owner);
        IntervalBudget(hash, next, acts[1..], owner, lo, a.at);
      } else if a.at < lo {
        IntervalBudget(hash, next, acts[1..], owner, lo, a.at);
      } else if Live(m, key, a.at) {
        AcrossOneEdge(hash, m, acts, owner, lo, lo + WINDOW, from);
      } else {
        OpeningAttempt(hash, m, acts, owner, lo, lo + WINDOW, from);
      }
    }
  }

  /** Per window: from a fresh window on, at most twenty attempts pass before it
      closes. */
  lemma {:induction false} WindowBudget(hash: string -> Bytes, m: Entries, acts: seq<Act>, owner: string, from: int)
    requires Injective(hash) && Proper(hash, acts, from) && |acts| <= MAX_INT64
    requires acts != [] && acts[0] == Attempt(owner, acts[0].at) && !Live(m, ApprovalKey(hash, owner), acts[0].at)
    ensures Passed(hash, m, acts, owner, acts[0].at, acts[0].at + WINDOW) <= 20
  {
    OpeningAttempt(hash, m, acts, owner, acts[0].at, acts[0].at + WINDOW, from);
  }

  // ---------------------------------------------------------------------
  // The interval bound is attained
  // ---------------------------------------------------------------------

  function Repeat(owner: string, at: int, n: nat): seq<Act> {
    seq(n, _ => Attempt(owner, at))
  }

  /** n attempts at one instant of a live window, all within its budget. */
  lemma {:induction false} AllPass(hash: string -> Bytes, m: Entries, owner: string, at: int, n: nat, rest: seq<Act>, lo: int, hi: int)
    requires lo <= at < hi
    requires var key := ApprovalKey(hash, owner); Live(m, key, at) && 0 <= m[key].value && m[key].value + n <= MAX_ATTEMPTS
    ensures var key := ApprovalKey(hash, owner);
            Passed(hash, m, Repeat(owner, at, n) + rest, owner, lo, hi)
            == n + Passed(hash, m[key := m[key].(value := m[key].value + n)], rest, owner, lo, hi)
  {
    var key := ApprovalKey(hash, owner);
    if n == 0 {
      assert Repeat(owner, at, n) + rest == rest;
      assert m[key := m[key].(value := m[key].value + n)] == m;
    } else {
      var acts := Repeat(owner, at, n) + rest;
      assert acts[0] == Attempt(owner, at) && acts[1..] == Repeat(owner, at, n - 1) + rest;
      var next := After(hash, m, acts[0]);
      assert next == m[key := m[key].(value := m[key].value + 1)];
      AllPass(hash, next, owner, at, n - 1, rest, lo, hi);
      assert next[key := next[key].(value := next[key].value + (n - 1))] == m[key := m[key].(value := m[key].value + n)];
    }
  }

  /** One attempt at time 0, nineteen just before the window closes, twenty when it
      reopens: thirty-nine pass inside one window's length. */
  lemma {:induction false} IntervalBudgetIsTight(hash: string -> Bytes, owner: string)
    ensures var acts := [Attempt(owner, 0)] + Repeat(owner, WINDOW - 1, 19) + Repeat(owner, WINDOW, 20);
            Passed(hash, map[], acts, owner, 1, 1 + WINDOW) == 39
  {
    var key := ApprovalKey(hash, owner);
    var acts := [Attempt(owner, 0)] + Repeat(owner, WINDOW - 1, 19) + Repeat(owner, WINDOW, 20);
    var m1: Entries := map[key := Entry(1, WINDOW)];
    assert After(hash, map[], acts[0]) == m1;
    assert acts[1..] == Repeat(owner, WINDOW - 1, 19) + Repeat(owner, WINDOW, 20);
    AllPass(hash, m1, owner, WINDOW - 1, 19, Repeat(owner, WINDOW, 20), 1, 1 + WINDOW);
    var m2: Entries := map[key := Entry(20, WINDOW)];
    assert m1[key := m1[key].(value := m1[key].value + 19)] == m2;
    var late := Repeat(owner, WINDOW, 20);
    assert late[0] == Attempt(owner, WINDOW) && late[1..] == Repeat(owner, WINDOW, 19) + [];
    var m3: Entries := map[key := Entry(1, 2 * WINDOW)];
    assert After(hash, m2, late[0]) == m3;
    AllPass(hash, m3, owner, WINDOW, 19, [], 1, 1 + WINDOW);
  }

  /** Approval counting never touches a denylist entry: an attempt is one of the
      foreign writes the revocation theorem allows. */
  lemma {:induction false} ApprovalIsForeignToDenylist(hash: string -> Bytes, owner: string)
    requires Injective(hash)
    ensures Revocation.ForeignKey(hash, ApprovalKey(hash, owner))
  {
    forall id
      ensures ApprovalKey(hash, owner) != CredentialKey(hash, id)
    {
      KeyspacesDisjoint(hash, id, owner);
    }
  }

  /** And a denylist write leaves every owner's approval count alone. */
  lemma {:induction false} DenylistIsForeignToApproval(hash: string -> Bytes, m: Entries, id: string, owner: string, now: int)
    requires Injective(hash)
    ensures var after := Incremented(m, CredentialKey(hash, id), 1, ENTRY_TTL, now);
            var key := ApprovalKey(hash, owner);
            (key in after <==> key in m) && (key in m ==> after[key] == m[key])
  {
    KeyspacesDisjoint(hash, id, owner);
  }
}
