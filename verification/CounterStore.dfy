/** The in-process counter store: an expiring map, purged every 256 writes.

    The reference is a plain map that is never purged. The store answers exactly
    as the plain map does, whenever purges run. */
module CounterStore {
  import opened Common

  datatype Entry = Entry(value: int, expiresAt: int)

  type Entries = map<string, Entry>

  datatype Count = Count(value: int, ttl: int)

  datatype StoreError = InvalidKey | InvalidInput | Unavailable

  const SWEEP_INTERVAL := 256

  /** 64-bit two's complement addition of the counter value. */
  function Wrap64(x: int): int {
    (x + 0x8000_0000_0000_0000) % 0x1_0000_0000_0000_0000 - 0x8000_0000_0000_0000
  }

  predicate Live(m: Entries, key: string, now: int) {
    key in m && now < m[key].expiresAt
  }

  /** Counting up: a live window keeps its expiry, a closed or absent one reopens. */
  function Incremented(m: Entries, key: string, delta: int, ttl: int, now: int): Entries {
    var e := if Live(m, key, now) then m[key] else Entry(0, now + ttl);
    m[key := Entry(Wrap64(e.value + delta), e.expiresAt)]
  }

  function CountOf(m: Entries, key: string, now: int): Count {
    if Live(m, key, now) then Count(m[key].value, m[key].expiresAt - now) else Count(0, 0)
  }

  /** The live part of the map. */
  function Purged(m: Entries, now: int): Entries {
    map k | k in m && now < m[k].expiresAt :: m[k]
  }

  /** A map together with the writes counted since its last automatic purge. */
  datatype Swept = Swept(entries: Entries, ops: nat)

  /** What a write leaves behind: every 256th one purges. */
  function AfterWrite(m: Entries, ops: nat, now: int): Swept {
    if ops + 1 < SWEEP_INTERVAL then Swept(m, ops + 1) else Swept(Purged(m, now), 0)
  }

  /** swept holds part of plain, and everything of it that is live at now. */
  ghost predicate Agrees(swept: Entries, plain: Entries, now: int) {
    && (forall k :: k in swept ==> k in plain && plain[k] == swept[k])
    && (forall k :: Live(plain, k, now) ==> k in swept)
  }

  /** Entries not written since the last purge are as it left them. */
  ghost predicate Tracks(entries: Entries, base: Entries, touched: set<string>) {
    forall k :: k in entries && k !in touched ==> k in base && entries[k] == base[k]
  }

  class MemoryStore {
    var entries: Entries
    var ops: nat

    /** The plain map, the latest clock reading, the map left by the last purge, and
        since it the number of writes and the keys written. */
    ghost var plain: Entries
    ghost var clock: int
    ghost var base: Entries
    ghost var written: nat
    ghost var touched: set<string>

    ghost predicate Valid()
      reads this
    {
      && ops < SWEEP_INTERVAL
      && Agrees(entries, plain, clock)
      && Tracks(entries, base, touched) && |touched| <= written <= ops
    }

    constructor (now: int)
      ensures Valid() && entries == map[] && ops == 0 && plain == map[] && clock == now
      ensures base == map[] && written == 0 && touched == {}
    {
      entries, ops := map[], 0;
      plain, clock, base, written, touched := map[], now, map[], 0, {};
    }

    method Purge(now: int)
      modifies this`entries
      ensures entries == Purged(old(entries), now)
    {
      var rest := entries.Keys;
      while rest != {}
        invariant rest <= entries.Keys <= old(entries).Keys
        invariant forall k :: k in entries ==> entries[k] == old(entries)[k]
        invariant forall k :: k in old(entries) && k !in rest ==> (k in entries <==> now < old(entries)[k].expiresAt)
        decreases |rest|
      {
        var k :| k in rest;
        rest := rest - {k};
        if now >= entries[k].expiresAt {
          entries := entries - {k};
        }
      }
    }

    /** Bookkeeping after a write of key: the automatic purge. */
    method SweepAfterWrite(ghost key: string, now: int)
      requires ops < SWEEP_INTERVAL && Agrees(entries, plain, now)
      requires Tracks(entries, base, touched + {key}) && |touched| <= written <= ops
      modifies this`entries, this`ops, this`clock, this`base, this`written, this`touched
      ensures Valid() && clock == now
      ensures Swept(entries, ops) == AfterWrite(old(entries), old(ops), now)
      ensures old(ops) + 1 < SWEEP_INTERVAL ==> base == old(base) && written == old(written) + 1
      ensures old(ops) + 1 == SWEEP_INTERVAL ==> base == entries && written == 0
    {
      ops := ops + 1;
      written, clock, touched := written + 1, now, touched + {key};
      if ops >= SWEEP_INTERVAL {
        ops := 0;
        AgreesAfterPurge(entries, plain, now);
        Purge(now);
        base, written, touched := entries, 0, {};
      }
    }

    method Increment(key: string, delta: int, ttl: int, canceled: bool, now: int) returns (r: Result<Count, StoreError>)
      requires Valid() && clock <= now
      modifies this
      ensures Valid()
      ensures r.Err? <==> key == "" || delta <= 0 || ttl <= 0 || canceled
      ensures r.Err? ==> r.error == if key == "" then InvalidKey else if delta <= 0 || ttl <= 0 then InvalidInput else Unavailable
      ensures r.Err? ==> plain == old(plain) && entries == old(entries) && ops == old(ops) && clock == old(clock)
      ensures r.Ok? ==> plain == Incremented(old(plain), key, delta, ttl, now) && clock == now
      ensures r.Ok? ==> Swept(entries, ops) == AfterWrite(Incremented(old(entries), key, delta, ttl, now), old(ops), now)
      ensures r.Ok? && old(ops) + 1 < SWEEP_INTERVAL ==> base == old(base) && written == old(written) + 1
      ensures r.Ok? && old(ops) + 1 == SWEEP_INTERVAL ==> base == entries && written == 0
      ensures r.Ok? ==> r.value == Count(plain[key].value, plain[key].expiresAt - now)
    {
      if key == "" {
        return Err(InvalidKey);
      }
      if delta <= 0 || ttl <= 0 {
        return Err(InvalidInput);
      }
      if canceled {
        return Err(Unavailable);
      }
      var e := Entry(0, now + ttl);
      if key in entries && now < entries[key].expiresAt {
        e := entries[key];
      }
      e := e.(value := Wrap64(e.value + delta));
      AgreesAfterIncrement(entries, plain, clock, key, delta, ttl, now);
      assert entries[key := e] == Incremented(entries, key, delta, ttl, now);
      entries := entries[key := e];
      plain := Incremented(plain, key, delta, ttl, now);
      SweepAfterWrite(key, now);
      return Ok(Count(e.value, e.expiresAt - now));
    }

    method Get(key: string, canceled: bool, now: int) returns (r: Result<Count, StoreError>)
      requires Valid() && clock <= now
      ensures r == if key == "" then Err(InvalidKey) else if canceled then Err(Unavailable) else Ok(CountOf(plain, key, now))
    {
      if key == "" {
        return Err(InvalidKey);
      }
      if canceled {
        return Err(Unavailable);
      }
      if key !in entries || now >= entries[key].expiresAt {
        return Ok(Count(0, 0));
      }
      return Ok(Count(entries[key].value, entries[key].expiresAt - now));
    }

    method Delete(key: string, canceled: bool, now: int) returns (r: Result<(), StoreError>)
      requires Valid() && clock <= now
      modifies this
      ensures Valid()
      ensures r == if key == "" then Err(InvalidKey) else if canceled then Err(Unavailable) else Ok(())
      ensures r.Err? ==> plain == old(plain) && entries == old(entries) && ops == old(ops) && clock == old(clock)
      ensures r.Ok? ==> plain == old(plain) - {key} && clock == now
      ensures r.Ok? ==> Swept(entries, ops) == AfterWrite(old(entries) - {key}, old(ops), now)
      ensures r.Ok? && old(ops) + 1 < SWEEP_INTERVAL ==> base == old(base) && written == old(written) + 1
      ensures r.Ok? && old(ops) + 1 == SWEEP_INTERVAL ==> base == entries && written == 0
    {
      if key == "" {
        return Err(InvalidKey);
      }
      if canceled {
        return Err(Unavailable);
      }
      entries := entries - {key};
      plain := plain - {key};
      SweepAfterWrite(key, now);
      return Ok(());
    }

    /** The explicit purge: answers do not change, and every resident entry is live. */
    method Sweep(now: int) returns (removed: int)
      requires Valid() && clock <= now
      modifies this
      ensures Valid() && plain == old(plain) && clock == now && ops == old(ops)
      ensures entries == Purged(old(entries), now) && removed == |old(entries)| - |entries|
      ensures base == entries && written == 0
    {
      var before := |entries|;
      AgreesAfterPurge(entries, plain, now);
      Purge(now);
      base, written, touched, clock := entries, 0, {}, now;
      return before - |entries|;
    }

    /** What stays resident: at most what the last purge left plus the writes since, and
        of the expired, at most the writes since plus what the purge left that has
        expired meanwhile. So fewer than 256 expired entries as long as nothing the
        purge left has expired. */
    lemma {:induction false} Residency(t: int)
      requires Valid()
      ensures |entries| <= |base| + written && written < 256
      ensures |Expired(entries, t)| <= written + |Expired(base, t)|
      ensures Expired(base, t) == {} ==> |Expired(entries, t)| < 256
    {
      ResidentsBound(entries, base, touched, t);
    }
  }

  /** The resident keys whose window has closed by t. */
  function Expired(m: Entries, t: int): set<string> {
    set k | k in m && m[k].expiresAt <= t
  }

  lemma {:induction false} ResidentsBound(entries: Entries, base: Entries, touched: set<string>, t: int)
    requires Tracks(entries, base, touched)
    ensures |entries| <= |base| + |touched|
    ensures |Expired(entries, t)| <= |touched| + |Expired(base, t)|
  {
    SmallerSet(entries.Keys, base.Keys + touched);
    SmallerSet(Expired(entries, t), touched + Expired(base, t));
    UnionSize(base.Keys, touched);
    UnionSize(touched, Expired(base, t));
  }

  lemma {:induction false} UnionSize(a: set<string>, b: set<string>)
    ensures |a + b| <= |a| + |b|
  {
    assert |a + b| + |a * b| == |a| + |b|;
  }

  /** The documented bound, that fewer than n expired entries are ever resident, holds of
      a map at every instant exactly when the map has fewer than n entries at all. */
  lemma {:induction false} ExpiredBoundIff(m: Entries, n: nat)
    ensures (forall t :: |Expired(m, t)| < n) <==> |m| < n
  {
    forall t
      ensures |Expired(m, t)| <= |m|
    {
      SmallerSet(Expired(m, t), m.Keys);
    }
    var last := LastExpiry(m, m.Keys);
    assert Expired(m, last) == m.Keys;
  }

  lemma {:induction false} LastExpiry(m: Entries, keys: set<string>) returns (t: int)
    requires keys <= m.Keys
    ensures forall k :: k in keys ==> m[k].expiresAt <= t
    decreases keys
  {
    if keys == {} {
      t := 0;
    } else {
      var k :| k in keys;
      t := LastExpiry(m, keys - {k});
      if t < m[k].expiresAt {
        t := m[k].expiresAt;
      }
    }
  }

  lemma {:induction false} SmallerSet(a: set<string>, b: set<string>)
    requires a <= b
    ensures |a| <= |b|
  {
    if a != {} {
      var x :| x in a;
      SmallerSet(a - {x}, b - {x});
    }
  }

  lemma {:induction false} AgreesAfterPurge(swept: Entries, plain: Entries, now: int)
    requires forall k :: k in swept ==> k in plain && plain[k] == swept[k]
    requires forall k :: Live(plain, k, now) ==> k in swept
    ensures Agrees(Purged(swept, now), plain, now)
  {
  }

  lemma {:induction false} AgreesAfterIncrement(swept: Entries, plain: Entries, clock: int, key: string, delta: int, ttl: int, now: int)
    requires Agrees(swept, plain, clock) && clock <= now && ttl > 0
    ensures Agrees(Incremented(swept, key, delta, ttl, now), Incremented(plain, key, delta, ttl, now), now)
  {
  }

  // ---------------------------------------------------------------------
  // The fixed window, the role of the clock, and what stays resident
  // ---------------------------------------------------------------------

  /** Purging at now is invisible to readings at t exactly when t is not earlier: the
      store's agreement with the plain map rests on a clock that does not go back. */
  lemma {:induction false} PurgeInvisibleIff(now: int, t: int)
    ensures (forall m: Entries, k :: CountOf(Purged(m, now), k, t) == CountOf(m, k, t)) <==> now <= t
  {
    if t < now {
      var m: Entries := map["k" := Entry(1, now)];
      assert "k" !in Purged(m, now);
      assert CountOf(m, "k", t) == Count(1, now - t);
      assert CountOf(Purged(m, now), "k", t) == Count(0, 0);
    }
  }

  /** A purge leaves exactly the live entries, each as it was. */
  lemma {:induction false} PurgeKeepsTheLive(m: Entries, now: int)
    ensures Expired(Purged(m, now), now) == {}
    ensures forall k :: k in Purged(m, now) <==> k in m && now < m[k].expiresAt
    ensures forall k :: k in Purged(m, now) ==> Purged(m, now)[k] == m[k]
  {
  }

  /** A history of the store: writes, and purges at arbitrary moments. */
  datatype Op =
    | Inc(key: string, delta: int, ttl: int, at: int)
    | Del(key: string, at: int)
    | PurgeAll(at: int)

  function Applied(m: Entries, op: Op): Entries {
    match op
    case Inc(key, delta, ttl, at) => Incremented(m, key, delta, ttl, at)
    case Del(key, _) => m - {key}
    case PurgeAll(at) => Purged(m, at)
  }

  function Run(m: Entries, ops: seq<Op>): Entries
    decreases |ops|
  {
    if ops == [] then m else Run(Applied(m, ops[0]), ops[1..])
  }

  /** The same history with its purges left out. */
  function WithoutPurges(ops: seq<Op>): seq<Op> {
    if ops == [] then []
    else if ops[0].PurgeAll? then WithoutPurges(ops[1..])
    else [ops[0]] + WithoutPurges(ops[1..])
  }

  /** Times do not go back, and windows have positive length. */
  predicate Timely(ops: seq<Op>, from: int) {
    ops == [] || (from <= ops[0].at && (ops[0].Inc? ==> ops[0].ttl > 0) && Timely(ops[1..], ops[0].at))
  }

  function End(ops: seq<Op>, from: int): int {
    if ops == [] then from else End(ops[1..], ops[0].at)
  }

  /** Wherever the purges fall, every later reading of every key is that of the
      history without them. */
  lemma {:induction false} PurgesNeverShow(swept: Entries, plain: Entries, from: int, ops: seq<Op>)
    requires Agrees(swept, plain, from) && Timely(ops, from)
    ensures Agrees(Run(swept, ops), Run(plain, WithoutPurges(ops)), End(ops, from))
    ensures forall k, t :: End(ops, from) <= t ==>
              CountOf(Run(swept, ops), k, t) == CountOf(Run(plain, WithoutPurges(ops)), k, t)
    decreases |ops|
  {
    if ops != [] {
      var op, rest := ops[0], WithoutPurges(ops[1..]);
      if op.PurgeAll? {
        AgreesAfterPurge(swept, plain, op.at);
        PurgesNeverShow(Applied(swept, op), plain, op.at, ops[1..]);
      } else {
        if op.Inc? {
          AgreesAfterIncrement(swept, plain, from, op.key, op.delta, op.ttl, op.at);
        }
        PurgesNeverShow(Applied(swept, op), Applied(plain, op), op.at, ops[1..]);
        assert ([op] + rest)[1..] == rest;
      }
    }
  }

  /** The deltas a history adds to a key. */
  function Total(ops: seq<Op>, key: string): int
    decreases |ops|
  {
    if ops == [] then 0
    else (if ops[0].Inc? && ops[0].key == key then ops[0].delta else 0) + Total(ops[1..], key)
  }

  /** The history neither deletes the key nor reaches the instant t. */
  predicate Within(ops: seq<Op>, key: string, t: int) {
    forall i :: 0 <= i < |ops| ==> ops[i].at < t && ops[i] != Del(key, ops[i].at)
  }

  lemma {:induction false} WrapAdds(a: int, b: int)
    ensures Wrap64(Wrap64(a) + b) == Wrap64(a + b)
  {
  }

  /** The fixed window over any history, purges included: until it closes or is
      deleted a live key keeps its expiry, and its value is what it was plus the sum of
      the deltas since, in 64-bit arithmetic. */
  lemma {:induction false} LiveExpiryIsFixed(m: Entries, key: string, from: int, ops: seq<Op>)
    requires Live(m, key, from) && Timely(ops, from) && Within(ops, key, m[key].expiresAt)
    requires Wrap64(m[key].value) == m[key].value
    ensures key in Run(m, ops)
    ensures Run(m, ops)[key] == Entry(Wrap64(m[key].value + Total(ops, key)), m[key].expiresAt)
    decreases |ops|
  {
    if ops != [] {
      var op, next := ops[0], Applied(m, ops[0]);
      assert op.at < m[key].expiresAt && op != Del(key, op.at);
      assert Live(next, key, op.at) && next[key].expiresAt == m[key].expiresAt;
      if op.Inc? && op.key == key {
        WrapAdds(m[key].value, op.delta);
        WrapAdds(m[key].value + op.delta, Total(ops[1..], key));
      }
      WithinTail(ops, key, m[key].expiresAt);
      LiveExpiryIsFixed(next, key, op.at, ops[1..]);
    }
  }

  lemma {:induction false} WithinTail(ops: seq<Op>, key: string, t: int)
    requires ops != [] && Within(ops, key, t)
    ensures Within(ops[1..], key, t)
  {
  }

  /** A window started by an increment of a closed or absent key lasts exactly its time to
      live, and counts exactly the deltas since it started. */
  lemma {:induction false} OpenedWindow(m: Entries, key: string, delta: int, ttl: int, at: int, ops: seq<Op>)
    requires !Live(m, key, at) && ttl > 0 && Timely(ops, at) && Within(ops, key, at + ttl)
    ensures key in Run(m, [Inc(key, delta, ttl, at)] + ops)
    ensures Run(m, [Inc(key, delta, ttl, at)] + ops)[key] == Entry(Wrap64(delta + Total(ops, key)), at + ttl)
  {
    var started := Incremented(m, key, delta, ttl, at);
    assert ([Inc(key, delta, ttl, at)] + ops)[1..] == ops;
    assert started[key] == Entry(Wrap64(delta), at + ttl);
    WrapAdds(delta, 0);
    WrapAdds(delta, Total(ops, key));
    LiveExpiryIsFixed(started, key, at, ops);
  }

  /** What a reader is told of such a window: the deltas since it opened and the time it
      has left, and once it closed, nothing. */
  lemma {:induction false} WindowReads(m: Entries, key: string, delta: int, ttl: int, at: int, ops: seq<Op>, t: int)
    requires !Live(m, key, at) && ttl > 0 && Timely(ops, at) && Within(ops, key, at + ttl)
    ensures CountOf(Run(m, [Inc(key, delta, ttl, at)] + ops), key, t)
         == if t < at + ttl then Count(Wrap64(delta + Total(ops, key)), at + ttl - t) else Count(0, 0)
  {
    OpenedWindow(m, key, delta, ttl, at, ops);
  }

  /** One key per length. */
  function NthKey(n: nat): string { seq(n + 1, _ => 'k') }

  /** n increments of n different keys at time 0 with the shortest window. */
  function Filled(n: nat): Swept
    ensures Filled(n).ops < SWEEP_INTERVAL
  {
    if n == 0 then Swept(map[], 0)
    else
      var s := Filled(n - 1);
      AfterWrite(Incremented(s.entries, NthKey(n - 1), 1, 1, 0), s.ops, 0)
  }

  /** A store filled by n such increments. */
  method Fill(n: nat) returns (store: MemoryStore)
    ensures fresh(store) && store.Valid() && Swept(store.entries, store.ops) == Filled(n)
    ensures n < SWEEP_INTERVAL ==> store.base == map[] && store.written == n
  {
    store := new MemoryStore(0);
    for i := 0 to n
      invariant fresh(store) && store.Valid() && store.clock == 0 && Swept(store.entries, store.ops) == Filled(i)
      invariant i < SWEEP_INTERVAL ==> store.base == map[] && store.written == i && store.ops == i
    {
      var r := store.Increment(NthKey(i), 1, 1, false, 0);
    }
  }

  lemma {:induction false} NthKeyInjective(i: nat, n: nat)
    requires NthKey(i) == NthKey(n)
    ensures i == n
  {
    assert |NthKey(i)| == i + 1 && |NthKey(n)| == n + 1;
  }

  function KeysBelow(n: nat): set<string> {
    set i: nat | i < n :: NthKey(i)
  }

  lemma {:induction false} OneMoreKey(n: nat)
    ensures KeysBelow(n + 1) == KeysBelow(n) + {NthKey(n)} && NthKey(n) !in KeysBelow(n)
  {
    forall i: nat | i < n
      ensures NthKey(i) != NthKey(n)
    {
      if NthKey(i) == NthKey(n) {
        NthKeyInjective(i, n);
      }
    }
  }

  /** Every entry closes at time 1. */
  predicate AllCloseAtOne(m: Entries) {
    forall k :: k in m ==> m[k].expiresAt == 1
  }

  /** Expired entries stay resident without bound: after n such writes one tick later
      all n entries have expired, and all are still held. Below 256 writes this meets
      the bound of Residency exactly. */
  lemma {:induction false} ExpiredResidentsUnbounded(n: nat)
    ensures Filled(n).entries.Keys == KeysBelow(n) && AllCloseAtOne(Filled(n).entries)
    ensures |Filled(n).entries| == n && |Expired(Filled(n).entries, 1)| == n
  {
    if n > 0 {
      ExpiredResidentsUnbounded(n - 1);
      OneMoreKey(n - 1);
      AddsKey(Filled(n - 1).entries, NthKey(n - 1));
    }
    assert Expired(Filled(n).entries, 1) == Filled(n).entries.Keys;
  }

  lemma {:induction false} AddsKey(m: Entries, key: string)
    requires AllCloseAtOne(m) && key !in m
    ensures var after := Incremented(m, key, 1, 1, 0);
            after.Keys == m.Keys + {key} && AllCloseAtOne(after) && |after| == |m| + 1 && Purged(after, 0) == after
  {
    var after := Incremented(m, key, 1, 1, 0);
    assert after.Keys == m.Keys + {key};
  }
}
