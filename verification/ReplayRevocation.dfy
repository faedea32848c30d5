/** The replay response from end to end: reuse is detected, the lineage is revoked, the
    rows read back are listed, and every access token of the lineage is refused. */
module ReplayRevocation {
  import opened Common
  import opened Credentials
  import opened Rotation
  import opened RotationSafety
  import opened ReuseDetection
  import opened CounterStore
  import opened Denylist
  import opened AccessTokens
  import opened Revocation
  import TokenService

  /** The database statements a run of the world performs. */
  ghost function Statements(c: Clocks, hash: string -> Bytes, w: World, acts: seq<Act>): seq<Event>
    decreases |acts|
  {
    if acts == [] then []
    else (if acts[0].Db? && TimedBy(c, w, acts[0].event) then [acts[0].event] else [])
         + Statements(c, hash, Next(c, hash, w, acts[0]), acts[1..])
  }

  lemma {:induction false} PlayIsExec(c: Clocks, hash: string -> Bytes, w: World, acts: seq<Act>)
    ensures Play(c, hash, w, acts).db == Exec(w.db, Statements(c, hash, w, acts))
    decreases |acts|
  {
    if acts != [] {
      var next, rest := Next(c, hash, w, acts[0]), Statements(c, hash, Next(c, hash, w, acts[0]), acts[1..]);
      PlayIsExec(c, hash, next, acts[1..]);
      NextDb(c, hash, w, acts[0]);
      var events := Statements(c, hash, w, acts);
      if acts[0].Db? && TimedBy(c, w, acts[0].event) {
        assert events == [acts[0].event] + rest && events[1..] == rest;
      } else {
        assert events == [] + rest == rest;
      }
    }
  }

  /** The world when the revoking statement has started. */
  ghost function Snapped(c: Clocks, hash: string -> Bytes, w: World, tx: nat, before: seq<Act>): World {
    Next(c, hash, Play(c, hash, w, before), Db(Snapshot(tx), ""))
  }

  /** The world when the revocation has committed. */
  ghost function Killed(c: Clocks, hash: string -> Bytes, w: World, tx: nat, before: seq<Act>, window: seq<Act>): World {
    Next(c, hash, Play(c, hash, Snapped(c, hash, w, tx, before), window), Db(CommitRevoke(tx), ""))
  }

  /** The revocation runs from its detection to the end of its statement; in the
      meantime anything may happen, except an exchange of this lineage committing while
      the statement runs. */
  ghost predicate Responds(c: Clocks, hash: string -> Bytes, w: World, tx: nat, lineage: string, before: seq<Act>, window: seq<Act>) {
    var waiting := Statements(c, hash, w, before);
    var snapped := Snapped(c, hash, w, tx, before);
    var during := Statements(c, hash, snapped, window);
    var ready := Play(c, hash, snapped, window).db;
    && Detected(w.db, tx, lineage)
    && AllSpare(waiting, tx) && (forall i :: 0 <= i < |waiting| ==> waiting[i] != Snapshot(tx))
    && AllSpare(during, tx) && NoCommitOn(snapped.db, during, lineage)
    && tx in ready.open && ready.open[tx].Revoking? && ready.open[tx].todo == {}
  }

  lemma {:induction false} ResponseKills(c: Clocks, hash: string -> Bytes, w: World, tx: nat, lineage: string, before: seq<Act>, window: seq<Act>)
    requires Inv(w.db) && Responds(c, hash, w, tx, lineage, before, window)
    ensures Dead(Killed(c, hash, w, tx, before, window).db.rows, lineage)
  {
    var snapped := Snapped(c, hash, w, tx, before);
    PlayIsExec(c, hash, w, before);
    PlayIsExec(c, hash, snapped, window);
    ReuseKillsForGood(w.db, tx, lineage, Statements(c, hash, w, before), Statements(c, hash, snapped, window), []);
  }

  lemma {:induction false} KilledIsOk(c: Clocks, hash: string -> Bytes, w: World, tx: nat, before: seq<Act>, window: seq<Act>)
    requires Injective(hash) && WorldOk(c, hash, w)
    ensures WorldOk(c, hash, Killed(c, hash, w, tx, before, window))
  {
    PlayKeepsWorld(c, hash, w, before);
    NextKeepsWorld(c, hash, Play(c, hash, w, before), Db(Snapshot(tx), ""));
    var snapped := Snapped(c, hash, w, tx, before);
    PlayKeepsWorld(c, hash, snapped, window);
    NextKeepsWorld(c, hash, Play(c, hash, snapped, window), Db(CommitRevoke(tx), ""));
  }

  /** A finished listing of the rows read back covers the dead lineage for ever: nobody
      joins it. */
  lemma {:induction false} ReadBackCovers(c: Clocks, hash: string -> Bytes, killed: World, acts: seq<Act>, lineage: string, list: nat, rows: seq<Credential>)
    requires Injective(hash) && WorldOk(c, hash, killed) && Dead(killed.db.rows, lineage)
    requires TokenService.ListsLineage(killed.db.rows, lineage, rows)
    requires var w := Play(c, hash, killed, acts);
             list in w.lists && w.lists[list].rows == rows && w.lists[list].next == |rows|
    ensures FullyListed(Play(c, hash, killed, acts), list, lineage)
  {
    var w := Play(c, hash, killed, acts);
    DeadInEveryWorld(c, hash, killed, acts, lineage);
    PlayPersists(c, hash, killed, acts);
    forall id | id in w.db.rows && w.db.rows[id].lineage == lineage
      ensures exists i :: 0 <= i < |rows| && rows[i].id == id
    {
      assert RowOk(killed.db.rows, id);
      assert killed.db.rows[id] in rows;
      var i :| 0 <= i < |rows| && rows[i] == killed.db.rows[id];
    }
  }

  /** The replay response is complete. From any reachable world in which reuse was
      detected: the revocation commits, the rows it read back are listed to the end,
      with anything in between, and from then on every access token ever minted from
      the lineage is refused by every instance. */
  lemma {:induction false} ReplayResponseIsComplete(
    c: Clocks, hash: string -> Bytes, past: seq<Act>, tx: nat, lineage: string, before: seq<Act>, window: seq<Act>,
    rows: seq<Credential>, list: nat, listing: seq<Act>, future: seq<Act>, tok: AccessToken, reading: int)
    requires Injective(hash) && c.fast - c.slow <= DENYLIST_SKEW
    requires Responds(c, hash, Play(c, hash, START, past), tx, lineage, before, window)
    requires var killed := Killed(c, hash, Play(c, hash, START, past), tx, before, window);
             var listed := Play(c, hash, killed, listing);
             var end := Play(c, hash, listed, future);
             && TokenService.ListsLineage(killed.db.rows, lineage, rows)
             && list in listed.lists && listed.lists[list].rows == rows && listed.lists[list].next == |rows|
             && tok in end.minted && end.writes <= MAX_INT64 && Shows(c, end, reading)
             && tok.credential in end.db.rows && end.db.rows[tok.credential].lineage == lineage
    ensures var killed := Killed(c, hash, Play(c, hash, START, past), tx, before, window);
            Refused(c, hash, Play(c, hash, Play(c, hash, killed, listing), future), tok, reading)
  {
    var w := Play(c, hash, START, past);
    var killed := Killed(c, hash, w, tx, before, window);
    var listed := Play(c, hash, killed, listing);
    StartIsOk(c, hash);
    PlayKeepsWorld(c, hash, START, past);
    KilledIsOk(c, hash, w, tx, before, window);
    ResponseKills(c, hash, w, tx, lineage, before, window);
    ReadBackCovers(c, hash, killed, listing, lineage, list, rows);
    DeadInEveryWorld(c, hash, killed, listing, lineage);
    PlayKeepsWorld(c, hash, killed, listing);
    ListedIsRefused(c, hash, listed, future, lineage, list, tok, reading);
  }

  // ---------------------------------------------------------------------
  // The listing as the service runs it
  // ---------------------------------------------------------------------

  /** Time that has passed before the n-th row is dealt with. */
  function Elapsed(ticks: nat -> nat, n: nat): nat {
    if n == 0 then 0 else Elapsed(ticks, n - 1) + ticks(n - 1)
  }

  /** The listing loop, with ticks(i) passing before the i-th row. */
  function ListingActs(list: nat, ticks: nat -> nat, n: nat): seq<Act> {
    if n == 0 then [] else ListingActs(list, ticks, n - 1) + [Tick(ticks(n - 1))] + [ListNext(list)]
  }

  /** The store the listing loop leaves is the one the denylist's own listing leaves,
      at the same store readings, and the listing is finished. */
  lemma {:induction false} ListingLoopIsListed(
    c: Clocks, hash: string -> Bytes, w: World, list: nat, rows: seq<Credential>, cutoff: int, ticks: nat -> nat, clock: nat -> int, n: nat)
    requires list in w.lists && w.lists[list] == Listing(rows, cutoff, 0) && n <= |rows|
    requires forall i: nat :: clock(i) == w.now + c.store + Elapsed(ticks, i + 1)
    ensures var after := Play(c, hash, w, ListingActs(list, ticks, n));
            && after.store == Listed(w.store, hash, rows[..n], cutoff, clock)
            && after.lists == w.lists[list := Listing(rows, cutoff, n)]
            && after.now == w.now + Elapsed(ticks, n) && after.db == w.db && after.minted == w.minted
  {
    if n == 0 {
      assert w.lists[list := Listing(rows, cutoff, 0)] == w.lists;
    } else {
      ListingLoopIsListed(c, hash, w, list, rows, cutoff, ticks, clock, n - 1);
      var acts, tick := ListingActs(list, ticks, n - 1), ticks(n - 1);
      PlaySnoc(c, hash, w, acts, Tick(tick));
      PlaySnoc(c, hash, w, acts + [Tick(tick)], ListNext(list));
      assert clock(n - 1) == w.now + c.store + Elapsed(ticks, n);
      ListingStep(c, hash, w, Play(c, hash, w, acts), list, rows, cutoff, tick, clock, n);
    }
  }

  /** One turn of the loop. */
  lemma {:induction false} ListingStep(
    c: Clocks, hash: string -> Bytes, w: World, mid: World, list: nat, rows: seq<Credential>, cutoff: int, tick: nat, clock: nat -> int, n: nat)
    requires list in w.lists && 0 < n <= |rows|
    requires mid.store == Listed(w.store, hash, rows[..n - 1], cutoff, clock)
    requires mid.lists == w.lists[list := Listing(rows, cutoff, n - 1)]
    requires clock(n - 1) == mid.now + tick + c.store
    ensures var after := Next(c, hash, Next(c, hash, mid, Tick(tick)), ListNext(list));
            && after.store == Listed(w.store, hash, rows[..n], cutoff, clock)
            && after.lists == w.lists[list := Listing(rows, cutoff, n)]
            && after.now == mid.now + tick && after.db == mid.db && after.minted == mid.minted
  {
    ListedOneMore(w.store, hash, rows, cutoff, clock, n);
    var ticked := mid.(now := mid.now + tick);
    assert Next(c, hash, mid, Tick(tick)) == ticked;
    assert ticked.lists[list] == Listing(rows, cutoff, n - 1);
    OneRowListed(c, hash, ticked, list, rows, cutoff, n - 1);
    assert mid.lists[list := Listing(rows, cutoff, n)] == w.lists[list := Listing(rows, cutoff, n)];
  }

  lemma {:induction false} ListedOneMore(m: Entries, hash: string -> Bytes, rows: seq<Credential>, cutoff: int, clock: nat -> int, n: nat)
    requires 0 < n <= |rows|
    ensures var before := Listed(m, hash, rows[..n - 1], cutoff, clock);
            Listed(m, hash, rows[..n], cutoff, clock)
            == if rows[n - 1].issuedAt > cutoff
               then Incremented(before, CredentialKey(hash, rows[n - 1].id), 1, ENTRY_TTL, clock(n - 1)) else before
  {
    assert rows[..n][..n - 1] == rows[..n - 1];
  }

  lemma {:induction false} OneRowListed(c: Clocks, hash: string -> Bytes, w: World, list: nat, rows: seq<Credential>, cutoff: int, i: nat)
    requires list in w.lists && w.lists[list] == Listing(rows, cutoff, i) && i < |rows|
    ensures var after := Next(c, hash, w, ListNext(list));
            && after.lists == w.lists[list := Listing(rows, cutoff, i + 1)]
            && after.now == w.now && after.db == w.db && after.minted == w.minted
            && after.store == if rows[i].issuedAt > cutoff
                              then Incremented(w.store, CredentialKey(hash, rows[i].id), 1, ENTRY_TTL, w.now + c.store)
                              else w.store
  {
  }
}
