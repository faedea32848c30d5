/** Reuse detection: when presenting a spent credential kills its lineage for good.

    The revocation is one update whose target rows are fixed when the statement
    starts. Whether it reaches the whole lineage therefore depends on what commits
    while it runs: never an issue when transactions are serialized, and an exact
    condition when they are not. */
module ReuseDetection {
  import opened Common
  import opened Scopes
  import opened Credentials
  import opened Rotation
  import opened RotationSafety

  /** The event does not end transaction tx. */
  predicate Spares(e: Event, tx: nat) {
    e != Abort(tx) && e != CommitRevoke(tx)
  }

  ghost predicate AllSpare(events: seq<Event>, tx: nat) {
    forall i :: 0 <= i < |events| ==> Spares(events[i], tx)
  }

  /** The event commits an exchange of the lineage. */
  ghost predicate CommitsOn(s: State, e: Event, lineage: string) {
    e.Commit? && e.tx in s.open && s.open[e.tx].Inserted? && s.open[e.tx].child.lineage == lineage
  }

  /** No exchange of this lineage commits; exchanges of others may. */
  ghost predicate NoCommitOn(s: State, events: seq<Event>, lineage: string)
    decreases |events|
  {
    events == [] || (!CommitsOn(s, events[0], lineage) && NoCommitOn(Step(s, events[0]), events[1..], lineage))
  }

  /** The successors that exchanges of the lineage commit. */
  ghost function Successors(s: State, events: seq<Event>, lineage: string): set<string>
    decreases |events|
  {
    if events == [] then {}
    else (if CommitsOn(s, events[0], lineage) then {s.open[events[0].tx].child.id} else {})
         + Successors(Step(s, events[0]), events[1..], lineage)
  }

  /** The event commits a revocation that changed the row. */
  ghost predicate Revokes(s: State, e: Event, id: string) {
    e.CommitRevoke? && e.tx in s.open && s.open[e.tx].Revoking? && s.open[e.tx].todo == {} && id in s.open[e.tx].done
  }

  ghost predicate RevokedIn(s: State, events: seq<Event>, id: string)
    decreases |events|
  {
    events != [] && (Revokes(s, events[0], id) || RevokedIn(Step(s, events[0]), events[1..], id))
  }

  /** A decided revocation keeps its target until it takes its snapshot. */
  lemma {:induction false} ReuseKept(s: State, events: seq<Event>, tx: nat)
    requires tx in s.open && s.open[tx].Reuse? && AllSpare(events, tx)
    requires forall i :: 0 <= i < |events| ==> events[i] != Snapshot(tx)
    ensures tx in Exec(s, events).open && Exec(s, events).open[tx] == s.open[tx]
    decreases |events|
  {
    if events != [] {
      assert Spares(events[0], tx);
      ReuseKept(Step(s, events[0]), events[1..], tx);
    }
  }

  /** Until it ends, a running revocation keeps the rows it saw at its start. */
  lemma {:induction false} SnapshotKept(s: State, events: seq<Event>, tx: nat)
    requires tx in s.open && s.open[tx].Revoking? && AllSpare(events, tx)
    ensures var after := Exec(s, events);
            && tx in after.open && after.open[tx].Revoking?
            && after.open[tx].owner == s.open[tx].owner && after.open[tx].lineage == s.open[tx].lineage
            && after.open[tx].seen == s.open[tx].seen
    decreases |events|
  {
    if events != [] {
      assert Spares(events[0], tx);
      SnapshotKept(Step(s, events[0]), events[1..], tx);
    }
  }

  /** tx has just taken its snapshot of the lineage. */
  ghost predicate JustSnapped(s: State, tx: nat, lineage: string) {
    && IsRoot(s.rows, lineage)
    && tx in s.open && s.open[tx].Revoking? && s.open[tx].lineage == lineage
    && s.open[tx].owner == s.rows[lineage].owner
    && s.open[tx].seen == Revocable(s.rows, s.rows[lineage].owner, lineage)
  }

  /** Credentials that joined the lineage between two states. */
  ghost function Newcomers(s: State, after: State, lineage: string): set<string> {
    Joined(s.rows, after.rows, lineage)
  }

  ghost function Joined(rows: Table, after: Table, lineage: string): set<string> {
    set id | id in after && id !in rows && after[id].lineage == lineage
  }

  /** Every row the revocation saw is changed by it or revoked already. */
  lemma {:induction false} SeenRowsHandled(s: State, window: seq<Event>, tx: nat, lineage: string)
    requires Inv(s) && JustSnapped(s, tx, lineage) && AllSpare(window, tx)
    requires tx in Exec(s, window).open && Exec(s, window).open[tx].Revoking? && Exec(s, window).open[tx].todo == {}
    ensures var after := Exec(s, window);
            && after.open[tx].done <= s.rows.Keys && Persists(s.rows, after.rows)
            && forall id :: id in s.rows && s.rows[id].lineage == lineage ==>
                 id in after.open[tx].done || after.rows[id].status == Revoked
  {
    var after := Exec(s, window);
    SnapshotKept(s, window, tx);
    ExecPersists(s, window);
    ExecKeepsInv(s, window);
    assert TxOk(after.rows, after.open[tx]);
    forall id | id in s.rows && s.rows[id].lineage == lineage
      ensures id in after.open[tx].done || after.rows[id].status == Revoked
    {
      OwnerOfLineage(s.rows, id);
      assert s.rows[id].status != Revoked ==> id in Revocable(s.rows, s.rows[lineage].owner, lineage);
    }
  }

  lemma {:induction false} TableOutcome(rows: Table, after: Table, done: set<string>, now: int, lineage: string)
    requires IsRoot(rows, lineage) && Persists(rows, after) && done <= rows.Keys
    requires forall id :: id in rows && rows[id].lineage == lineage ==> id in done || after[id].status == Revoked
    ensures Dead(WithRevoked(after, done, now), lineage)
            <==> forall id :: id in Joined(rows, after, lineage) ==> after[id].status == Revoked
  {
    var committed := WithRevoked(after, done, now);
    if Dead(committed, lineage) {
      forall id | id in Joined(rows, after, lineage)
        ensures after[id].status == Revoked
      {
        assert committed[id] == after[id];
      }
    } else {
      var id :| id in committed && committed[id].lineage == lineage && committed[id].status != Revoked;
      assert id in Joined(rows, after, lineage);
    }
  }

  // ---------------------------------------------------------------------
  // Who joins a lineage, and which rows end revoked
  // ---------------------------------------------------------------------

  /** One event adds to an existing lineage exactly the successor it commits there. */
  lemma {:induction false} OneJoins(s: State, e: Event, lineage: string)
    requires OpenOk(s) && IsRoot(s.rows, lineage)
    ensures Newcomers(s, Step(s, e), lineage) == if CommitsOn(s, e, lineage) then {s.open[e.tx].child.id} else {}
  {
    if e.Commit? {
      assert e.tx in s.open ==> TxOk(s.rows, s.open[e.tx]);
    } else if !e.Issue? && !e.CommitRevoke? {
      StatementKeepsTable(s, e);
    }
  }

  /** Those who join an existing lineage are exactly the committed successors. */
  lemma {:induction false} JoinersAreSuccessors(s: State, events: seq<Event>, lineage: string)
    requires Inv(s) && IsRoot(s.rows, lineage)
    ensures Newcomers(s, Exec(s, events), lineage) == Successors(s, events, lineage)
    decreases |events|
  {
    if events != [] {
      var next := Step(s, events[0]);
      OneJoins(s, events[0], lineage);
      StepKeepsInv(s, events[0]);
      StepPersists(s, events[0]);
      JoinersAreSuccessors(next, events[1..], lineage);
      ExecPersists(next, events[1..]);
      JoinedInTwo(s.rows, next.rows, Exec(s, events).rows, lineage);
    }
  }

  lemma {:induction false} JoinedInTwo(rows: Table, mid: Table, after: Table, lineage: string)
    requires Persists(rows, mid) && Persists(mid, after)
    ensures Joined(rows, after, lineage) == Joined(rows, mid, lineage) + Joined(mid, after, lineage)
  {
  }

  /** Nobody joins exactly when no exchange of that lineage commits. */
  lemma {:induction false} JoiningNeedsCommit(s: State, events: seq<Event>, lineage: string)
    requires Inv(s) && IsRoot(s.rows, lineage)
    ensures Newcomers(s, Exec(s, events), lineage) == {} <==> NoCommitOn(s, events, lineage)
  {
    JoinersAreSuccessors(s, events, lineage);
    NoSuccessorsIff(s, events, lineage);
  }

  lemma {:induction false} NoSuccessorsIff(s: State, events: seq<Event>, lineage: string)
    ensures Successors(s, events, lineage) == {} <==> NoCommitOn(s, events, lineage)
    decreases |events|
  {
    if events != [] {
      NoSuccessorsIff(Step(s, events[0]), events[1..], lineage);
      if CommitsOn(s, events[0], lineage) {
        assert s.open[events[0].tx].child.id in Successors(s, events, lineage);
      }
    }
  }

  ghost predicate IsRevoked(rows: Table, id: string) {
    id in rows && rows[id].status == Revoked
  }

  lemma {:induction false} OneRevokes(s: State, e: Event, id: string)
    requires OpenOk(s)
    ensures IsRevoked(Step(s, e).rows, id) <==> IsRevoked(s.rows, id) || Revokes(s, e, id)
  {
    if e.Commit? || e.CommitRevoke? {
      assert e.tx in s.open ==> TxOk(s.rows, s.open[e.tx]);
    } else if !e.Issue? {
      StatementKeepsTable(s, e);
    }
  }

  /** A row ends revoked exactly when it was or a committed revocation changed it. */
  lemma {:induction false} RevokedIff(s: State, events: seq<Event>, id: string)
    requires Inv(s)
    ensures IsRevoked(Exec(s, events).rows, id) <==> IsRevoked(s.rows, id) || RevokedIn(s, events, id)
    decreases |events|
  {
    if events != [] {
      OneRevokes(s, events[0], id);
      StepKeepsInv(s, events[0]);
      RevokedIff(Step(s, events[0]), events[1..], id);
    }
  }

  /** The exact condition, over what happened while the statement ran: the committed
      revocation leaves the lineage dead if and only if every exchange of that lineage
      that committed meanwhile had its successor revoked by another revocation. */
  lemma {:induction false} RevocationOutcome(s: State, window: seq<Event>, tx: nat, lineage: string)
    requires Inv(s) && JustSnapped(s, tx, lineage) && AllSpare(window, tx)
    requires tx in Exec(s, window).open && Exec(s, window).open[tx].Revoking? && Exec(s, window).open[tx].todo == {}
    ensures Dead(Step(Exec(s, window), CommitRevoke(tx)).rows, lineage)
            <==> forall id :: id in Successors(s, window, lineage) ==> RevokedIn(s, window, id)
  {
    var after := Exec(s, window);
    SeenRowsHandled(s, window, tx, lineage);
    CommittedRevocation(after, tx);
    TableOutcome(s.rows, after.rows, after.open[tx].done, after.open[tx].now, lineage);
    JoinersAreSuccessors(s, window, lineage);
    forall id | id in Successors(s, window, lineage)
      ensures after.rows[id].status == Revoked <==> RevokedIn(s, window, id)
    {
      assert id in Joined(s.rows, after.rows, lineage);
      RevokedIff(s, window, id);
    }
  }

  lemma {:induction false} CommittedRevocation(s: State, tx: nat)
    requires tx in s.open && s.open[tx].Revoking? && s.open[tx].todo == {}
    ensures Step(s, CommitRevoke(tx)).rows == WithRevoked(s.rows, s.open[tx].done, s.open[tx].now)
  {
  }

  /** Reuse of the lineage was detected and its revocation is about to run. */
  ghost predicate Detected(s: State, tx: nat, lineage: string) {
    && IsRoot(s.rows, lineage)
    && tx in s.open && s.open[tx].Reuse? && s.open[tx].lineage == lineage && s.open[tx].owner == s.rows[lineage].owner
  }

  /** Presenting a credential that is no longer active, with its secret and an active
      owner, is detected when the row is read. */
  lemma {:induction false} ReplayIsDetected(s: State, tx: nat, id: string, digest: Bytes, now: int)
    requires Inv(s) && tx !in s.open && Authentic(s.rows, id, digest, true) && s.rows[id].status != Active
    ensures Detected(Step(s, Read(tx, id, digest, true, now)), tx, s.rows[id].lineage)
  {
    OwnerOfLineage(s.rows, id);
    assert Step(s, Read(tx, id, digest, true, now)) == s.(open := s.open[tx := Reuse(s.rows[id].owner, s.rows[id].lineage, now)]);
  }

  /** An exchange that read the row active and lost it to another before its own update
      is detected by that update. */
  lemma {:induction false} LostRaceIsDetected(s: State, tx: nat)
    requires Inv(s) && tx in s.open && s.open[tx].Checked?
    requires var id := s.open[tx].cred.id; !LockedByOther(s, tx, id) && id in s.rows && s.rows[id].status != Active
    ensures var id := s.open[tx].cred.id; Detected(Step(s, Rotate(tx)), tx, s.rows[id].lineage)
  {
    var cred, now := s.open[tx].cred, s.open[tx].now;
    assert TxOk(s.rows, s.open[tx]);
    OwnerOfLineage(s.rows, cred.id);
    assert Step(s, Rotate(tx)) == s.(open := s.open[tx := Reuse(cred.owner, cred.lineage, now)]);
  }

  /** While the revocation waits to start, its target stays. */
  lemma {:induction false} DetectionKept(s: State, tx: nat, lineage: string, before: seq<Event>)
    requires Inv(s) && Detected(s, tx, lineage)
    requires AllSpare(before, tx) && forall i :: 0 <= i < |before| ==> before[i] != Snapshot(tx)
    ensures Inv(Exec(s, before)) && Detected(Exec(s, before), tx, lineage)
  {
    ReuseKept(s, before, tx);
    ExecPersists(s, before);
    ExecKeepsInv(s, before);
    assert SameIdentity(s.rows[lineage], Exec(s, before).rows[lineage]);
  }

  lemma {:induction false} DetectedSnaps(s: State, tx: nat, lineage: string)
    requires Detected(s, tx, lineage)
    ensures JustSnapped(Step(s, Snapshot(tx)), tx, lineage)
  {
  }

  /** Reuse kills for good. Reuse of a lineage was detected and its revocation commits.
      Whatever else ran, the lineage is then dead exactly when every exchange of that
      lineage that committed during the revoking statement had its successor revoked;
      so always when none did, whatever other lineages did. A dead lineage never
      returns a pair again, for any of its credentials, in any continuation. */
  lemma {:induction false} ReuseKillsForGood(s: State, tx: nat, lineage: string, before: seq<Event>, window: seq<Event>, later: seq<Event>)
    requires Inv(s) && Detected(s, tx, lineage)
    requires AllSpare(before, tx) && forall i :: 0 <= i < |before| ==> before[i] != Snapshot(tx)
    requires AllSpare(window, tx)
    requires var ready := Exec(Step(Exec(s, before), Snapshot(tx)), window);
             tx in ready.open && ready.open[tx].Revoking? && ready.open[tx].todo == {}
    ensures var snapped := Step(Exec(s, before), Snapshot(tx));
            var killed := Step(Exec(snapped, window), CommitRevoke(tx));
            && (Dead(killed.rows, lineage) <==>
                  forall k :: k in Successors(snapped, window, lineage) ==> RevokedIn(snapped, window, k))
            && (NoCommitOn(snapped, window, lineage) ==> Dead(killed.rows, lineage))
            && (Dead(killed.rows, lineage) ==> NeverAgain(killed, later, lineage))
  {
    DetectionKept(s, tx, lineage, before);
    var waiting := Exec(s, before);
    DetectedSnaps(waiting, tx, lineage);
    StepKeepsInv(waiting, Snapshot(tx));
    KilledFrom(Step(waiting, Snapshot(tx)), tx, lineage, window, later);
  }

  lemma {:induction false} KilledFrom(snapped: State, tx: nat, lineage: string, window: seq<Event>, later: seq<Event>)
    requires Inv(snapped) && JustSnapped(snapped, tx, lineage) && AllSpare(window, tx)
    requires var ready := Exec(snapped, window); tx in ready.open && ready.open[tx].Revoking? && ready.open[tx].todo == {}
    ensures var killed := Step(Exec(snapped, window), CommitRevoke(tx));
            && (Dead(killed.rows, lineage) <==>
                  forall k :: k in Successors(snapped, window, lineage) ==> RevokedIn(snapped, window, k))
            && (NoCommitOn(snapped, window, lineage) ==> Dead(killed.rows, lineage))
            && (Dead(killed.rows, lineage) ==> NeverAgain(killed, later, lineage))
  {
    RevocationOutcome(snapped, window, tx, lineage);
    NoSuccessorsIff(snapped, window, lineage);
    ExecKeepsInv(snapped, window);
    StepKeepsInv(Exec(snapped, window), CommitRevoke(tx));
    var killed := Step(Exec(snapped, window), CommitRevoke(tx));
    if Dead(killed.rows, lineage) {
      NothingReturned(killed, later, lineage);
    }
  }

  /** No exchange of the lineage returns a pair in the continuation. */
  ghost predicate NeverAgain(s: State, later: seq<Event>, lineage: string) {
    var end := Exec(s, later);
    && s.exchanged <= end.exchanged
    && forall i :: |s.exchanged| <= i < |end.exchanged| ==>
         end.exchanged[i] in end.rows && end.rows[end.exchanged[i]].lineage != lineage
  }

  lemma {:induction false} NothingReturned(s: State, later: seq<Event>, lineage: string)
    requires Inv(s) && Dead(s.rows, lineage)
    ensures NeverAgain(s, later, lineage)
  {
    DeadForever(s, later, lineage);
    ExecAppendOnly(s, later);
  }

  // ---------------------------------------------------------------------
  // Consecutive statements, and a run in which the revocation misses
  // ---------------------------------------------------------------------

  function ExchangeRun(tx: nat, id: string, digest: Bytes, now: int, childId: string, childHash: Bytes): seq<Event> {
    [Read(tx, id, digest, true, now), Rotate(tx), Insert(tx, childId, childHash), Commit(tx)]
  }

  lemma {:induction false} ExecFour(s: State, a: Event, b: Event, c: Event, d: Event)
    ensures Exec(s, [a, b, c, d]) == Step(Step(Step(Step(s, a), b), c), d)
  {
    assert [a, b, c, d][1..] == [b, c, d] && [b, c, d][1..] == [c, d] && [c, d][1..] == [d] && [d][1..] == [];
    assert Exec(s, [a, b, c, d]) == Exec(Step(s, a), [b, c, d]);
    assert Exec(Step(Step(s, a), b), [c, d]) == Exec(Step(Step(Step(s, a), b), c), [d]);
  }

  /** The statements of an exchange run back to back consume the credential and
      install its successor, and leave everybody else's transactions alone. */
  lemma {:induction false} ConsecutiveExchange(s: State, tx: nat, id: string, digest: Bytes, now: int, childId: string, childHash: Bytes)
    requires tx !in s.open && Authentic(s.rows, id, digest, true) && s.rows[id].status == Active
    requires now < s.rows[id].expiresAt && Grantable(s.rows[id].scopes)
    requires !LockedByOther(s, tx, id) && childId != "" && Fresh(s, childId)
    ensures Exec(s, ExchangeRun(tx, id, digest, now, childId, childHash))
         == State(Exchanged(s.rows, id, ChildCredential(s.rows[id], childId, childHash, now)), s.open, s.exchanged + [id])
  {
    var cred := s.rows[id];
    var child := ChildCredential(cred, childId, childHash, now);
    var read := Step(s, Read(tx, id, digest, true, now));
    assert read == s.(open := s.open[tx := Checked(cred, now)]);
    assert !LockedByOther(read, tx, id);
    var held := Step(read, Rotate(tx));
    assert held == s.(open := s.open[tx := Holding(cred, now)]);
    var inserted := Step(held, Insert(tx, childId, childHash));
    assert inserted == s.(open := s.open[tx := Inserted(cred, child)]);
    assert s.open[tx := Inserted(cred, child)] - {tx} == s.open;
    ExecFour(s, Read(tx, id, digest, true, now), Rotate(tx), Insert(tx, childId, childHash), Commit(tx));
  }

  function RevokeAll(tx: nat, order: seq<string>): seq<Event> {
    seq(|order|, i requires 0 <= i < |order| => RevokeRow(tx, order[i]))
  }

  function Members(s: seq<string>): set<string> { set x | x in s }

  lemma {:induction false} RevokesFirst(s: State, tx: nat, order: seq<string>)
    requires tx in s.open && s.open[tx].Revoking? && s.open[tx].todo == Members(order) && Distinct(order) && order != []
    requires var id := order[0]; id in s.rows && s.rows[id].status != Revoked && !LockedByOther(s, tx, id)
    ensures Step(s, RevokeRow(tx, order[0]))
         == s.(open := s.open[tx := s.open[tx].(todo := Members(order[1..]), done := s.open[tx].done + {order[0]})])
  {
    assert order == [order[0]] + order[1..];
    assert Members(order) - {order[0]} == Members(order[1..]);
  }

  lemma {:induction false} RevokesRest(s: State, tx: nat, order: seq<string>)
    requires tx in s.open && s.open[tx].Revoking? && s.open[tx].todo == Members(order) && Distinct(order)
    requires forall id :: id in order ==> id in s.rows && s.rows[id].status != Revoked && !LockedByOther(s, tx, id)
    ensures Exec(s, RevokeAll(tx, order))
         == s.(open := s.open[tx := s.open[tx].(todo := {}, done := s.open[tx].done + Members(order))])
    decreases |order|
  {
    var t := s.open[tx];
    if order == [] {
      assert t.(todo := {}, done := t.done + Members(order)) == t;
      assert s.open[tx := t] == s.open;
    } else {
      var rest := order[1..];
      assert order == [order[0]] + rest;
      assert RevokeAll(tx, order)[1..] == RevokeAll(tx, rest);
      var next := s.(open := s.open[tx := t.(todo := Members(rest), done := t.done + {order[0]})]);
      RevokesFirst(s, tx, order);
      forall id | id in rest
        ensures id in s.rows && s.rows[id].status != Revoked && !LockedByOther(next, tx, id)
      {
        assert id in order;
        assert LockedByOther(next, tx, id) ==> LockedByOther(s, tx, id);
      }
      RevokesRest(next, tx, rest);
      assert t.done + {order[0]} + Members(rest) == t.done + Members(order);
      assert next.open[tx := t.(todo := {}, done := t.done + Members(order))]
          == s.open[tx := t.(todo := {}, done := t.done + Members(order))];
    }
  }

  /** The statements of a revocation run back to back revoke the whole lineage: the
      concurrent model without interleaving is the serialized one. */
  lemma {:induction false} ConsecutiveRevocation(s: State, tx: nat, order: seq<string>)
    requires tx in s.open && s.open[tx].Reuse? && Distinct(order)
    requires Members(order) == Revocable(s.rows, s.open[tx].owner, s.open[tx].lineage)
    requires forall id :: id in order ==> !LockedByOther(s, tx, id)
    ensures var t := s.open[tx];
            Step(Exec(Step(s, Snapshot(tx)), RevokeAll(tx, order)), CommitRevoke(tx)) ==
            State(RevokeLineage(s.rows, t.owner, t.lineage, t.now), s.open - {tx}, s.exchanged)
  {
    var t := s.open[tx];
    var seen := Members(order);
    var snapped := s.(open := s.open[tx := Revoking(t.owner, t.lineage, t.now, seen, seen, {})]);
    assert Step(s, Snapshot(tx)) == snapped;
    forall id | id in order
      ensures !LockedByOther(snapped, tx, id) && id in s.rows && s.rows[id].status != Revoked
    {
      assert id in seen;
    }
    RevokesRest(snapped, tx, order);
    assert {} + seen == seen;
    var done := Revoking(t.owner, t.lineage, t.now, seen, {}, seen);
    assert snapped.open[tx := done] - {tx} == s.open - {tx};
  }

  const FIRST := RootCredential("a", "owner", [1], FULL_GRANT, "", 0)
  const SECOND := ChildCredential(FIRST, "b", [2], 1)
  const THIRD := ChildCredential(SECOND, "c", [3], 3)

  /** The lineage after its first exchange: a is spent, b is active. */
  const ROTATED_ONCE := State(map["a" := FIRST.(status := Rotated), "b" := SECOND], map[], ["a"])

  lemma {:induction false} RotatedOnceReachable()
    ensures Exec(Step(INITIAL, Issue(FIRST)), ExchangeRun(1, "a", [1], 1, "b", [2])) == ROTATED_ONCE
  {
    FullGrantIsGrantable();
    var issued := Step(INITIAL, Issue(FIRST));
    assert issued == State(map["a" := FIRST], map[], []);
    ConsecutiveExchange(issued, 1, "a", [1], 1, "b", [2]);
  }

  /** The replay of a has been detected and its revocation is running. */
  const SNAPPED := ROTATED_ONCE.(open := map[2 := Running({"a", "b"}, {})])

  /** Meanwhile b was exchanged for c. */
  const RACED := State(map["a" := FIRST.(status := Rotated), "b" := SECOND.(status := Rotated), "c" := THIRD],
                       SNAPPED.open, ["a", "b"])

  /** The revocation has committed. */
  const KILLED := State(map["a" := RevokedRow(FIRST), "b" := RevokedRow(SECOND), "c" := THIRD], map[], ["a", "b"])

  function Running(todo: set<string>, done: set<string>): Tx {
    Revoking("owner", "a", 2, {"a", "b"}, todo, done)
  }

  function RevokedRow(row: Credential): Credential {
    row.(status := Revoked, revokedAt := Some(2))
  }

  lemma {:induction false} SnappedReachable()
    ensures Step(Step(ROTATED_ONCE, Read(2, "a", [1], true, 2)), Snapshot(2)) == SNAPPED
  {
    var reuse := Step(ROTATED_ONCE, Read(2, "a", [1], true, 2));
    assert reuse.open == map[2 := Reuse("owner", "a", 2)];
    assert Revocable(ROTATED_ONCE.rows, "owner", "a") == {"a", "b"};
  }

  lemma {:induction false} RacedReachable()
    ensures Exec(SNAPPED, ExchangeRun(3, "b", [2], 3, "c", [3])) == RACED
  {
    FullGrantIsGrantable();
    ConsecutiveExchange(SNAPPED, 3, "b", [2], 3, "c", [3]);
  }

  /** The revocation has reached a. */
  const HALFWAY := RACED.(open := map[2 := Running({"b"}, {"a"})])

  /** The revocation has reached a and b. */
  const READY := RACED.(open := map[2 := Running({}, {"a", "b"})])

  lemma {:induction false} HalfwayReachable()
    ensures Step(RACED, RevokeRow(2, "a")) == HALFWAY
  {
    assert {"a", "b"} - {"a"} == {"b"} && {} + {"a"} == {"a"};
    assert RACED.open[2 := Running({"b"}, {"a"})] == HALFWAY.open;
  }

  lemma {:induction false} ReadyReachable()
    ensures Step(HALFWAY, RevokeRow(2, "b")) == READY
  {
    assert {"b"} - {"b"} == {} && {"a"} + {"b"} == {"a", "b"};
    assert !LockedByOther(HALFWAY, 2, "b");
    assert HALFWAY.open[2 := Running({}, {"a", "b"})] == READY.open;
  }

  lemma {:induction false} KilledReachable()
    ensures Step(Step(Step(RACED, RevokeRow(2, "a")), RevokeRow(2, "b")), CommitRevoke(2)) == KILLED
  {
    HalfwayReachable();
    ReadyReachable();
    ReadyCommits();
  }

  lemma {:induction false} ReadyCommits()
    ensures Step(READY, CommitRevoke(2)) == KILLED
  {
    assert READY.open - {2} == map[];
    RevokedRows();
  }

  lemma {:induction false} RevokedRows()
    ensures WithRevoked(RACED.rows, {"a", "b"}, 2) == KILLED.rows
  {
  }

  lemma {:induction false} SurvivorExchanges()
    ensures Exec(KILLED, ExchangeRun(4, "c", [3], 4, "d", [4])).exchanged == ["a", "b", "c"]
  {
    FullGrantIsGrantable();
    ConsecutiveExchange(KILLED, 4, "c", [3], 4, "d", [4]);
  }

  /** READ COMMITTED: the replay of a is detected and its revocation commits, yet the
      successor that b's holder committed while the revocation ran stays active and
      can be exchanged. */
  lemma {:induction false} SurvivorUnderReadCommitted()
    ensures var rotated := Exec(Step(INITIAL, Issue(FIRST)), ExchangeRun(1, "a", [1], 1, "b", [2]));
            var snapped := Step(Step(rotated, Read(2, "a", [1], true, 2)), Snapshot(2));
            var raced := Exec(snapped, ExchangeRun(3, "b", [2], 3, "c", [3]));
            var killed := Step(Step(Step(raced, RevokeRow(2, "a")), RevokeRow(2, "b")), CommitRevoke(2));
            && killed.open == map[]
            && (forall id :: id in {"a", "b", "c"} ==> id in killed.rows && killed.rows[id].lineage == "a")
            && killed.rows["a"].status == Revoked && killed.rows["b"].status == Revoked
            && killed.rows["c"].status == Active
            && Exec(killed, ExchangeRun(4, "c", [3], 4, "d", [4])).exchanged == ["a", "b", "c"]
  {
    RotatedOnceReachable();
    SnappedReachable();
    RacedReachable();
    KilledReachable();
    SurvivorExchanges();
  }
}
