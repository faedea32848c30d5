/** What rotation guarantees over every run, whatever the interleaving. */
module RotationSafety {
  import opened Common
  import opened Scopes
  import opened Credentials
  import opened Rotation

  lemma {:induction false} Reachable(events: seq<Event>)
    ensures Inv(Exec(INITIAL, events))
  {
    ExecKeepsInv(INITIAL, events);
  }

  lemma {:induction false} ExecAppend(s: State, a: seq<Event>, b: seq<Event>)
    ensures Exec(s, a + b) == Exec(Exec(s, a), b)
    decreases |a|
  {
    if a == [] {
      assert a + b == b;
    } else {
      assert (a + b)[1..] == a[1..] + b;
      ExecAppend(Step(s, a[0]), a[1..], b);
    }
  }

  // ---------------------------------------------------------------------
  // One linear chain, one live link, one use per token, one authority
  // ---------------------------------------------------------------------

  /** Every lineage is one chain from its root, however transactions interleave and
      whichever of them roll back. */
  lemma {:induction false} LineageIsOneChain(events: seq<Event>, id: string)
    requires id in Exec(INITIAL, events).rows
    ensures var rows := Exec(INITIAL, events).rows;
            exists chain :: IsChain(rows, rows[id].lineage, chain)
  {
    Reachable(events);
    var rows := Exec(INITIAL, events).rows;
    assert RowOk(rows, id);
    assert HasChain(rows, rows[id].lineage);
  }

  /** A lineage never has two active credentials. */
  lemma {:induction false} AtMostOneActive(events: seq<Event>, a: string, b: string)
    requires var rows := Exec(INITIAL, events).rows;
             a in rows && b in rows && rows[a].lineage == rows[b].lineage
             && rows[a].status == Active && rows[b].status == Active
    ensures a == b
  {
    LineageIsOneChain(events, a);
    var rows := Exec(INITIAL, events).rows;
    var chain :| IsChain(rows, rows[a].lineage, chain);
    ActiveIsLast(rows, chain, a);
    ActiveIsLast(rows, chain, b);
  }

  /** A rotated credential's predecessor is a row of the same lineage. */
  lemma {:induction false} PredecessorInLineage(events: seq<Event>, id: string)
    requires var rows := Exec(INITIAL, events).rows; id in rows && rows[id].rotatedFrom.Some?
    ensures var rows := Exec(INITIAL, events).rows;
            rows[id].rotatedFrom.value in rows && rows[rows[id].rotatedFrom.value].lineage == rows[id].lineage
  {
    LineageIsOneChain(events, id);
    var rows := Exec(INITIAL, events).rows;
    var chain :| IsChain(rows, rows[id].lineage, chain);
    var i :| 0 <= i < |chain| && chain[i] == id;
    assert chain[i - 1] in chain;
  }

  /** A refresh token returns a pair from at most one exchange, and has at most one
      successor. */
  lemma {:induction false} TokenIsSingleUse(events: seq<Event>)
    ensures Distinct(Exec(INITIAL, events).exchanged)
    ensures var rows := Exec(INITIAL, events).rows;
            forall a, b :: a in rows && b in rows && a != b && rows[a].rotatedFrom.Some?
                           ==> rows[a].rotatedFrom != rows[b].rotatedFrom
  {
    Reachable(events);
    var rows := Exec(INITIAL, events).rows;
    forall a, b | a in rows && b in rows && rows[a].rotatedFrom.Some? && rows[a].rotatedFrom == rows[b].rotatedFrom
      ensures a == b
    {
      PredecessorInLineage(events, a);
      PredecessorInLineage(events, b);
      LineageIsOneChain(events, a);
      var chain :| IsChain(rows, rows[a].lineage, chain);
      var i :| 0 <= i < |chain| && chain[i] == a;
      var j :| 0 <= j < |chain| && chain[j] == b;
      assert chain[i - 1] == chain[j - 1];
    }
  }

  /** Rotation never changes what the lineage may do, nor whom it speaks for. */
  lemma {:induction false} RotationKeepsAuthority(events: seq<Event>, a: string, b: string, acc: Access)
    requires var rows := Exec(INITIAL, events).rows;
             a in rows && b in rows && rows[a].lineage == rows[b].lineage
    ensures var rows := Exec(INITIAL, events).rows;
            && rows[a].owner == rows[b].owner
            && (Permits(rows[a].scopes, acc) <==> Permits(rows[b].scopes, acc))
  {
    LineageIsOneChain(events, a);
    var rows := Exec(INITIAL, events).rows;
    var chain :| IsChain(rows, rows[a].lineage, chain);
    var i :| 0 <= i < |chain| && chain[i] == a;
    var j :| 0 <= j < |chain| && chain[j] == b;
    assert SameGrant(rows[chain[i]], rows[rows[a].lineage]) && SameGrant(rows[chain[j]], rows[rows[a].lineage]);
  }

  /** The ninety-day cap: every credential of a lineage was issued before the root's
      issue time plus ninety days, and carries exactly that deadline. */
  lemma {:induction false} LineageDeadline(events: seq<Event>, id: string)
    requires id in Exec(INITIAL, events).rows
    ensures var rows := Exec(INITIAL, events).rows;
            && rows[id].lineage in rows
            && rows[id].expiresAt == rows[rows[id].lineage].issuedAt + REFRESH_LINEAGE_LIFETIME
            && rows[id].issuedAt < rows[rows[id].lineage].issuedAt + REFRESH_LINEAGE_LIFETIME
  {
    Reachable(events);
    assert RowOk(Exec(INITIAL, events).rows, id);
  }

  /** Every row of a lineage has its root's owner. */
  lemma {:induction false} OwnerOfLineage(rows: Table, id: string)
    requires RowsOk(rows) && id in rows
    ensures IsRoot(rows, rows[id].lineage) && rows[id].owner == rows[rows[id].lineage].owner
  {
    assert RowOk(rows, id);
    assert HasChain(rows, rows[id].lineage);
    var chain :| IsChain(rows, rows[id].lineage, chain);
    var i :| 0 <= i < |chain| && chain[i] == id;
    assert SameGrant(rows[chain[i]], rows[rows[id].lineage]);
  }

  // ---------------------------------------------------------------------
  // A dead lineage stays dead
  // ---------------------------------------------------------------------

  ghost predicate Dead(rows: Table, lineage: string) {
    && IsRoot(rows, lineage)
    && forall id :: id in rows && rows[id].lineage == lineage ==> rows[id].status == Revoked
  }

  lemma {:induction false} DeadStaysDead(s: State, e: Event, lineage: string)
    requires Inv(s) && Dead(s.rows, lineage)
    ensures Dead(Step(s, e).rows, lineage)
    ensures forall id :: id in Step(s, e).rows && Step(s, e).rows[id].lineage == lineage ==> id in s.rows
    ensures |s.exchanged| <= |Step(s, e).exchanged|
    ensures forall i :: |s.exchanged| <= i < |Step(s, e).exchanged| ==>
              var id := Step(s, e).exchanged[i]; id in s.rows && s.rows[id].lineage != lineage
  {
    if e.Commit? && e.tx in s.open && s.open[e.tx].Inserted? {
      var cred, child := s.open[e.tx].cred, s.open[e.tx].child;
      assert TxOk(s.rows, s.open[e.tx]);
      assert Step(s, e) == State(Exchanged(s.rows, cred.id, child), s.open - {e.tx}, s.exchanged + [cred.id]);
      ExchangeSparesDead(s.rows, cred.id, child, lineage);
    } else {
      OthersSpareDead(s, e, lineage);
    }
  }

  /** An active row is not of a dead lineage, and neither is its successor. */
  lemma {:induction false} ExchangeSparesDead(rows: Table, parent: string, child: Credential, lineage: string)
    requires Dead(rows, lineage) && parent in rows && rows[parent].status == Active
    requires child.id !in rows && child.lineage == rows[parent].lineage
    ensures var after := Exchanged(rows, parent, child);
            && Dead(after, lineage) && rows[parent].lineage != lineage
            && forall id :: id in after && after[id].lineage == lineage ==> id in rows
  {
  }

  lemma {:induction false} OthersSpareDead(s: State, e: Event, lineage: string)
    requires Dead(s.rows, lineage)
    requires !(e.Commit? && e.tx in s.open && s.open[e.tx].Inserted?)
    ensures Dead(Step(s, e).rows, lineage) && Step(s, e).exchanged == s.exchanged
    ensures forall id :: id in Step(s, e).rows && Step(s, e).rows[id].lineage == lineage ==> id in s.rows
  {
    if !e.Issue? && !e.Commit? && !e.CommitRevoke? {
      StatementKeepsTable(s, e);
    }
  }

  /** After the lineage is dead no exchange of any of its tokens, old or new, ever
      returns a pair again. */
  lemma {:induction false} DeadForever(s: State, events: seq<Event>, lineage: string)
    requires Inv(s) && Dead(s.rows, lineage)
    ensures Dead(Exec(s, events).rows, lineage)
    ensures |s.exchanged| <= |Exec(s, events).exchanged|
    ensures forall i :: |s.exchanged| <= i < |Exec(s, events).exchanged| ==>
              var id := Exec(s, events).exchanged[i];
              id in Exec(s, events).rows && Exec(s, events).rows[id].lineage != lineage
    decreases |events|
  {
    if events != [] {
      var next := Step(s, events[0]);
      DeadStaysDead(s, events[0], lineage);
      StepKeepsInv(s, events[0]);
      DeadForever(next, events[1..], lineage);
      ExecPersists(next, events[1..]);
      StepPersists(s, events[0]);
      ExecAppendOnly(next, events[1..]);
    }
  }

  /** Rows are never removed and never change identity; a revoked row stays revoked. */
  ghost predicate Persists(rows: Table, after: Table) {
    forall id :: id in rows ==>
      id in after && SameIdentity(rows[id], after[id]) && (rows[id].status == Revoked ==> after[id].status == Revoked)
  }

  lemma {:induction false} StatementKeepsTable(s: State, e: Event)
    requires !e.Issue? && !e.Commit? && !e.CommitRevoke?
    ensures Step(s, e).rows == s.rows
  {
  }

  lemma {:induction false} StepPersists(s: State, e: Event)
    requires OpenOk(s)
    ensures Persists(s.rows, Step(s, e).rows)
  {
    if e.Commit? {
      if e.tx in s.open && s.open[e.tx].Inserted? {
        assert TxOk(s.rows, s.open[e.tx]);
        ExchangePersists(s.rows, s.open[e.tx].cred.id, s.open[e.tx].child);
      }
    } else if !e.Issue? && !e.CommitRevoke? {
      StatementKeepsTable(s, e);
    }
  }

  lemma {:induction false} ExchangePersists(rows: Table, parent: string, child: Credential)
    requires child.id !in rows && (parent in rows ==> rows[parent].status == Active)
    ensures Persists(rows, Exchanged(rows, parent, child))
  {
  }

  lemma {:induction false} ExecPersists(s: State, events: seq<Event>)
    requires Inv(s)
    ensures Persists(s.rows, Exec(s, events).rows)
    decreases |events|
  {
    if events != [] {
      StepPersists(s, events[0]);
      StepKeepsInv(s, events[0]);
      ExecPersists(Step(s, events[0]), events[1..]);
    }
  }

  lemma {:induction false} ExecAppendOnly(s: State, events: seq<Event>)
    ensures s.exchanged <= Exec(s, events).exchanged
    decreases |events|
  {
    if events != [] {
      ExecAppendOnly(Step(s, events[0]), events[1..]);
    }
  }
}
