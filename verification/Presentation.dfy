/** Whose doing it was: over every run, a pair is returned only for a credential that was
    presented with its own secret while its owner was active, and a lineage is revoked
    only after such a presentation or an explicit revocation. */
module Presentation {
  import opened Common
  import opened Scopes
  import opened Credentials
  import opened Rotation
  import opened RotationSafety

  /** Reading the row opens a transaction exactly for its own secret, an active owner
      and a row that is spent or still current. */
  lemma {:induction false} ReadOpensIff(s: State, tx: nat, id: string, digest: Bytes, ownerActive: bool, now: int)
    requires tx !in s.open
    ensures tx in Step(s, Read(tx, id, digest, ownerActive, now)).open <==>
              && id in s.rows && s.rows[id].secretHash == digest && ownerActive
              && s.rows[id].id == id && s.rows[id].owner != "" && s.rows[id].lineage != ""
              && (s.rows[id].status != Active || (now < s.rows[id].expiresAt && Grantable(s.rows[id].scopes)))
  {
  }

  /** The event presents the credential with this digest and an active owner. */
  predicate Presents(e: Event, id: string, digest: Bytes) {
    e.Read? && e.id == id && e.digest == digest && e.ownerActive
  }

  ghost predicate Presented(events: seq<Event>, id: string, digest: Bytes) {
    exists i :: 0 <= i < |events| && Presents(events[i], id, digest)
  }

  /** A row of the lineage was presented with its secret, or the lineage was revoked by
      request. */
  ghost predicate Caused(events: seq<Event>, rows: Table, lineage: string) {
    || (exists id :: id in rows && rows[id].lineage == lineage && Presented(events, id, rows[id].secretHash))
    || (exists i :: 0 <= i < |events| && events[i].StartRevoke? && events[i].lineage == lineage)
  }

  ghost predicate TxCaused(events: seq<Event>, rows: Table, tx: Tx) {
    match tx
    case Checked(cred, _) => Presented(events, cred.id, cred.secretHash)
    case Holding(cred, _) => Presented(events, cred.id, cred.secretHash)
    case Inserted(cred, _) => Presented(events, cred.id, cred.secretHash)
    case Reuse(_, lineage, _) => Caused(events, rows, lineage)
    case Revoking(_, lineage, _, _, _, _) => Caused(events, rows, lineage)
  }

  /** Everything that happened was caused by one of the events. */
  ghost predicate AllCaused(events: seq<Event>, s: State) {
    && (forall t :: t in s.open ==> TxCaused(events, s.rows, s.open[t]))
    && (forall id :: id in s.exchanged ==> id in s.rows && Presented(events, id, s.rows[id].secretHash))
    && (forall id :: id in s.rows && s.rows[id].status == Revoked ==> Caused(events, s.rows, s.rows[id].lineage))
  }

  lemma {:induction false} PresentedStays(past: seq<Event>, e: Event, id: string, digest: Bytes)
    requires Presented(past, id, digest)
    ensures Presented(past + [e], id, digest)
  {
    var i :| 0 <= i < |past| && Presents(past[i], id, digest);
    assert (past + [e])[i] == past[i];
  }

  lemma {:induction false} PresentedNow(past: seq<Event>, e: Event, id: string, digest: Bytes)
    requires Presents(e, id, digest)
    ensures Presented(past + [e], id, digest)
  {
    assert (past + [e])[|past|] == e;
  }

  lemma {:induction false} CausedStays(past: seq<Event>, e: Event, rows: Table, after: Table, lineage: string)
    requires Caused(past, rows, lineage) && Persists(rows, after)
    ensures Caused(past + [e], after, lineage)
  {
    if id :| id in rows && rows[id].lineage == lineage && Presented(past, id, rows[id].secretHash) {
      PresentedStays(past, e, id, rows[id].secretHash);
      assert SameIdentity(rows[id], after[id]);
    } else {
      var i :| 0 <= i < |past| && past[i].StartRevoke? && past[i].lineage == lineage;
      assert (past + [e])[i] == past[i];
    }
  }

  lemma {:induction false} CausedByRow(events: seq<Event>, rows: Table, id: string)
    requires id in rows && Presented(events, id, rows[id].secretHash)
    ensures Caused(events, rows, rows[id].lineage)
  {
  }

  lemma {:induction false} TxCausedStays(past: seq<Event>, e: Event, rows: Table, after: Table, tx: Tx)
    requires TxCaused(past, rows, tx) && Persists(rows, after)
    ensures TxCaused(past + [e], after, tx)
  {
    match tx
    case Checked(cred, _) => PresentedStays(past, e, cred.id, cred.secretHash);
    case Holding(cred, _) => PresentedStays(past, e, cred.id, cred.secretHash);
    case Inserted(cred, _) => PresentedStays(past, e, cred.id, cred.secretHash);
    case Reuse(_, lineage, _) => CausedStays(past, e, rows, after, lineage);
    case Revoking(_, lineage, _, _, _, _) => CausedStays(past, e, rows, after, lineage);
  }

  /** What a statement turns its own transaction into. */
  lemma {:induction false} OwnTxCaused(past: seq<Event>, s: State, e: Event)
    requires !e.Issue? && !e.Commit? && !e.CommitRevoke? && e.tx in Step(s, e).open
    requires e.tx in s.open ==> TxCaused(past, s.rows, s.open[e.tx]) && TxOk(s.rows, s.open[e.tx])
    ensures TxCaused(past + [e], s.rows, Step(s, e).open[e.tx])
  {
    StatementKeepsTable(s, e);
    if e.tx in s.open {
      TxCausedStays(past, e, s.rows, s.rows, s.open[e.tx]);
    }
    match e
    case Read(_, id, digest, _, _) =>
      if e.tx !in s.open {
        PresentedNow(past, e, id, digest);
        CausedByRow(past + [e], s.rows, id);
      }
    case Rotate(_) =>
      if s.open[e.tx].Checked? {
        var cred := s.open[e.tx].cred;
        assert SameIdentity(cred, s.rows[cred.id]);
        CausedByRow(past + [e], s.rows, cred.id);
      }
    case StartRevoke(_, _, lineage, _) =>
      assert (past + [e])[|past|] == e;
    case _ =>
  }

  lemma {:induction false} StepKeepsTxCaused(past: seq<Event>, s: State, e: Event, t: nat)
    requires Inv(s) && AllCaused(past, s) && t in Step(s, e).open
    ensures TxCaused(past + [e], Step(s, e).rows, Step(s, e).open[t])
  {
    StepPersists(s, e);
    if t in s.open && Step(s, e).open[t] == s.open[t] {
      TxCausedStays(past, e, s.rows, Step(s, e).rows, s.open[t]);
    } else {
      OnlyOwnMoves(s, e, t);
      assert t in s.open ==> TxOk(s.rows, s.open[t]);
      StatementKeepsTable(s, e);
      OwnTxCaused(past, s, e);
    }
  }

  lemma {:induction false} OnlyOwnMoves(s: State, e: Event, t: nat)
    requires t in Step(s, e).open && (t !in s.open || Step(s, e).open[t] != s.open[t])
    ensures !e.Issue? && !e.Commit? && !e.CommitRevoke? && e.tx == t
  {
  }

  /** A row that becomes revoked belongs to a lineage whose revocation was caused. */
  lemma {:induction false} RevokedIsCaused(past: seq<Event>, s: State, e: Event, id: string)
    requires Inv(s) && AllCaused(past, s)
    requires id in Step(s, e).rows && Step(s, e).rows[id].status == Revoked
    ensures Caused(past + [e], Step(s, e).rows, Step(s, e).rows[id].lineage)
  {
    StepPersists(s, e);
    if id in s.rows && s.rows[id].status == Revoked {
      CausedStays(past, e, s.rows, Step(s, e).rows, s.rows[id].lineage);
    } else {
      NewlyRevoked(s, e, id);
      var t := s.open[e.tx];
      assert TxOk(s.rows, t) && TxCaused(past, s.rows, t);
      CausedStays(past, e, s.rows, Step(s, e).rows, t.lineage);
    }
  }

  lemma {:induction false} NewlyRevoked(s: State, e: Event, id: string)
    requires OpenOk(s) && id in Step(s, e).rows && Step(s, e).rows[id].status == Revoked
    requires !(id in s.rows && s.rows[id].status == Revoked)
    ensures e.CommitRevoke? && e.tx in s.open && s.open[e.tx].Revoking? && id in s.open[e.tx].done && id in s.rows
    ensures Step(s, e).rows[id].lineage == s.rows[id].lineage == s.open[e.tx].lineage
  {
    if e.Commit? || e.CommitRevoke? {
      assert e.tx in s.open ==> TxOk(s.rows, s.open[e.tx]);
    } else if !e.Issue? {
      StatementKeepsTable(s, e);
    }
  }

  lemma {:induction false} ExchangedIsPresented(past: seq<Event>, s: State, e: Event, id: string)
    requires Inv(s) && AllCaused(past, s) && id in Step(s, e).exchanged
    ensures id in Step(s, e).rows && Presented(past + [e], id, Step(s, e).rows[id].secretHash)
  {
    StepPersists(s, e);
    if id in s.exchanged {
      PresentedStays(past, e, id, s.rows[id].secretHash);
      assert SameIdentity(s.rows[id], Step(s, e).rows[id]);
    } else {
      NewlyExchanged(s, e, id);
      var cred := s.open[e.tx].cred;
      assert TxOk(s.rows, s.open[e.tx]) && TxCaused(past, s.rows, s.open[e.tx]);
      PresentedStays(past, e, cred.id, cred.secretHash);
      assert SameIdentity(cred, s.rows[cred.id]) && SameIdentity(s.rows[cred.id], Step(s, e).rows[cred.id]);
    }
  }

  lemma {:induction false} NewlyExchanged(s: State, e: Event, id: string)
    requires id in Step(s, e).exchanged && id !in s.exchanged
    ensures e.Commit? && e.tx in s.open && s.open[e.tx].Inserted? && s.open[e.tx].cred.id == id
  {
  }

  lemma {:induction false} StepKeepsCaused(past: seq<Event>, s: State, e: Event)
    requires Inv(s) && AllCaused(past, s)
    ensures AllCaused(past + [e], Step(s, e))
  {
    forall t | t in Step(s, e).open
      ensures TxCaused(past + [e], Step(s, e).rows, Step(s, e).open[t])
    {
      StepKeepsTxCaused(past, s, e, t);
    }
    forall id | id in Step(s, e).exchanged
      ensures id in Step(s, e).rows && Presented(past + [e], id, Step(s, e).rows[id].secretHash)
    {
      ExchangedIsPresented(past, s, e, id);
    }
    forall id | id in Step(s, e).rows && Step(s, e).rows[id].status == Revoked
      ensures Caused(past + [e], Step(s, e).rows, Step(s, e).rows[id].lineage)
    {
      RevokedIsCaused(past, s, e, id);
    }
  }

  lemma {:induction false} RunIsCaused(past: seq<Event>, s: State, events: seq<Event>)
    requires Inv(s) && AllCaused(past, s)
    ensures AllCaused(past + events, Exec(s, events))
    decreases |events|
  {
    if events == [] {
      assert past + events == past;
    } else {
      StepKeepsCaused(past, s, events[0]);
      StepKeepsInv(s, events[0]);
      RunIsCaused(past + [events[0]], Step(s, events[0]), events[1..]);
      assert past + events == (past + [events[0]]) + events[1..];
    }
  }

  /** Over every run each exchanged credential was presented with its own secret while
      its owner was active. */
  lemma {:induction false} ExchangeNeedsSecret(events: seq<Event>, id: string)
    requires id in Exec(INITIAL, events).exchanged
    ensures var rows := Exec(INITIAL, events).rows;
            id in rows && exists i :: 0 <= i < |events| && Presents(events[i], id, rows[id].secretHash)
  {
    RunIsCaused([], INITIAL, events);
    assert [] + events == events;
  }

  /** Over every run a revoked credential's lineage had one of its credentials presented
      with its own secret, or was revoked by request: nobody without a secret of the
      lineage can kill it. */
  lemma {:induction false} RevocationNeedsSecret(events: seq<Event>, id: string)
    requires var rows := Exec(INITIAL, events).rows; id in rows && rows[id].status == Revoked
    ensures var rows := Exec(INITIAL, events).rows;
            || (exists k :: k in rows && rows[k].lineage == rows[id].lineage && Presented(events, k, rows[k].secretHash))
            || (exists i :: 0 <= i < |events| && events[i].StartRevoke? && events[i].lineage == rows[id].lineage)
  {
    RunIsCaused([], INITIAL, events);
    assert [] + events == events;
  }
}
