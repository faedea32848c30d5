/** Refresh rotation under concurrency, statement by statement.

    An exchange is one transaction of several statements. PostgreSQL runs the
    transactions at READ COMMITTED: each statement sees the rows committed when it
    starts, an update waits for a row another open transaction has changed and then
    tests its condition again, and an open transaction's writes are seen by nobody
    else. SQLite runs the transactions one at a time, which is the special case in
    which the events of one transaction are consecutive. A transaction may abort
    between any two statements: a storage fault, a crash or a deadlock victim. */
module Rotation {
  import opened Common
  import opened Scopes
  import opened Credentials

  /** An open transaction, by the statement it has finished. */
  datatype Tx =
    | Checked(cred: Credential, now: int)          // row read and every check passed
    | Holding(cred: Credential, now: int)          // MarkRotated matched: its row is locked
    | Inserted(cred: Credential, child: Credential)  // successor created, not committed
    | Reuse(owner: string, lineage: string, now: int)  // lineage revocation decided
    | Revoking(owner: string, lineage: string, now: int,
               seen: set<string>,                  // rows matched when the update began
               todo: set<string>,                  // of those, not reached yet
               done: set<string>)                  // of those, changed and locked

  /** rows is the committed table; exchanged lists the presented credential of
      every exchange that committed and returned a pair, in commit order. */
  datatype State = State(rows: Table, open: map<nat, Tx>, exchanged: seq<string>)

  datatype Event =
    | Issue(root: Credential)
    | Read(tx: nat, id: string, digest: Bytes, ownerActive: bool, now: int)
    | Rotate(tx: nat)
    | Insert(tx: nat, childId: string, childHash: Bytes)
    | Commit(tx: nat)
    | StartRevoke(tx: nat, owner: string, lineage: string, now: int)
    | Snapshot(tx: nat)
    | RevokeRow(tx: nat, id: string)
    | CommitRevoke(tx: nat)
    | Abort(tx: nat)

  const INITIAL := State(map[], map[], [])

  /** The transaction has an uncommitted change on the row. */
  predicate Locks(tx: Tx, id: string) {
    match tx
    case Holding(cred, _) => cred.id == id
    case Inserted(cred, _) => cred.id == id
    case Revoking(_, _, _, _, _, done) => id in done
    case _ => false
  }

  ghost predicate LockedByOther(s: State, tx: nat, id: string) {
    exists other :: other in s.open && other != tx && Locks(s.open[other], id)
  }

  /** Identifiers are drawn fresh. */
  ghost predicate Fresh(s: State, id: string) {
    && id !in s.rows
    && forall t :: t in s.open && s.open[t].Inserted? ==> s.open[t].child.id != id
  }

  ghost predicate IssuableRoot(root: Credential) {
    && root.owner != "" && root.id != "" && Grantable(root.scopes)
    && root == RootCredential(root.id, root.owner, root.secretHash, root.scopes, root.clientLabel, root.issuedAt)
  }

  /** The checks of an exchange that come before the credential's own status. */
  predicate Authentic(rows: Table, id: string, digest: Bytes, ownerActive: bool) {
    && id in rows && rows[id].id == id && rows[id].secretHash == digest
    && rows[id].owner != "" && rows[id].lineage != "" && ownerActive
  }

  /** One statement. An event that is not enabled leaves the state alone: the
      transaction is waiting for a lock, or was denied without writing. */
  ghost function Step(s: State, e: Event): State {
    match e
    case Issue(root) =>
      if IssuableRoot(root) && Fresh(s, root.id) then s.(rows := s.rows[root.id := root]) else s
    case Read(tx, id, digest, ownerActive, now) =>
      if tx in s.open || !Authentic(s.rows, id, digest, ownerActive) then s
      else if s.rows[id].status != Active then
        s.(open := s.open[tx := Reuse(s.rows[id].owner, s.rows[id].lineage, now)])
      else if now < s.rows[id].expiresAt && Grantable(s.rows[id].scopes) then
        s.(open := s.open[tx := Checked(s.rows[id], now)])
      else s
    case Rotate(tx) =>
      if tx in s.open && s.open[tx].Checked? && !LockedByOther(s, tx, s.open[tx].cred.id) then
        var cred, now := s.open[tx].cred, s.open[tx].now;
        match MarkRotatedOutcome(s.rows, cred.owner, cred.id)
        case Applied => s.(open := s.open[tx := Holding(cred, now)])
        case Conflict => s.(open := s.open[tx := Reuse(cred.owner, cred.lineage, now)])
        case NotFound => s.(open := s.open - {tx})
      else s
    case Insert(tx, childId, childHash) =>
      if tx in s.open && s.open[tx].Holding? && childId != "" && Fresh(s, childId) then
        var cred, now := s.open[tx].cred, s.open[tx].now;
        s.(open := s.open[tx := Inserted(cred, ChildCredential(cred, childId, childHash, now))])
      else s
    case Commit(tx) =>
      if tx in s.open && s.open[tx].Inserted? then
        var cred, child := s.open[tx].cred, s.open[tx].child;
        State(Exchanged(s.rows, cred.id, child), s.open - {tx}, s.exchanged + [cred.id])
      else s
    case StartRevoke(tx, owner, lineage, now) =>
      if tx !in s.open then s.(open := s.open[tx := Reuse(owner, lineage, now)]) else s
    case Snapshot(tx) =>
      if tx in s.open && s.open[tx].Reuse? then
        var owner, lineage, now := s.open[tx].owner, s.open[tx].lineage, s.open[tx].now;
        var seen := Revocable(s.rows, owner, lineage);
        s.(open := s.open[tx := Revoking(owner, lineage, now, seen, seen, {})])
      else s
    case RevokeRow(tx, id) =>
      if tx in s.open && s.open[tx].Revoking? && id in s.open[tx].todo && !LockedByOther(s, tx, id) then
        var t := s.open[tx];
        var matches := id in s.rows && s.rows[id].status != Revoked;
        s.(open := s.open[tx := t.(todo := t.todo - {id}, done := if matches then t.done + {id} else t.done)])
      else s
    case CommitRevoke(tx) =>
      if tx in s.open && s.open[tx].Revoking? && s.open[tx].todo == {} then
        State(WithRevoked(s.rows, s.open[tx].done, s.open[tx].now), s.open - {tx}, s.exchanged)
      else s
    case Abort(tx) => s.(open := s.open - {tx})
  }

  /** The table after an exchange of parent commits its successor. */
  function Exchanged(rows: Table, parent: string, child: Credential): Table {
    (if parent in rows then rows[parent := rows[parent].(status := Rotated)] else rows)[child.id := child]
  }

  ghost function Exec(s: State, events: seq<Event>): State
    decreases |events|
  {
    if events == [] then s else Exec(Step(s, events[0]), events[1..])
  }

  // ---------------------------------------------------------------------
  // The invariant of every reachable state
  // ---------------------------------------------------------------------

  /** chain lists the whole lineage from its root, each credential rotated from the
      one before it, and only the last may still be active. */
  ghost predicate IsChain(rows: Table, lineage: string, chain: seq<string>) {
    && Distinct(chain)
    && (forall id :: id in chain <==> id in rows && rows[id].lineage == lineage)
    && |chain| > 0 && chain[0] == lineage
    && rows[lineage].rotatedFrom == None
    && (forall i :: 0 < i < |chain| ==> rows[chain[i]].rotatedFrom == Some(chain[i - 1]))
    && (forall i :: 0 <= i < |chain| - 1 ==> rows[chain[i]].status != Active)
    && (forall i :: 0 <= i < |chain| ==> SameGrant(rows[chain[i]], rows[lineage]))
  }

  ghost predicate HasChain(rows: Table, lineage: string) {
    exists chain :: IsChain(rows, lineage, chain)
  }

  ghost predicate RowOk(rows: Table, id: string)
    requires id in rows
  {
    var row := rows[id];
    && row.id == id && id != "" && row.owner != "" && row.issuedAt < row.expiresAt
    && IsRoot(rows, row.lineage)
    && row.expiresAt == rows[row.lineage].issuedAt + REFRESH_LINEAGE_LIFETIME
  }

  ghost predicate IsRoot(rows: Table, lineage: string) {
    lineage in rows && rows[lineage].lineage == lineage
  }

  ghost predicate EachRowOk(rows: Table) {
    forall id :: id in rows ==> RowOk(rows, id)
  }

  ghost predicate RowsOk(rows: Table) {
    && EachRowOk(rows)
    && (forall lineage {:trigger HasChain(rows, lineage)} :: IsRoot(rows, lineage) ==> HasChain(rows, lineage))
  }

  ghost predicate TxOk(rows: Table, tx: Tx) {
    match tx
    case Checked(cred, now) => cred.id in rows && SameIdentity(cred, rows[cred.id]) && now < cred.expiresAt
    case Holding(cred, now) => HeldOk(rows, cred) && now < cred.expiresAt
    case Inserted(cred, child) =>
      HeldOk(rows, cred) && child.id !in rows && child.id != ""
      && child == ChildCredential(cred, child.id, child.secretHash, child.issuedAt)
      && child.issuedAt < cred.expiresAt
    case Reuse(_, _, _) => true
    case Revoking(owner, lineage, _, seen, todo, done) =>
      && todo + done <= seen && todo !! done
      && (forall id :: id in seen ==> id in rows && InLineage(rows[id], owner, lineage))
      && (forall id :: id in seen ==> id in todo || id in done || rows[id].status == Revoked)
  }

  /** The held row is still active: nobody else can change a locked row. */
  ghost predicate HeldOk(rows: Table, cred: Credential) {
    cred.id in rows && SameIdentity(cred, rows[cred.id]) && rows[cred.id].status == Active
  }

  /** Open transactions are consistent and their locks exclusive. */
  ghost predicate OpenOk(s: State) {
    && (forall t :: t in s.open ==> TxOk(s.rows, s.open[t]))
    && (forall t, u, id :: t in s.open && u in s.open && t != u && Locks(s.open[t], id) ==> !Locks(s.open[u], id))
    && (forall t, u :: t in s.open && u in s.open && t != u && s.open[t].Inserted? && s.open[u].Inserted?
          ==> s.open[t].child.id != s.open[u].child.id)
  }

  /** A credential is exchanged at most once, and is then no longer active. */
  ghost predicate HistoryOk(rows: Table, exchanged: seq<string>) {
    && Distinct(exchanged)
    && (forall id :: id in exchanged ==> id in rows && rows[id].status != Active)
  }

  ghost predicate Inv(s: State) {
    RowsOk(s.rows) && OpenOk(s) && HistoryOk(s.rows, s.exchanged)
  }

  // ---------------------------------------------------------------------
  // Chains survive every change of the table
  // ---------------------------------------------------------------------

  /** Rows of other lineages may be added, and rows may stop being active. */
  lemma {:induction false} ChainKept(rows: Table, after: Table, lineage: string, chain: seq<string>)
    requires IsChain(rows, lineage, chain)
    requires forall id :: id in rows && rows[id].lineage == lineage ==>
               && id in after && SameIdentity(rows[id], after[id])
               && (after[id].status == Active ==> rows[id].status == Active)
    requires forall id :: id in after && after[id].lineage == lineage ==> id in rows && rows[id].lineage == lineage
    ensures IsChain(after, lineage, chain)
  {
    assert forall i :: 0 <= i < |chain| ==> chain[i] in chain;
  }

  lemma {:induction false} IssueKeepsRows(rows: Table, root: Credential)
    requires RowsOk(rows) && IssuableRoot(root) && root.id !in rows
    ensures RowsOk(rows[root.id := root])
  {
    var after := rows[root.id := root];
    assert forall id :: id in rows ==> RowOk(rows, id) && RowOk(after, id);
    forall lineage | IsRoot(after, lineage)
      ensures HasChain(after, lineage)
    {
      if lineage == root.id {
        assert IsChain(after, root.id, [root.id]);
      } else {
        assert HasChain(rows, lineage);
        var chain :| IsChain(rows, lineage, chain);
        ChainKept(rows, after, lineage, chain);
      }
    }
  }

  /** Only the end of a chain can be active. */
  lemma {:induction false} ActiveIsLast(rows: Table, chain: seq<string>, id: string)
    requires id in rows && IsChain(rows, rows[id].lineage, chain) && rows[id].status == Active
    ensures chain[|chain| - 1] == id
  {
    var i :| 0 <= i < |chain| && chain[i] == id;
  }

  lemma {:induction false} ExchangeExtendsChain(rows: Table, parent: string, child: Credential, chain: seq<string>)
    requires parent in rows && rows[parent].id == parent && rows[parent].status == Active
    requires child.id !in rows && child == ChildCredential(rows[parent], child.id, child.secretHash, child.issuedAt)
    requires IsChain(rows, rows[parent].lineage, chain)
    ensures IsChain(Exchanged(rows, parent, child), rows[parent].lineage, chain + [child.id])
  {
    var after := Exchanged(rows, parent, child);
    ActiveIsLast(rows, chain, parent);
    DistinctAppend(chain, child.id);
    assert forall i :: 0 <= i < |chain| ==> chain[i] in chain;
    LongerChain(rows, after, chain, parent, child);
  }

  /** The links of the longer chain. */
  lemma {:induction false} LongerChain(rows: Table, after: Table, chain: seq<string>, parent: string, child: Credential)
    requires chain != [] && chain[|chain| - 1] == parent && after == Exchanged(rows, parent, child)
    requires forall i :: 0 <= i < |chain| ==> chain[i] in rows && chain[i] != child.id
    requires child.rotatedFrom == Some(parent)
    requires forall i :: 0 < i < |chain| ==> rows[chain[i]].rotatedFrom == Some(chain[i - 1])
    ensures var longer := chain + [child.id];
            forall i :: 0 < i < |longer| ==> longer[i] in after && after[longer[i]].rotatedFrom == Some(longer[i - 1])
  {
  }

  lemma {:induction false} ExchangeKeepsChain(rows: Table, parent: string, child: Credential, lineage: string)
    requires RowsOk(rows) && parent in rows && rows[parent].status == Active
    requires child.id !in rows
    requires child == ChildCredential(rows[parent], child.id, child.secretHash, child.issuedAt)
    requires HasChain(rows, lineage)
    ensures HasChain(Exchanged(rows, parent, child), lineage)
  {
    assert RowOk(rows, parent);
    var chain :| IsChain(rows, lineage, chain);
    if lineage == child.lineage {
      ExchangeExtendsChain(rows, parent, child, chain);
    } else {
      ChainKept(rows, Exchanged(rows, parent, child), lineage, chain);
    }
  }

  lemma {:induction false} ExchangeKeepsEachRow(rows: Table, parent: string, child: Credential)
    requires EachRowOk(rows) && parent in rows
    requires child.id !in rows && child.id != "" && child.issuedAt < child.expiresAt
    requires child == ChildCredential(rows[parent], child.id, child.secretHash, child.issuedAt)
    ensures EachRowOk(Exchanged(rows, parent, child))
  {
    assert RowOk(rows, parent);
  }

  lemma {:induction false} ExchangeKeepsRows(rows: Table, parent: string, child: Credential)
    requires RowsOk(rows) && parent in rows && rows[parent].status == Active
    requires child.id !in rows && child.id != "" && child.issuedAt < child.expiresAt
    requires child == ChildCredential(rows[parent], child.id, child.secretHash, child.issuedAt)
    ensures RowsOk(Exchanged(rows, parent, child))
  {
    var after := Exchanged(rows, parent, child);
    ExchangeKeepsEachRow(rows, parent, child);
    assert RowOk(rows, parent);
    forall lineage | IsRoot(after, lineage)
      ensures HasChain(after, lineage)
    {
      assert HasChain(rows, lineage);
      ExchangeKeepsChain(rows, parent, child, lineage);
    }
  }

  lemma {:induction false} RevokeKeepsChain(rows: Table, ids: set<string>, now: int, lineage: string)
    requires HasChain(rows, lineage)
    ensures HasChain(WithRevoked(rows, ids, now), lineage)
  {
    var chain :| IsChain(rows, lineage, chain);
    ChainKept(rows, WithRevoked(rows, ids, now), lineage, chain);
  }

  lemma {:induction false} RevokeKeepsEachRow(rows: Table, ids: set<string>, now: int)
    requires EachRowOk(rows)
    ensures EachRowOk(WithRevoked(rows, ids, now))
  {
    var after := WithRevoked(rows, ids, now);
    forall id | id in after
      ensures RowOk(after, id)
    {
      assert RowOk(rows, id);
    }
  }

  lemma {:induction false} RevokeKeepsRows(rows: Table, ids: set<string>, now: int)
    requires RowsOk(rows)
    ensures RowsOk(WithRevoked(rows, ids, now))
  {
    var after := WithRevoked(rows, ids, now);
    RevokeKeepsEachRow(rows, ids, now);
    forall lineage | IsRoot(after, lineage)
      ensures HasChain(after, lineage)
    {
      assert HasChain(rows, lineage);
      RevokeKeepsChain(rows, ids, now, lineage);
    }
  }

  // ---------------------------------------------------------------------
  // Every event keeps the invariant
  // ---------------------------------------------------------------------

  lemma {:induction false} IssueKeepsInv(s: State, e: Event)
    requires Inv(s) && e.Issue?
    ensures Inv(Step(s, e))
  {
    if IssuableRoot(e.root) && Fresh(s, e.root.id) {
      var after := s.rows[e.root.id := e.root];
      assert Step(s, e) == State(after, s.open, s.exchanged);
      IssueKeepsRows(s.rows, e.root);
      IssueKeepsOpen(s, e.root);
      assert HistoryOk(after, s.exchanged);
    }
  }

  lemma {:induction false} IssueKeepsTx(rows: Table, root: Credential, tx: Tx)
    requires TxOk(rows, tx) && root.id !in rows && (tx.Inserted? ==> tx.child.id != root.id)
    ensures TxOk(rows[root.id := root], tx)
  {
  }

  lemma {:induction false} IssueKeepsOpen(s: State, root: Credential)
    requires OpenOk(s) && Fresh(s, root.id)
    ensures OpenOk(State(s.rows[root.id := root], s.open, s.exchanged))
  {
    forall t | t in s.open
      ensures TxOk(s.rows[root.id := root], s.open[t])
    {
      IssueKeepsTx(s.rows, root, s.open[t]);
    }
  }

  /** An exchange of a row the transaction has not locked cannot disturb it. */
  lemma {:induction false} ExchangeKeepsTx(rows: Table, parent: string, child: Credential, tx: Tx)
    requires TxOk(rows, tx) && !Locks(tx, parent) && child.id !in rows
    requires parent in rows && rows[parent].status == Active
    requires tx.Inserted? ==> tx.child.id != child.id
    ensures TxOk(Exchanged(rows, parent, child), tx)
  {
  }

  lemma {:induction false} CommitKeepsOpen(s: State, tx: nat)
    requires OpenOk(s) && tx in s.open && s.open[tx].Inserted?
    ensures var cred, child := s.open[tx].cred, s.open[tx].child;
            OpenOk(State(Exchanged(s.rows, cred.id, child), s.open - {tx}, s.exchanged + [cred.id]))
  {
    var cred, child := s.open[tx].cred, s.open[tx].child;
    assert TxOk(s.rows, s.open[tx]) && Locks(s.open[tx], cred.id);
    forall t | t in s.open && t != tx
      ensures TxOk(Exchanged(s.rows, cred.id, child), s.open[t])
    {
      assert TxOk(s.rows, s.open[t]) && !Locks(s.open[t], cred.id);
      ExchangeKeepsTx(s.rows, cred.id, child, s.open[t]);
    }
  }

  lemma {:induction false} CommitKeepsInv(s: State, e: Event)
    requires Inv(s) && e.Commit?
    ensures Inv(Step(s, e))
  {
    if e.tx in s.open && s.open[e.tx].Inserted? {
      var cred, child := s.open[e.tx].cred, s.open[e.tx].child;
      var after := Exchanged(s.rows, cred.id, child);
      assert TxOk(s.rows, s.open[e.tx]);
      assert Step(s, e) == State(after, s.open - {e.tx}, s.exchanged + [cred.id]);
      ExchangeKeepsRows(s.rows, cred.id, child);
      CommitKeepsOpen(s, e.tx);
      DistinctAppend(s.exchanged, cred.id);
    }
  }

  /** Revoking rows the transaction has not locked cannot disturb it. */
  lemma {:induction false} RevokeKeepsTx(rows: Table, ids: set<string>, now: int, tx: Tx)
    requires TxOk(rows, tx)
    requires forall id :: id in ids ==> !Locks(tx, id)
    ensures TxOk(WithRevoked(rows, ids, now), tx)
  {
  }

  lemma {:induction false} CommitRevokeKeepsOpen(s: State, tx: nat)
    requires OpenOk(s) && tx in s.open && s.open[tx].Revoking?
    ensures OpenOk(State(WithRevoked(s.rows, s.open[tx].done, s.open[tx].now), s.open - {tx}, s.exchanged))
  {
    var done, now := s.open[tx].done, s.open[tx].now;
    forall t | t in s.open && t != tx
      ensures TxOk(WithRevoked(s.rows, done, now), s.open[t])
    {
      assert forall id :: id in done ==> Locks(s.open[tx], id) && !Locks(s.open[t], id);
      RevokeKeepsTx(s.rows, done, now, s.open[t]);
    }
  }

  lemma {:induction false} CommitRevokeKeepsInv(s: State, e: Event)
    requires Inv(s) && e.CommitRevoke?
    ensures Inv(Step(s, e))
  {
    if e.tx in s.open && s.open[e.tx].Revoking? && s.open[e.tx].todo == {} {
      var done, now := s.open[e.tx].done, s.open[e.tx].now;
      var after := WithRevoked(s.rows, done, now);
      assert Step(s, e) == State(after, s.open - {e.tx}, s.exchanged);
      CommitRevokeKeepsOpen(s, e.tx);
      assert HistoryOk(after, s.exchanged);
      RevokeKeepsRows(s.rows, done, now);
    }
  }

  /** A statement that only moves its own transaction along. */
  lemma {:induction false} MoveKeepsInv(s: State, tx: nat, next: Tx)
    requires Inv(s) && TxOk(s.rows, next)
    requires forall id :: Locks(next, id) ==> !LockedByOther(s, tx, id)
    requires next.Inserted? ==> Fresh(s, next.child.id)
    ensures Inv(s.(open := s.open[tx := next]))
  {
  }

  /** A statement touches its own transaction and nothing else. */
  lemma {:induction false} StatementMovesOwn(s: State, e: Event)
    requires !e.Issue? && !e.Commit? && !e.CommitRevoke?
    ensures var after := Step(s, e);
            || after == s.(open := s.open - {e.tx})
            || (e.tx in after.open && after == s.(open := s.open[e.tx := after.open[e.tx]]))
            || after == s
  {
  }

  /** What a statement leaves its transaction in is consistent with the table. */
  lemma {:induction false} StatementTxOk(s: State, e: Event)
    requires !e.Issue? && !e.Commit? && !e.CommitRevoke? && e.tx in Step(s, e).open
    requires e.tx in s.open ==> TxOk(s.rows, s.open[e.tx])
    ensures TxOk(s.rows, Step(s, e).open[e.tx])
  {
  }

  /** A statement locks no row another transaction has locked, and inserts only a fresh
      identifier. */
  lemma {:induction false} StatementLocks(s: State, e: Event)
    requires !e.Issue? && !e.Commit? && !e.CommitRevoke? && e.tx in Step(s, e).open && Step(s, e) != s
    requires forall id :: e.tx in s.open && Locks(s.open[e.tx], id) ==> !LockedByOther(s, e.tx, id)
    ensures var next := Step(s, e).open[e.tx];
            && (forall id :: Locks(next, id) ==> !LockedByOther(s, e.tx, id))
            && (next.Inserted? ==> Fresh(s, next.child.id))
  {
  }

  /** Ending a transaction disturbs nobody. */
  lemma {:induction false} EndKeepsInv(s: State, tx: nat)
    requires Inv(s)
    ensures Inv(s.(open := s.open - {tx}))
  {
  }

  lemma {:induction false} StatementKeepsInv(s: State, e: Event)
    requires Inv(s) && !e.Issue? && !e.Commit? && !e.CommitRevoke?
    ensures Inv(Step(s, e))
  {
    StatementMovesOwn(s, e);
    if Step(s, e) != s {
      if e.tx in Step(s, e).open {
        assert e.tx in s.open ==> TxOk(s.rows, s.open[e.tx]);
        StatementTxOk(s, e);
        StatementLocks(s, e);
        MoveKeepsInv(s, e.tx, Step(s, e).open[e.tx]);
      } else {
        EndKeepsInv(s, e.tx);
      }
    }
  }

  lemma {:induction false} StepKeepsInv(s: State, e: Event)
    requires Inv(s)
    ensures Inv(Step(s, e))
  {
    match e
    case Issue(_) => IssueKeepsInv(s, e);
    case Commit(_) => CommitKeepsInv(s, e);
    case CommitRevoke(_) => CommitRevokeKeepsInv(s, e);
    case _ => StatementKeepsInv(s, e);
  }

  lemma {:induction false} ExecKeepsInv(s: State, events: seq<Event>)
    requires Inv(s)
    ensures Inv(Exec(s, events))
    decreases |events|
  {
    if events != [] {
      StepKeepsInv(s, events[0]);
      ExecKeepsInv(Step(s, events[0]), events[1..]);
    }
  }
}
