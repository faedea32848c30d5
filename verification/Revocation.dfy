/** Revocation reaches access tokens already in circulation.

    Rotation, the denylist and stateless verification run together, on instances
    whose clocks disagree. Every application clock is global time plus a skew
    between slow and fast; the counter store's clock is global time plus its own
    constant offset. A listing is not atomic: its writes may be arbitrarily far
    apart and interleaved with everything else. */
module Revocation {
  import opened Common
  import opened Scopes
  import opened Credentials
  import opened Rotation
  import opened RotationSafety
  import opened CounterStore
  import opened Denylist
  import opened AccessTokens

  datatype Clocks = Clocks(slow: int, fast: int, store: int)

  /** A denylist listing in progress: rows up to next have been dealt with. */
  datatype Listing = Listing(rows: seq<Credential>, cutoff: int, next: nat)

  /** minted holds every access token handed out; writes counts denylist writes. */
  datatype World = World(db: State, minted: set<AccessToken>, store: Entries, lists: map<nat, Listing>, writes: nat, now: int)

  datatype Act =
    | Db(event: Event, tokenId: string)
    | StartList(list: nat, rows: seq<Credential>, reading: int)
    | ListNext(list: nat)
    | DropList(list: nat)
    | ForeignInc(key: string, delta: int, ttl: int)
    | ForeignDel(key: string)
    | Tick(elapsed: nat)

  const START := World(INITIAL, {}, map[], map[], 0, 0)

  /** A reading some application clock can show now. */
  predicate Shows(c: Clocks, w: World, reading: int) {
    w.now + c.slow <= reading <= w.now + c.fast
  }

  /** A reading some application clock can have shown by now: a call reads its clock
      once, at its start, and may use the reading much later. */
  predicate Shown(c: Clocks, w: World, reading: int) {
    reading <= w.now + c.fast
  }

  predicate TimedBy(c: Clocks, w: World, e: Event) {
    match e
    case Issue(root) => Shown(c, w, root.issuedAt)
    case Read(_, _, _, _, reading) => Shown(c, w, reading)
    case _ => true
  }

  function Mint(cred: Credential, tokenId: string): AccessToken {
    AccessToken(tokenId, cred.owner, cred.id, cred.scopes, cred.issuedAt, cred.issuedAt + ACCESS_TOKEN_LIFETIME)
  }

  /** The access token an event hands out: one for each credential, at its issue. */
  ghost function MintedBy(s: State, e: Event, tokenId: string): set<AccessToken> {
    match e
    case Issue(root) => if IssuableRoot(root) && Fresh(s, root.id) then {Mint(root, tokenId)} else {}
    case Commit(tx) => if tx in s.open && s.open[tx].Inserted? then {Mint(s.open[tx].child, tokenId)} else {}
    case _ => {}
  }

  /** The rows are copies of stored rows, read at some time up to now. */
  ghost predicate ReadFrom(rows: seq<Credential>, table: Table) {
    forall i :: 0 <= i < |rows| ==> rows[i].id in table && SameIdentity(rows[i], table[rows[i].id])
  }

  ghost predicate ForeignKey(hash: string -> Bytes, key: string) {
    forall id :: key != CredentialKey(hash, id)
  }

  ghost function Next(c: Clocks, hash: string -> Bytes, w: World, a: Act): World {
    match a
    case Db(e, tokenId) =>
      if TimedBy(c, w, e) then w.(db := Step(w.db, e), minted := w.minted + MintedBy(w.db, e, tokenId)) else w
    case StartList(list, rows, reading) =>
      if list !in w.lists && Shown(c, w, reading) && ReadFrom(rows, w.db.rows) then
        w.(lists := w.lists[list := Listing(rows, reading - ENTRY_TTL, 0)])
      else w
    case ListNext(list) =>
      if list in w.lists && w.lists[list].next < |w.lists[list].rows| then
        var l := w.lists[list];
        var row := l.rows[l.next];
        var moved := w.(lists := w.lists[list := l.(next := l.next + 1)]);
        if row.issuedAt <= l.cutoff then moved
        else moved.(store := Incremented(w.store, CredentialKey(hash, row.id), 1, ENTRY_TTL, w.now + c.store), writes := w.writes + 1)
      else w
    case DropList(list) => w.(lists := w.lists - {list})
    case ForeignInc(key, delta, ttl) =>
      if ForeignKey(hash, key) then w.(store := Incremented(w.store, key, delta, ttl, w.now + c.store)) else w
    case ForeignDel(key) =>
      if ForeignKey(hash, key) then w.(store := w.store - {key}) else w
    case Tick(elapsed) => w.(now := w.now + elapsed)
  }

  ghost function Play(c: Clocks, hash: string -> Bytes, w: World, acts: seq<Act>): World
    decreases |acts|
  {
    if acts == [] then w else Play(c, hash, Next(c, hash, w, acts[0]), acts[1..])
  }

  /** Verification of an issued token at a reading of the verifier's clock: the
      stateless checks, then the denylist. */
  ghost predicate Refused(c: Clocks, hash: string -> Bytes, w: World, tok: AccessToken, reading: int) {
    || Accept(ClaimsOf(tok), reading) == None
    || CountOf(w.store, CredentialKey(hash, tok.credential), w.now + c.store).value > 0
  }

  // ---------------------------------------------------------------------
  // The invariant
  // ---------------------------------------------------------------------

  /** Nothing was issued in the future of the fastest clock. */
  ghost predicate IssuedByNow(c: Clocks, w: World) {
    && (forall id :: id in w.db.rows ==> w.db.rows[id].issuedAt <= w.now + c.fast)
    && (forall t :: t in w.db.open ==> TxIssuedBy(w.db.open[t], w.now + c.fast))
  }

  ghost predicate MintedOk(w: World) {
    forall tok :: tok in w.minted ==>
      && tok.credential in w.db.rows && tok.issuedAt == w.db.rows[tok.credential].issuedAt
      && tok.expiresAt == tok.issuedAt + ACCESS_TOKEN_LIFETIME
  }

  /** A listed credential exists, and its entry outlives its access token even on the
      slowest clock the margin covers. */
  ghost predicate EntryOk(c: Clocks, hash: string -> Bytes, w: World, id: string) {
    var key := CredentialKey(hash, id);
    key in w.store ==>
      && id in w.db.rows
      && w.store[key].expiresAt >= w.db.rows[id].issuedAt - c.fast + c.store + ENTRY_TTL
      && (w.writes <= MAX_INT64 ==> 0 < w.store[key].value <= w.writes)
  }

  ghost predicate EntriesOk(c: Clocks, hash: string -> Bytes, w: World) {
    forall id {:trigger CredentialKey(hash, id)} :: EntryOk(c, hash, w, id)
  }

  /** The credential's tokens are refused from now on: they are past every clock's
      reach, or the entry that denies them is alive. */
  ghost predicate Shielded(c: Clocks, hash: string -> Bytes, w: World, id: string) {
    && id in w.db.rows
    && (|| w.db.rows[id].issuedAt <= w.now + c.fast - ENTRY_TTL
        || Live(w.store, CredentialKey(hash, id), w.now + c.store))
  }

  ghost predicate ListOk(c: Clocks, hash: string -> Bytes, w: World, l: Listing) {
    && l.next <= |l.rows| && ReadFrom(l.rows, w.db.rows) && l.cutoff <= w.now + c.fast - ENTRY_TTL
    && forall i :: 0 <= i < l.next ==> Shielded(c, hash, w, l.rows[i].id)
  }

  ghost predicate ListsOk(c: Clocks, hash: string -> Bytes, w: World) {
    forall k :: k in w.lists ==> ListOk(c, hash, w, w.lists[k])
  }

  ghost predicate WorldOk(c: Clocks, hash: string -> Bytes, w: World) {
    && Inv(w.db) && IssuedByNow(c, w) && MintedOk(w) && EntriesOk(c, hash, w)
    && ListsOk(c, hash, w)
  }

  // ---------------------------------------------------------------------
  // Shields hold
  // ---------------------------------------------------------------------

  /** Time does not go back, rows persist, and a live entry keeps its expiry. */
  ghost predicate Advances(c: Clocks, hash: string -> Bytes, w: World, w': World) {
    && Persists(w.db.rows, w'.db.rows) && w.now <= w'.now
    && forall id {:trigger CredentialKey(hash, id)} :: Live(w.store, CredentialKey(hash, id), w.now + c.store) ==>
         CredentialKey(hash, id) in w'.store
         && w'.store[CredentialKey(hash, id)].expiresAt == w.store[CredentialKey(hash, id)].expiresAt
  }

  lemma {:induction false} NextAdvances(c: Clocks, hash: string -> Bytes, w: World, a: Act)
    requires OpenOk(w.db)
    ensures Advances(c, hash, w, Next(c, hash, w, a))
  {
    if a.Db? {
      StepPersists(w.db, a.event);
    }
  }

  /** When its entry runs out, the credential's tokens are past every clock's reach. */
  lemma {:induction false} ShieldHolds(c: Clocks, hash: string -> Bytes, w: World, w': World, id: string)
    requires Advances(c, hash, w, w') && EntryOk(c, hash, w, id) && Shielded(c, hash, w, id)
    ensures Shielded(c, hash, w', id)
  {
    assert SameIdentity(w.db.rows[id], w'.db.rows[id]);
  }

  lemma {:induction false} ListHolds(c: Clocks, hash: string -> Bytes, w: World, w': World, l: Listing)
    requires Advances(c, hash, w, w') && EntriesOk(c, hash, w) && ListOk(c, hash, w, l)
    ensures ListOk(c, hash, w', l)
  {
    forall i | 0 <= i < l.next
      ensures Shielded(c, hash, w', l.rows[i].id)
    {
      assert EntryOk(c, hash, w, l.rows[i].id);
      ShieldHolds(c, hash, w, w', l.rows[i].id);
    }
  }

  // ---------------------------------------------------------------------
  // Every act keeps the invariant
  // ---------------------------------------------------------------------

  /** The transaction will issue nothing after the bound. */
  ghost predicate TxIssuedBy(tx: Tx, bound: int) {
    match tx
    case Checked(_, at) => at <= bound
    case Holding(_, at) => at <= bound
    case Inserted(_, child) => child.issuedAt <= bound
    case _ => true
  }

  lemma {:induction false} DbKeepsRowsIssued(c: Clocks, w: World, e: Event)
    requires IssuedByNow(c, w) && TimedBy(c, w, e)
    ensures forall id :: id in Step(w.db, e).rows ==> Step(w.db, e).rows[id].issuedAt <= w.now + c.fast
  {
    if !e.Issue? && !e.Commit? && !e.CommitRevoke? {
      StatementKeepsTable(w.db, e);
    }
  }

  lemma {:induction false} DbKeepsTxIssued(c: Clocks, w: World, e: Event, t: nat)
    requires IssuedByNow(c, w) && TimedBy(c, w, e) && t in Step(w.db, e).open
    ensures TxIssuedBy(Step(w.db, e).open[t], w.now + c.fast)
  {
    assert t in w.db.open ==> TxIssuedBy(w.db.open[t], w.now + c.fast);
  }

  lemma {:induction false} DbKeepsIssued(c: Clocks, w: World, e: Event)
    requires IssuedByNow(c, w) && TimedBy(c, w, e)
    ensures IssuedByNow(c, w.(db := Step(w.db, e)))
  {
    DbKeepsRowsIssued(c, w, e);
    forall t | t in Step(w.db, e).open
      ensures TxIssuedBy(Step(w.db, e).open[t], w.now + c.fast)
    {
      DbKeepsTxIssued(c, w, e, t);
    }
  }

  lemma {:induction false} DbKeepsMinted(w: World, e: Event, tokenId: string)
    requires MintedOk(w) && OpenOk(w.db)
    ensures MintedOk(w.(db := Step(w.db, e), minted := w.minted + MintedBy(w.db, e, tokenId)))
  {
    StepPersists(w.db, e);
    var after := Step(w.db, e).rows;
    forall tok | tok in w.minted + MintedBy(w.db, e, tokenId)
      ensures tok.credential in after && tok.issuedAt == after[tok.credential].issuedAt
              && tok.expiresAt == tok.issuedAt + ACCESS_TOKEN_LIFETIME
    {
      if tok in w.minted {
        assert SameIdentity(w.db.rows[tok.credential], after[tok.credential]);
      }
    }
  }

  /** A write to a credential's key keeps every entry in order. */
  lemma {:induction false} ListingKeepsEntries(c: Clocks, hash: string -> Bytes, w: World, row: Credential, lists: map<nat, Listing>)
    requires Injective(hash) && EntriesOk(c, hash, w) && IssuedByNow(c, w)
    requires row.id in w.db.rows
    ensures EntriesOk(c, hash, w.(lists := lists, writes := w.writes + 1,
              store := Incremented(w.store, CredentialKey(hash, row.id), 1, ENTRY_TTL, w.now + c.store)))
  {
    var w' := w.(lists := lists, writes := w.writes + 1,
                 store := Incremented(w.store, CredentialKey(hash, row.id), 1, ENTRY_TTL, w.now + c.store));
    forall id
      ensures EntryOk(c, hash, w', id)
    {
      assert EntryOk(c, hash, w, id);
      if CredentialKey(hash, id) == CredentialKey(hash, row.id) {
        CredentialKeyInjective(hash, id, row.id);
      }
    }
  }

  lemma {:induction false} DbKeepsEntries(c: Clocks, hash: string -> Bytes, w: World, w': World)
    requires EntriesOk(c, hash, w) && Persists(w.db.rows, w'.db.rows)
    requires w'.store == w.store && w'.writes == w.writes
    ensures EntriesOk(c, hash, w')
  {
    forall id
      ensures EntryOk(c, hash, w', id)
    {
      assert EntryOk(c, hash, w, id);
    }
  }

  lemma {:induction false} ListNextKeepsEntries(c: Clocks, hash: string -> Bytes, w: World, list: nat)
    requires Injective(hash) && EntriesOk(c, hash, w) && IssuedByNow(c, w)
    requires list in w.lists ==> ListOk(c, hash, w, w.lists[list])
    ensures EntriesOk(c, hash, Next(c, hash, w, ListNext(list)))
  {
    if list in w.lists && w.lists[list].next < |w.lists[list].rows| {
      var l, w' := w.lists[list], Next(c, hash, w, ListNext(list));
      if l.rows[l.next].issuedAt > l.cutoff {
        ListingKeepsEntries(c, hash, w, l.rows[l.next], w'.lists);
      } else {
        DbKeepsEntries(c, hash, w, w');
      }
    }
  }

  lemma {:induction false} ForeignIncKeepsEntries(c: Clocks, hash: string -> Bytes, w: World, key: string, delta: int, ttl: int)
    requires EntriesOk(c, hash, w)
    ensures EntriesOk(c, hash, Next(c, hash, w, ForeignInc(key, delta, ttl)))
  {
    ForeignKeepsEntries(c, hash, w, Next(c, hash, w, ForeignInc(key, delta, ttl)));
  }

  lemma {:induction false} ForeignDelKeepsEntries(c: Clocks, hash: string -> Bytes, w: World, key: string)
    requires EntriesOk(c, hash, w)
    ensures EntriesOk(c, hash, Next(c, hash, w, ForeignDel(key)))
  {
    ForeignKeepsEntries(c, hash, w, Next(c, hash, w, ForeignDel(key)));
  }

  lemma {:induction false} NextKeepsEntries(c: Clocks, hash: string -> Bytes, w: World, a: Act)
    requires Injective(hash) && OpenOk(w.db) && EntriesOk(c, hash, w) && IssuedByNow(c, w) && ListsOk(c, hash, w)
    ensures EntriesOk(c, hash, Next(c, hash, w, a))
  {
    match a
    case Db(e, _) =>
      StepPersists(w.db, e);
      DbKeepsEntries(c, hash, w, Next(c, hash, w, a));
    case ListNext(list) => ListNextKeepsEntries(c, hash, w, list);
    case ForeignInc(key, delta, ttl) => ForeignIncKeepsEntries(c, hash, w, key, delta, ttl);
    case ForeignDel(key) => ForeignDelKeepsEntries(c, hash, w, key);
    case _ => DbKeepsEntries(c, hash, w, Next(c, hash, w, a));
  }

  lemma {:induction false} ForeignKeepsEntries(c: Clocks, hash: string -> Bytes, w: World, w': World)
    requires EntriesOk(c, hash, w) && w'.db == w.db && w'.writes == w.writes
    requires forall id :: var key := CredentialKey(hash, id);
               (key in w'.store <==> key in w.store) && (key in w.store ==> w'.store[key] == w.store[key])
    ensures EntriesOk(c, hash, w')
  {
    forall id
      ensures EntryOk(c, hash, w', id)
    {
      assert EntryOk(c, hash, w, id);
    }
  }

  /** The row a listing reaches is shielded once it has been dealt with. */
  lemma {:induction false} ReachedIsShielded(c: Clocks, hash: string -> Bytes, w: World, list: nat)
    requires list in w.lists && w.lists[list].next < |w.lists[list].rows| && ListOk(c, hash, w, w.lists[list])
    ensures var l := w.lists[list];
            Shielded(c, hash, Next(c, hash, w, ListNext(list)), l.rows[l.next].id)
  {
    var l := w.lists[list];
    assert SameIdentity(l.rows[l.next], w.db.rows[l.rows[l.next].id]);
  }

  /** A listing of the next world is one of this world, one that moved on, or new. */
  lemma {:induction false} ListingsMove(c: Clocks, hash: string -> Bytes, w: World, a: Act, k: nat)
    requires k in Next(c, hash, w, a).lists
    ensures var w' := Next(c, hash, w, a);
            if k in w.lists && w'.lists[k] == w.lists[k] then true
            else if k in w.lists then a == ListNext(k) && w.lists[k].next < |w.lists[k].rows|
                                      && w'.lists[k] == w.lists[k].(next := w.lists[k].next + 1)
            else a.StartList? && a.list == k && Shown(c, w, a.reading) && ReadFrom(a.rows, w.db.rows)
                 && w'.lists[k] == Listing(a.rows, a.reading - ENTRY_TTL, 0) && w'.db == w.db && w'.now == w.now
  {
  }

  /** A listing that moves on stays in order: the row it passes is shielded. */
  lemma {:induction false} ListMovesOn(c: Clocks, hash: string -> Bytes, w: World, k: nat)
    requires EntriesOk(c, hash, w) && OpenOk(w.db)
    requires k in w.lists && w.lists[k].next < |w.lists[k].rows| && ListOk(c, hash, w, w.lists[k])
    ensures ListOk(c, hash, Next(c, hash, w, ListNext(k)), w.lists[k].(next := w.lists[k].next + 1))
  {
    NextAdvances(c, hash, w, ListNext(k));
    ListHolds(c, hash, w, Next(c, hash, w, ListNext(k)), w.lists[k]);
    ReachedIsShielded(c, hash, w, k);
    ListExtends(c, hash, Next(c, hash, w, ListNext(k)), w.lists[k]);
  }

  lemma {:induction false} ListExtends(c: Clocks, hash: string -> Bytes, w: World, l: Listing)
    requires ListOk(c, hash, w, l) && l.next < |l.rows| && Shielded(c, hash, w, l.rows[l.next].id)
    ensures ListOk(c, hash, w, l.(next := l.next + 1))
  {
  }

  lemma {:induction false} ListKept(c: Clocks, hash: string -> Bytes, w: World, a: Act, k: nat)
    requires EntriesOk(c, hash, w) && OpenOk(w.db) && k in Next(c, hash, w, a).lists
    requires k in w.lists ==> ListOk(c, hash, w, w.lists[k])
    ensures ListOk(c, hash, Next(c, hash, w, a), Next(c, hash, w, a).lists[k])
  {
    ListingsMove(c, hash, w, a, k);
    if k in w.lists {
      if Next(c, hash, w, a).lists[k] == w.lists[k] {
        NextAdvances(c, hash, w, a);
        ListHolds(c, hash, w, Next(c, hash, w, a), w.lists[k]);
      } else {
        ListMovesOn(c, hash, w, k);
      }
    }
  }

  lemma {:induction false} NextKeepsLists(c: Clocks, hash: string -> Bytes, w: World, a: Act)
    requires EntriesOk(c, hash, w) && OpenOk(w.db) && ListsOk(c, hash, w)
    ensures ListsOk(c, hash, Next(c, hash, w, a))
  {
    forall k | k in Next(c, hash, w, a).lists
      ensures ListOk(c, hash, Next(c, hash, w, a), Next(c, hash, w, a).lists[k])
    {
      ListKept(c, hash, w, a, k);
    }
  }

  lemma {:induction false} NextKeepsWorld(c: Clocks, hash: string -> Bytes, w: World, a: Act)
    requires Injective(hash) && WorldOk(c, hash, w)
    ensures WorldOk(c, hash, Next(c, hash, w, a))
  {
    NextKeepsEntries(c, hash, w, a);
    NextKeepsLists(c, hash, w, a);
    NextKeepsIssued(c, hash, w, a);
  }

  lemma {:induction false} NextKeepsIssued(c: Clocks, hash: string -> Bytes, w: World, a: Act)
    requires Inv(w.db) && IssuedByNow(c, w) && MintedOk(w)
    ensures var w' := Next(c, hash, w, a); Inv(w'.db) && IssuedByNow(c, w') && MintedOk(w')
  {
    if a.Db? {
      if TimedBy(c, w, a.event) {
        StepKeepsInv(w.db, a.event);
        DbKeepsIssued(c, w, a.event);
        DbKeepsMinted(w, a.event, a.tokenId);
      }
    } else {
      QuietAct(c, hash, w, a);
      LaterIsIssued(c, w, Next(c, hash, w, a));
    }
  }

  lemma {:induction false} QuietAct(c: Clocks, hash: string -> Bytes, w: World, a: Act)
    requires !a.Db?
    ensures var w' := Next(c, hash, w, a); w'.db == w.db && w'.minted == w.minted && w'.now >= w.now
  {
  }

  lemma {:induction false} LaterIsIssued(c: Clocks, w: World, w': World)
    requires IssuedByNow(c, w) && w'.db == w.db && w'.now >= w.now
    ensures IssuedByNow(c, w')
  {
    forall t | t in w.db.open
      ensures TxIssuedBy(w.db.open[t], w'.now + c.fast)
    {
      assert TxIssuedBy(w.db.open[t], w.now + c.fast);
    }
  }

  lemma {:induction false} PlayKeepsWorld(c: Clocks, hash: string -> Bytes, w: World, acts: seq<Act>)
    requires Injective(hash) && WorldOk(c, hash, w)
    ensures WorldOk(c, hash, Play(c, hash, w, acts))
    decreases |acts|
  {
    if acts != [] {
      NextKeepsWorld(c, hash, w, acts[0]);
      PlayKeepsWorld(c, hash, Next(c, hash, w, acts[0]), acts[1..]);
    }
  }

  // ---------------------------------------------------------------------
  // Revocation is complete
  // ---------------------------------------------------------------------

  lemma {:induction false} StartIsOk(c: Clocks, hash: string -> Bytes)
    ensures WorldOk(c, hash, START)
  {
    forall id
      ensures EntryOk(c, hash, START, id)
    {
    }
  }

  lemma {:induction false} ShieldForever(c: Clocks, hash: string -> Bytes, w: World, acts: seq<Act>, id: string)
    requires Injective(hash) && WorldOk(c, hash, w) && Shielded(c, hash, w, id)
    ensures Shielded(c, hash, Play(c, hash, w, acts), id)
    decreases |acts|
  {
    if acts != [] {
      var w' := Next(c, hash, w, acts[0]);
      NextAdvances(c, hash, w, acts[0]);
      assert EntryOk(c, hash, w, id);
      ShieldHolds(c, hash, w, w', id);
      NextKeepsWorld(c, hash, w, acts[0]);
      ShieldForever(c, hash, w', acts[1..], id);
    }
  }

  /** Only a timed statement changes the database. */
  lemma {:induction false} NextDb(c: Clocks, hash: string -> Bytes, w: World, a: Act)
    ensures Next(c, hash, w, a).db == if a.Db? && TimedBy(c, w, a.event) then Step(w.db, a.event) else w.db
  {
  }

  /** A dead lineage gains no credential, whatever else happens. */
  lemma {:induction false} DeadInEveryWorld(c: Clocks, hash: string -> Bytes, w: World, acts: seq<Act>, lineage: string)
    requires Injective(hash) && WorldOk(c, hash, w) && Dead(w.db.rows, lineage)
    ensures var rows := Play(c, hash, w, acts).db.rows;
            Dead(rows, lineage) && forall id :: id in rows && rows[id].lineage == lineage ==> id in w.db.rows
    decreases |acts|
  {
    if acts != [] {
      var w' := Next(c, hash, w, acts[0]);
      NextDb(c, hash, w, acts[0]);
      if acts[0].Db? {
        DeadStaysDead(w.db, acts[0].event, lineage);
      }
      NextKeepsWorld(c, hash, w, acts[0]);
      DeadInEveryWorld(c, hash, w', acts[1..], lineage);
      PlayPersists(c, hash, w', acts[1..]);
    }
  }

  lemma {:induction false} PlayPersists(c: Clocks, hash: string -> Bytes, w: World, acts: seq<Act>)
    requires Injective(hash) && WorldOk(c, hash, w)
    ensures Persists(w.db.rows, Play(c, hash, w, acts).db.rows)
    decreases |acts|
  {
    if acts != [] {
      NextAdvances(c, hash, w, acts[0]);
      NextKeepsWorld(c, hash, w, acts[0]);
      PlayPersists(c, hash, Next(c, hash, w, acts[0]), acts[1..]);
    }
  }

  lemma {:induction false} ShieldedTokensRefused(c: Clocks, hash: string -> Bytes, w: World, tok: AccessToken, reading: int)
    requires WorldOk(c, hash, w) && tok in w.minted && Shielded(c, hash, w, tok.credential)
    requires c.fast - c.slow <= DENYLIST_SKEW && Shows(c, w, reading) && w.writes <= MAX_INT64
    ensures Refused(c, hash, w, tok, reading)
  {
    assert EntryOk(c, hash, w, tok.credential);
    assert Unix(tok.expiresAt) * SECOND <= tok.expiresAt;
  }

  /** The listing is finished and covered every credential of the lineage. */
  ghost predicate FullyListed(w: World, list: nat, lineage: string) {
    && list in w.lists && w.lists[list].next == |w.lists[list].rows|
    && forall id :: id in w.db.rows && w.db.rows[id].lineage == lineage ==>
         exists i :: 0 <= i < |w.lists[list].rows| && w.lists[list].rows[i].id == id
  }

  /** Revocation is complete. Once a lineage is dead and a listing of all of its rows
      has finished, then at every later moment every access token ever minted from it
      is refused by every instance, as long as clocks differ by at most the margin.
      It covers rows the cutoff skipped and rows listed before, whose entry was not
      extended. */
  lemma {:induction false} RevocationIsComplete(c: Clocks, hash: string -> Bytes, past: seq<Act>, future: seq<Act>,
                             lineage: string, list: nat, tok: AccessToken, reading: int)
    requires Injective(hash) && c.fast - c.slow <= 60 * SECOND
    requires var w := Play(c, hash, START, past); Dead(w.db.rows, lineage) && FullyListed(w, list, lineage)
    requires var end := Play(c, hash, Play(c, hash, START, past), future);
             && tok in end.minted && end.writes <= MAX_INT64 && Shows(c, end, reading)
             && tok.credential in end.db.rows && end.db.rows[tok.credential].lineage == lineage
    ensures Refused(c, hash, Play(c, hash, Play(c, hash, START, past), future), tok, reading)
  {
    StartIsOk(c, hash);
    PlayKeepsWorld(c, hash, START, past);
    ListedIsRefused(c, hash, Play(c, hash, START, past), future, lineage, list, tok, reading);
  }

  lemma {:induction false} ListedIsRefused(c: Clocks, hash: string -> Bytes, w: World, future: seq<Act>,
                        lineage: string, list: nat, tok: AccessToken, reading: int)
    requires Injective(hash) && c.fast - c.slow <= DENYLIST_SKEW && WorldOk(c, hash, w)
    requires Dead(w.db.rows, lineage) && FullyListed(w, list, lineage)
    requires var end := Play(c, hash, w, future);
             && tok in end.minted && end.writes <= MAX_INT64 && Shows(c, end, reading)
             && tok.credential in end.db.rows && end.db.rows[tok.credential].lineage == lineage
    ensures Refused(c, hash, Play(c, hash, w, future), tok, reading)
  {
    PlayKeepsWorld(c, hash, w, future);
    DeadInEveryWorld(c, hash, w, future, lineage);
    PlayPersists(c, hash, w, future);
    assert w.db.rows[tok.credential].lineage == lineage;
    assert ListOk(c, hash, w, w.lists[list]);
    assert Shielded(c, hash, w, tok.credential);
    ShieldForever(c, hash, w, future, tok.credential);
    ShieldedTokensRefused(c, hash, Play(c, hash, w, future), tok, reading);
  }

  /** The absolute cap on access: no rotation strategy yields an access token any
      instance accepts ninety days and fifteen minutes after the lineage began. */
  lemma {:induction false} AccessEndsWithLineage(c: Clocks, hash: string -> Bytes, acts: seq<Act>, tok: AccessToken, reading: int)
    requires Injective(hash) && tok in Play(c, hash, START, acts).minted
    requires var rows := Play(c, hash, START, acts).db.rows;
             tok.credential in rows && rows[tok.credential].lineage in rows
             && reading >= rows[rows[tok.credential].lineage].issuedAt + REFRESH_LINEAGE_LIFETIME + ACCESS_TOKEN_LIFETIME
    ensures Accept(ClaimsOf(tok), reading) == None
  {
    StartIsOk(c, hash);
    PlayKeepsWorld(c, hash, START, acts);
    var rows := Play(c, hash, START, acts).db.rows;
    assert RowOk(rows, tok.credential);
    assert Unix(tok.expiresAt) * SECOND <= tok.expiresAt;
  }

  // ---------------------------------------------------------------------
  // The margin is tight
  // ---------------------------------------------------------------------

  lemma {:induction false} PlaySnoc(c: Clocks, hash: string -> Bytes, w: World, acts: seq<Act>, a: Act)
    ensures Play(c, hash, w, acts + [a]) == Next(c, hash, Play(c, hash, w, acts), a)
    decreases |acts|
  {
    if acts == [] {
      assert acts + [a] == [a] && [a][1..] == [];
      assert Play(c, hash, Next(c, hash, w, a), []) == Next(c, hash, w, a);
    } else {
      assert (acts + [a])[1..] == acts[1..] + [a];
      PlaySnoc(c, hash, Next(c, hash, w, acts[0]), acts[1..], a);
    }
  }

  /** The act uses a clock reading that is current. */
  predicate Prompt(c: Clocks, w: World, a: Act) {
    match a
    case Db(Issue(root), _) => Shows(c, w, root.issuedAt)
    case Db(Read(_, _, _, _, reading), _) => Shows(c, w, reading)
    case Db(StartRevoke(_, _, _, reading), _) => Shows(c, w, reading)
    case StartList(_, _, reading) => Shows(c, w, reading)
    case _ => true
  }

  ghost predicate AllPrompt(c: Clocks, hash: string -> Bytes, w: World, acts: seq<Act>)
    decreases |acts|
  {
    acts == [] || (Prompt(c, w, acts[0]) && AllPrompt(c, hash, Next(c, hash, w, acts[0]), acts[1..]))
  }

  lemma {:induction false} PromptSnoc(c: Clocks, hash: string -> Bytes, w: World, acts: seq<Act>, a: Act)
    requires AllPrompt(c, hash, w, acts) && Prompt(c, Play(c, hash, w, acts), a)
    ensures AllPrompt(c, hash, w, acts + [a])
    decreases |acts|
  {
    if acts == [] {
      assert acts + [a] == [a] && [a][1..] == [];
      assert AllPrompt(c, hash, Next(c, hash, w, a), []);
    } else {
      assert (acts + [a])[1..] == acts[1..] + [a];
      PromptSnoc(c, hash, Next(c, hash, w, acts[0]), acts[1..], a);
    }
  }

  /** Some run leads here, every reading in it current. */
  ghost predicate Reached(c: Clocks, hash: string -> Bytes, w: World) {
    exists acts :: AllPrompt(c, hash, START, acts) && Play(c, hash, START, acts) == w
  }

  lemma {:induction false} ReachNext(c: Clocks, hash: string -> Bytes, w: World, a: Act)
    requires Reached(c, hash, w) && Prompt(c, w, a)
    ensures Reached(c, hash, Next(c, hash, w, a))
  {
    var acts :| AllPrompt(c, hash, START, acts) && Play(c, hash, START, acts) == w;
    PlaySnoc(c, hash, START, acts, a);
    PromptSnoc(c, hash, START, acts, a);
  }

  /** The one credential of the example, issued at the given reading. */
  function RootAt(at: int): Credential {
    RootCredential("a", "owner", [1], FULL_GRANT, "", at)
  }

  function DeadRow(at: int, reading: int): Credential {
    RootAt(at).(status := Revoked, revokedAt := Some(reading))
  }

  /** The credential was issued when the fastest clock showed at, and is live. */
  function IssuedWorld(c: Clocks, at: int, gap: nat): World {
    World(State(map["a" := RootAt(at)], map[], []), {Mint(RootAt(at), "t")}, map[], map[], 0, at - c.fast + gap)
  }

  /** A gap later it was revoked. */
  function DeadWorld(c: Clocks, at: int, gap: nat): World {
    IssuedWorld(c, at, gap).(db := State(map["a" := DeadRow(at, at + gap)], map[], []))
  }

  /** And listed, at the fastest clock's reading, to the end. */
  function ListedWorld(c: Clocks, at: int, gap: nat): World {
    DeadWorld(c, at, gap).(lists := map[0 := Listing([DeadRow(at, at + gap)], at + gap - ENTRY_TTL, 1)])
  }

  lemma {:induction false} IssuedWorldReached(c: Clocks, hash: string -> Bytes, at: int, gap: nat)
    requires c.slow <= c.fast <= at
    ensures Reached(c, hash, IssuedWorld(c, at, gap))
  {
    assert AllPrompt(c, hash, START, []) && Play(c, hash, START, []) == START;
    var wait: nat := at - c.fast;
    ReachNext(c, hash, START, Tick(wait));
    var later := START.(now := wait);
    FullGrantIsGrantable();
    ReachNext(c, hash, later, Db(Issue(RootAt(at)), "t"));
    assert Next(c, hash, later, Db(Issue(RootAt(at)), "t")) == IssuedWorld(c, at, 0);
    ReachNext(c, hash, IssuedWorld(c, at, 0), Tick(gap));
  }

  /** The revoking transaction, statement by statement. */
  function RevokingState(at: int, reading: int, todo: set<string>, done: set<string>): State {
    State(map["a" := RootAt(at)], map[1 := Revoking("owner", "a", reading, {"a"}, todo, done)], [])
  }

  lemma {:induction false} SnapshotOfOne(at: int, reading: int)
    ensures Step(Step(State(map["a" := RootAt(at)], map[], []), StartRevoke(1, "owner", "a", reading)), Snapshot(1))
         == RevokingState(at, reading, {"a"}, {})
  {
    var s := State(map["a" := RootAt(at)], map[], []);
    assert Revocable(s.rows, "owner", "a") == {"a"};
    assert Step(s, StartRevoke(1, "owner", "a", reading)) == s.(open := map[1 := Reuse("owner", "a", reading)]);
  }

  lemma {:induction false} RevokesOne(at: int, reading: int)
    ensures Step(RevokingState(at, reading, {"a"}, {}), RevokeRow(1, "a")) == RevokingState(at, reading, {}, {"a"})
    ensures Step(RevokingState(at, reading, {}, {"a"}), CommitRevoke(1))
         == State(map["a" := DeadRow(at, reading)], map[], [])
  {
    assert {"a"} - {"a"} == {} && {} + {"a"} == {"a"};
    assert RevokingState(at, reading, {}, {"a"}).open - {1} == map[];
    assert WithRevoked(map["a" := RootAt(at)], {"a"}, reading) == map["a" := DeadRow(at, reading)];
  }

  /** The revoking transaction holds its snapshot. */
  lemma {:induction false} SnappedWorldReached(c: Clocks, hash: string -> Bytes, at: int, gap: nat)
    requires c.slow <= c.fast <= at
    ensures Reached(c, hash, IssuedWorld(c, at, gap).(db := RevokingState(at, at + gap, {"a"}, {})))
  {
    IssuedWorldReached(c, hash, at, gap);
    var w, start := IssuedWorld(c, at, gap), StartRevoke(1, "owner", "a", at + gap);
    SnapshotOfOne(at, at + gap);
    ReachDb(c, hash, w, start);
    ReachDb(c, hash, w.(db := Step(w.db, start)), Snapshot(1));
  }

  lemma {:induction false} DeadWorldReached(c: Clocks, hash: string -> Bytes, at: int, gap: nat)
    requires c.slow <= c.fast <= at
    ensures Reached(c, hash, DeadWorld(c, at, gap))
  {
    SnappedWorldReached(c, hash, at, gap);
    var w := IssuedWorld(c, at, gap);
    RevokesOne(at, at + gap);
    ReachDb(c, hash, w.(db := RevokingState(at, at + gap, {"a"}, {})), RevokeRow(1, "a"));
    ReachDb(c, hash, w.(db := RevokingState(at, at + gap, {}, {"a"})), CommitRevoke(1));
  }

  lemma {:induction false} ListedWorldReached(c: Clocks, hash: string -> Bytes, at: int, gap: nat)
    requires c.slow <= c.fast <= at && gap >= ENTRY_TTL
    ensures Reached(c, hash, ListedWorld(c, at, gap))
  {
    DeadWorldReached(c, hash, at, gap);
    var dead, row := DeadWorld(c, at, gap), DeadRow(at, at + gap);
    ReachNext(c, hash, dead, StartList(0, [row], at + gap));
    var listing := dead.(lists := map[0 := Listing([row], at + gap - ENTRY_TTL, 0)]);
    assert Next(c, hash, dead, StartList(0, [row], at + gap)) == listing;
    ReachNext(c, hash, listing, ListNext(0));
    assert Next(c, hash, listing, ListNext(0)) == ListedWorld(c, at, gap);
  }

  lemma {:induction false} ReachDb(c: Clocks, hash: string -> Bytes, w: World, e: Event)
    requires Reached(c, hash, w) && !e.Issue? && !e.Commit? && !e.Read? && Prompt(c, w, Db(e, ""))
    ensures Reached(c, hash, w.(db := Step(w.db, e)))
  {
    ReachNext(c, hash, w, Db(e, ""));
    assert w.minted + {} == w.minted;
    assert Next(c, hash, w, Db(e, "")) == w.(db := Step(w.db, e));
  }

  /** A reachable world in which a lineage is dead and fully listed, and yet one of its
      tokens is accepted at some reading the clocks allow. */
  ghost predicate StillAccepted(c: Clocks, hash: string -> Bytes, w: World, tok: AccessToken, reading: int) {
    && Reached(c, hash, w) && Shows(c, w, reading) && w.writes == 0
    && Dead(w.db.rows, "a") && FullyListed(w, 0, "a")
    && tok in w.minted && tok.credential == "a" && !Refused(c, hash, w, tok, reading)
  }

  /** A whole second at or after the fastest clock's first reading. */
  function FirstSecond(c: Clocks): (at: int)
    ensures at >= c.fast && at % SECOND == 0
  {
    (if c.fast <= 0 then 0 else (c.fast + SECOND - 1) / SECOND) * SECOND
  }

  lemma {:induction false} AcceptedInWindow(at: int, reading: int)
    requires at % SECOND == 0 && at <= reading < at + ACCESS_TOKEN_LIFETIME
    ensures Accept(ClaimsOf(Mint(RootAt(at), "t")), reading).Some?
  {
    FullGrantIsGrantable();
    assert Unix(at) * SECOND == at && Unix(at + ACCESS_TOKEN_LIFETIME) * SECOND == at + ACCESS_TOKEN_LIFETIME;
  }

  /** The margin is exactly tight: with any larger disagreement of clocks there is a
      run, every reading in it current, in which a dead, fully listed lineage's token
      is still accepted. */
  lemma {:induction false} SkewIsTight(c: Clocks, hash: string -> Bytes)
    requires c.fast - c.slow > 60 * SECOND
    ensures exists w, tok, reading :: StillAccepted(c, hash, w, tok, reading)
  {
    var at := FirstSecond(c);
    var gap: nat := if c.fast - c.slow <= ENTRY_TTL then ENTRY_TTL else c.fast - c.slow;
    var w, reading := ListedWorld(c, at, gap), at - c.fast + gap + c.slow;
    ListedWorldReached(c, hash, at, gap);
    assert w.lists[0].rows[0].id == "a";
    AcceptedInWindow(at, reading);
    assert StillAccepted(c, hash, w, Mint(RootAt(at), "t"), reading);
  }
}
