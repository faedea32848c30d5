/** The token service as one process runs it: issue, exchange and verify over a
    store whose transactions are serialized. */
module TokenService {
  import opened Common
  import opened Scopes
  import opened Credentials
  import opened Rotation
  import opened RotationSafety
  import opened AccessTokens
  import opened Base64Url
  import opened TokenFormat
  import opened CounterStore
  import Denylist
  import Revocation

  datatype OwnerStatus = OwnerActive | OwnerSuspended | OwnerDeleted

  datatype Owner = Owner(id: string, status: OwnerStatus, deletedAt: Option<int>)

  /** Which storage statement of a call fails. */
  datatype Faults = Faults(read: bool, owner: bool, rotate: bool, create: bool, mint: bool, revoke: bool, list: bool, commit: bool)

  /** What a caller receives: the refresh secret and the access token. */
  datatype Issued = Issued(refreshId: string, refreshSecret: Bytes, refreshExpiresAt: int, access: AccessToken,
                           owner: string, lineage: string, scopes: seq<Scope>)

  function PairFor(cred: Credential, secret: Bytes, tokenId: string, now: int): Issued {
    Issued(cred.id, secret, cred.expiresAt,
           AccessToken(tokenId, cred.owner, cred.id, cred.scopes, now, now + ACCESS_TOKEN_LIFETIME),
           cred.owner, cred.lineage, cred.scopes)
  }

  predicate InGoodStanding(owners: map<string, Owner>, id: string) {
    id in owners && owners[id].id == id && owners[id].status == OwnerActive && owners[id].deletedAt == None
  }

  /** What presenting a refresh token amounts to. */
  datatype Verdict = Denied | Replay | Rotates

  ghost function Judge(rows: Table, owners: map<string, Owner>, id: string, digest: Bytes, now: int): Verdict {
    if id !in rows || !Authentic(rows, id, digest, InGoodStanding(owners, rows[id].owner)) then Denied
    else if rows[id].status != Active then Replay
    else if now < rows[id].expiresAt && Grantable(rows[id].scopes) then Rotates
    else Denied
  }

  /** The listing holds every row of the lineage and nothing else. */
  ghost predicate ListsLineage(rows: Table, lineage: string, listing: seq<Credential>) {
    && (forall c :: c in listing ==> c.id in rows && rows[c.id] == c && c.lineage == lineage)
    && (forall id :: id in rows && rows[id].lineage == lineage ==> rows[id] in listing)
  }

  /** The owner's rows of the lineage, each once. */
  method ListByLineage(rows: Table, owner: string, lineage: string) returns (listing: seq<Credential>)
    ensures Distinct(listing)
    ensures forall c :: c in listing <==> c.id in rows && rows[c.id] == c && InLineage(c, owner, lineage)
    ensures WholeLineage(rows, owner, lineage) ==> ListsLineage(rows, lineage, listing)
  {
    listing := [];
    var rest := rows.Keys;
    while rest != {}
      invariant rest <= rows.Keys
      invariant Distinct(listing)
      invariant forall c :: c in listing <==> c.id in rows && c.id !in rest && rows[c.id] == c && InLineage(c, owner, lineage)
      decreases |rest|
    {
      var id :| id in rest;
      rest := rest - {id};
      if InLineage(rows[id], owner, lineage) && rows[id].id == id {
        DistinctAppend(listing, rows[id]);
        listing := listing + [rows[id]];
      }
    }
  }

  /** Rows carry their own key, and the lineage belongs to one owner. */
  ghost predicate WholeLineage(rows: Table, owner: string, lineage: string) {
    && (forall id :: id in rows ==> rows[id].id == id)
    && (forall id :: id in rows && rows[id].lineage == lineage ==> rows[id].owner == owner)
  }

  lemma {:induction false} SoundLineage(rows: Table, id: string)
    requires RowsOk(rows) && id in rows
    ensures IsRoot(rows, rows[id].lineage) && WholeLineage(rows, rows[id].owner, rows[id].lineage)
  {
    forall k | k in rows
      ensures rows[k].id == k && (rows[k].lineage == rows[id].lineage ==> rows[k].owner == rows[id].owner)
    {
      assert RowOk(rows, k);
      if rows[k].lineage == rows[id].lineage {
        OwnerOfLineage(rows, id);
        OwnerOfLineage(rows, k);
      }
    }
    assert RowOk(rows, id);
  }

  lemma {:induction false} WholeLineageDies(rows: Table, owner: string, lineage: string, now: int)
    requires IsRoot(rows, lineage) && WholeLineage(rows, owner, lineage)
    ensures Dead(RevokeLineage(rows, owner, lineage, now), lineage)
    ensures WholeLineage(RevokeLineage(rows, owner, lineage, now), owner, lineage)
  {
  }

  /** Revoking a lineage in one serialized statement leaves it dead, and the table
      sound. */
  lemma {:induction false} RevokeLineageKills(rows: Table, id: string, now: int)
    requires RowsOk(rows) && id in rows
    ensures var after := RevokeLineage(rows, rows[id].owner, rows[id].lineage, now);
            RowsOk(after) && Dead(after, rows[id].lineage) && WholeLineage(after, rows[id].owner, rows[id].lineage)
  {
    SoundLineage(rows, id);
    WholeLineageDies(rows, rows[id].owner, rows[id].lineage, now);
    RevokeKeepsRows(rows, Revocable(rows, rows[id].owner, rows[id].lineage), now);
  }

  /** What an exchange does under its faults. A live token is replaced by its successor;
      a spent one kills its lineage, which is returned for listing; anything else
      changes nothing. A fault before the commit leaves no trace. */
  ghost predicate ExchangeEffect(
    before: Table, after: Table, owners: map<string, Owner>, id: string, presentedHash: Bytes, now: int,
    childId: string, childHash: Bytes, childSecret: Bytes, tokenId: string, faults: Faults,
    out: Option<Issued>, revoked: seq<Credential>)
  {
    match Judge(before, owners, id, presentedHash, now)
    case Denied => after == before && out == None && revoked == []
    case Replay =>
      var cred := before[id];
      && out == None
      && (if faults.read || faults.owner || faults.revoke || faults.commit then after == before && revoked == []
          else after == RevokeLineage(before, cred.owner, cred.lineage, now)
               && (RowsOk(before) ==> Dead(after, cred.lineage))
               && (RowsOk(before) && !faults.list ==> ListsLineage(after, cred.lineage, revoked)))
    case Rotates =>
      var child := ChildCredential(before[id], childId, childHash, now);
      && revoked == []
      && (if faults.read || faults.owner || faults.rotate || faults.create || faults.mint || faults.commit
          then after == before && out == None
          else after == Exchanged(before, id, child) && out == Some(PairFor(child, childSecret, tokenId, now)))
  }

  /** What a caller holds afterwards: the refresh half names a stored active row by its
      identifier and its secret, and the access half is the token of that row, good for
      fifteen minutes. */
  ghost predicate GoodPair(p: Issued, rows: Table, secretHash: Bytes, secret: Bytes, tokenId: string) {
    && p.refreshId in rows && p.refreshSecret == secret
    && rows[p.refreshId].id == p.refreshId && rows[p.refreshId].status == Active && rows[p.refreshId].secretHash == secretHash
    && p.refreshExpiresAt == rows[p.refreshId].expiresAt
    && p.owner == rows[p.refreshId].owner && p.lineage == rows[p.refreshId].lineage && p.scopes == rows[p.refreshId].scopes
    && p.access == Revocation.Mint(rows[p.refreshId], tokenId)
    && p.access.id == tokenId && p.access.credential == p.refreshId
    && p.access.owner == rows[p.refreshId].owner && p.access.scopes == rows[p.refreshId].scopes
    && p.access.issuedAt == rows[p.refreshId].issuedAt && p.access.expiresAt == p.access.issuedAt + 15 * MINUTE
  }

  /** What an exchange comes to, in the fields of the rows. Nothing happens without the
      row's own secret and an owner who is stored, active and not deleted. A pair comes
      of an active, unexpired row and of nothing else, and consumes it. Otherwise the
      only change is that a spent row's whole lineage ends revoked. */
  lemma {:induction false} ExchangeMeans(
    before: Table, after: Table, owners: map<string, Owner>, id: string, presentedHash: Bytes, now: int,
    childId: string, childHash: Bytes, childSecret: Bytes, tokenId: string, faults: Faults,
    out: Option<Issued>, revoked: seq<Credential>)
    requires ExchangeEffect(before, after, owners, id, presentedHash, now, childId, childHash, childSecret, tokenId, faults, out, revoked)
    requires childId !in before
    ensures out.Some? || after != before || revoked != [] ==>
              && id in before && before[id].id == id && before[id].secretHash == presentedHash
              && before[id].owner in owners
              && owners[before[id].owner].status == OwnerActive && owners[before[id].owner].deletedAt == None
    ensures out.Some? ==>
              && before[id].status == Active && now < before[id].expiresAt
              && after.Keys == before.Keys + {childId} && after[id] == before[id].(status := Rotated)
              && (forall k :: k in before && k != id ==> after[k] == before[k])
              && after[childId].rotatedFrom == Some(id) && after[childId].lineage == before[id].lineage
              && after[childId].owner == before[id].owner && after[childId].scopes == before[id].scopes
              && after[childId].expiresAt == before[id].expiresAt && after[childId].issuedAt == now
              && out.value.refreshId == childId && GoodPair(out.value, after, childHash, childSecret, tokenId)
    ensures out.None? && after != before ==>
              && before[id].status != Active && after.Keys == before.Keys
              && forall k :: k in before ==>
                   if before[k].lineage == before[id].lineage && before[k].owner == before[id].owner
                   then after[k] == if before[k].status == Revoked then before[k] else before[k].(status := Revoked, revokedAt := Some(now))
                   else after[k] == before[k]
  {
  }

  /** And it does act: with the row's secret, an owner in good standing and no fault, an
      active, unexpired and grantable row yields a pair, and a spent one leaves every
      row of its lineage revoked. */
  lemma {:induction false} ExchangeActs(
    before: Table, after: Table, owners: map<string, Owner>, id: string, presentedHash: Bytes, now: int,
    childId: string, childHash: Bytes, childSecret: Bytes, tokenId: string, faults: Faults,
    out: Option<Issued>, revoked: seq<Credential>)
    requires ExchangeEffect(before, after, owners, id, presentedHash, now, childId, childHash, childSecret, tokenId, faults, out, revoked)
    requires faults == Faults(false, false, false, false, false, false, false, false)
    requires id in before && before[id].id == id && before[id].secretHash == presentedHash && before[id].lineage != ""
    requires before[id].owner != "" && before[id].owner in owners
             && owners[before[id].owner] == Owner(before[id].owner, OwnerActive, None)
    ensures before[id].status == Active && now < before[id].expiresAt && Grantable(before[id].scopes) ==> out.Some?
    ensures before[id].status != Active ==>
              && out.None? && after.Keys == before.Keys
              && forall k :: k in after && after[k].lineage == before[id].lineage && after[k].owner == before[id].owner ==>
                   after[k].status == Revoked
  {
  }

  /** A pair whose identifier and secret were freshly drawn prints as a token that
      parses back to it, and that an exchange accepts while it is current. */
  lemma {:induction false} PairIsAccepted(p: Issued, rows: Table, digest: Bytes -> Bytes, tokenId: string, random: Bytes, owners: map<string, Owner>, now: int)
    requires GoodPair(p, rows, digest(p.refreshSecret), p.refreshSecret, tokenId)
    requires |random| == 16 && p.refreshId == Encode(random) && |p.refreshSecret| == SECRET_BYTES
    ensures ParseRefreshToken(Format("svr_", p.refreshId, p.refreshSecret)) == Some((p.refreshId, p.refreshSecret))
    ensures p.owner != "" && p.lineage != "" && Grantable(p.scopes) && now < p.refreshExpiresAt
            && p.owner in owners && owners[p.owner] == Owner(p.owner, OwnerActive, None) ==>
              Judge(rows, owners, p.refreshId, digest(p.refreshSecret), now) == Rotates
  {
    FreshIdPrints(random);
    ParseFormat(REFRESH_PREFIX, p.refreshId, p.refreshSecret);
  }

  class Service {
    var rows: Table
    var owners: map<string, Owner>
    /** SHA-256 of a refresh secret. */
    const digest: Bytes -> Bytes

    constructor (digest: Bytes -> Bytes, owners: map<string, Owner>)
      ensures rows == map[] && this.owners == owners && this.digest == digest && RowsOk(rows)
    {
      this.rows, this.owners, this.digest := map[], owners, digest;
    }

    /** Start a lineage. A fault after the row was created leaves the row behind with a
        secret nobody holds; the caller gets nothing. */
    method Issue(owner: string, scopes: seq<Scope>, clientLabel: string, now: int,
                 id: string, secret: Bytes, tokenId: string, faults: Faults) returns (out: Option<Issued>)
      requires id != "" && id !in rows
      modifies this`rows
      ensures owner == "" || !Grantable(scopes) || !LabelOk(clientLabel) || faults.create ==> rows == old(rows) && out == None
      ensures owner != "" && Grantable(scopes) && LabelOk(clientLabel) && !faults.create ==>
                var root := RootCredential(id, owner, digest(secret), scopes, clientLabel, now);
                rows == old(rows)[id := root] && IssuableRoot(root)
                && out == if faults.mint then None else Some(PairFor(root, secret, tokenId, now))
      ensures old(RowsOk(rows)) ==> RowsOk(rows)
      ensures out.Some? ==> GoodPair(out.value, rows, digest(secret), secret, tokenId)
      ensures out.Some? ==>
                && rows[id].owner == owner && rows[id].scopes == scopes && rows[id].lineage == id && rows[id].rotatedFrom == None
                && rows[id].issuedAt == now && rows[id].expiresAt == now + 90 * DAY && out.value.refreshId == id
    {
      out := None;
      if owner == "" {
        return;
      }
      var valid := ValidateScopes(scopes);
      if !valid {
        return;
      }
      valid := ValidateClientLabel(clientLabel);
      if !valid {
        return;
      }
      var root := RootCredential(id, owner, digest(secret), scopes, clientLabel, now);
      if faults.create {
        return;
      }
      if RowsOk(rows) {
        IssueKeepsRows(rows, root);
      }
      rows := rows[id := root];
      if faults.mint {
        return;
      }
      out := Some(PairFor(root, secret, tokenId, now));
    }

    /** Exchange a refresh token, in one transaction that commits or leaves no trace.
        A live token is replaced by its successor; a spent one presented with its
        secret revokes its whole lineage, which is then dead; anything else is denied
        and changes nothing. The rows to be listed on the denylist are returned only
        when the revocation committed. */
    method Exchange(id: string, secret: Bytes, now: int,
                    childId: string, childSecret: Bytes, tokenId: string, faults: Faults)
      returns (out: Option<Issued>, revoked: seq<Credential>)
      requires childId != "" && childId !in rows
      modifies this`rows
      ensures old(RowsOk(rows)) ==> RowsOk(rows)
      ensures ExchangeEffect(old(rows), rows, owners, id, digest(secret), now, childId, digest(childSecret), childSecret, tokenId, faults, out, revoked)
      ensures out.Some? || rows != old(rows) ==>
                && id in old(rows) && old(rows)[id].secretHash == digest(secret)
                && old(rows)[id].owner in owners
                && owners[old(rows)[id].owner].status == OwnerActive && owners[old(rows)[id].owner].deletedAt == None
      ensures out.Some? ==> GoodPair(out.value, rows, digest(childSecret), childSecret, tokenId) && out.value.refreshId == childId
    {
      out, revoked := None, [];
      if faults.read || id !in rows {
        return;
      }
      var cred := rows[id];
      if cred.id != id || cred.secretHash != digest(secret) || cred.owner == "" || cred.lineage == "" {
        return;
      }
      if faults.owner || !InGoodStanding(owners, cred.owner) {
        return;
      }
      if cred.status != Active {
        revoked := RevokeSpent(cred, now, faults);
        return;
      }
      if now >= cred.expiresAt {
        return;
      }
      var valid := ValidateScopes(cred.scopes);
      if !valid {
        return;
      }
      if faults.rotate {
        return;
      }
      var child := ChildCredential(cred, childId, digest(childSecret), now);
      var work := Exchanged(rows, cred.id, child);
      if faults.create || faults.mint || faults.commit {
        return;
      }
      if RowsOk(rows) {
        ExchangeKeepsRows(rows, id, child);
      }
      rows := work;
      out := Some(PairFor(child, childSecret, tokenId, now));
    }

    /** The whole call: parse the presented token, exchange it, and list a lineage that
        was just revoked on the denylist. A string that is no refresh token changes
        nothing. A listing that stops early is reported to nobody; what it listed
        stays listed. */
    method ExchangeToken(presented: string, now: int, childId: string, childSecret: Bytes, tokenId: string, faults: Faults,
                         store: MemoryStore, hash: string -> Bytes, clock: nat -> int, canceled: nat -> bool)
      returns (out: Option<Issued>, ghost revoked: seq<Credential>, ghost reached: nat)
      requires childId != "" && childId !in rows
      requires store.Valid() && forall s :: hash(s) != []
      requires forall i: nat :: store.clock <= clock(i)
      requires forall i: nat, j: nat :: i <= j ==> clock(i) <= clock(j)
      modifies this`rows, store
      ensures store.Valid() && (old(RowsOk(rows)) ==> RowsOk(rows))
      ensures reached <= |revoked|
      ensures store.plain == Denylist.Listed(old(store.plain), hash, revoked[..reached], now - Denylist.ENTRY_TTL, clock)
      ensures reached == |revoked| || Denylist.Stops(revoked[reached], now - Denylist.ENTRY_TTL, canceled(reached))
      ensures match ParseRefreshToken(presented)
              case None => rows == old(rows) && out == None && revoked == []
              case Some((id, secret)) =>
                ExchangeEffect(old(rows), rows, owners, id, digest(secret), now, childId, digest(childSecret), childSecret, tokenId, faults, out, revoked)
    {
      out, revoked, reached := None, [], 0;
      var parsed := ParseRefreshToken(presented);
      if parsed.None? {
        return;
      }
      var listing;
      out, listing := Exchange(parsed.value.0, parsed.value.1, now, childId, childSecret, tokenId, faults);
      revoked := listing;
      if |listing| == 0 {
        return;
      }
      var listed;
      listed, reached := Denylist.RevokeLineage(store, hash, listing, now, clock, canceled);
    }

    /** The reuse branch: revoke the lineage and read it back for the denylist. A
        failing read-back must not undo the revocation. */
    method RevokeSpent(cred: Credential, now: int, faults: Faults) returns (revoked: seq<Credential>)
      requires cred.id in rows && rows[cred.id] == cred
      modifies this`rows
      ensures old(RowsOk(rows)) ==> RowsOk(rows)
      ensures faults.revoke || faults.commit ==> rows == old(rows) && revoked == []
      ensures !faults.revoke && !faults.commit ==>
                && rows == RevokeLineage(old(rows), cred.owner, cred.lineage, now)
                && (old(RowsOk(rows)) ==> Dead(rows, cred.lineage))
                && (old(RowsOk(rows)) && !faults.list ==>
                      ListsLineage(rows, cred.lineage, revoked))
    {
      revoked := [];
      if faults.revoke {
        return;
      }
      var work := RevokeLineage(rows, cred.owner, cred.lineage, now);
      if !faults.list {
        revoked := ListByLineage(work, cred.owner, cred.lineage);
      }
      if faults.commit {
        revoked := [];
        return;
      }
      if RowsOk(rows) {
        RevokeLineageKills(rows, cred.id, now);
      }
      rows := work;
    }
  }

  /** Verification of a presented access token: prefix, shape and MAC, then the claims,
      and only then the denylist, which must answer that the credential is not
      listed. */
  method VerifyAccess(g: Signer, store: MemoryStore, hash: string -> Bytes, presented: string, canceled: bool, now: int, storeNow: int)
    returns (ok: bool)
    requires store.Valid() && store.clock <= storeNow && forall s :: hash(s) != []
    ensures ok <==> && Verify(g, presented, now).Some? && !canceled
                    && CountOf(store.plain, Denylist.CredentialKey(hash, Verify(g, presented, now).value.credential), storeNow).value <= 0
  {
    if !(ACCESS_PREFIX <= presented) {
      return false;
    }
    var halves := Cut(presented[|ACCESS_PREFIX|..]);
    if halves.None? || '.' in halves.value.1 || Decode(halves.value.1) != Some(g.mac(halves.value.0)) {
      return false;
    }
    var payload := Decode(halves.value.0);
    if payload.None? {
      return false;
    }
    var decoded := g.unmarshal(payload.value);
    if decoded.None? {
      return false;
    }
    var claims := decoded.value;
    if claims.version != TOKEN_VERSION || claims.id == "" || claims.owner == "" || claims.credential == "" {
      return false;
    }
    var valid := ValidateScopes(claims.scopes);
    if !valid || now < claims.iat * SECOND || now >= claims.exp * SECOND {
      return false;
    }
    ok := Denylist.Check(store, hash, claims.credential, canceled, storeNow);
  }
}
