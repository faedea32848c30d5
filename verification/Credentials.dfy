/** Refresh credentials: the stored rows and the repository statements over them.

    The statements follow the SQL of the two storage adapters: MarkRotated is one
    conditional update, RevokeLineage rewrites every row of one owner's lineage
    that is not revoked yet, and ListByLineage reads that lineage back. */
module Credentials {
  import opened Common
  import opened Scopes

  datatype Status = Active | Rotated | Revoked | Expired

  datatype Credential = Credential(
    id: string,
    owner: string,
    lineage: string,
    secretHash: Bytes,
    scopes: seq<Scope>,
    clientLabel: string,
    rotatedFrom: Option<string>,
    issuedAt: int,
    expiresAt: int,
    status: Status,
    revokedAt: Option<int>)

  /** Committed rows by primary key. */
  type Table = map<string, Credential>

  /** Absolute cap on a lineage, and lifetime of an access token. */
  const REFRESH_LINEAGE_LIFETIME := 90 * DAY
  const ACCESS_TOKEN_LIFETIME := 15 * MINUTE

  const MAX_CLIENT_LABEL := 64

  /** The control characters of Unicode, category Cc. */
  predicate IsControl(c: char) {
    c < ' ' || '\U{007F}' <= c <= '\U{009F}'
  }

  /** A label is bounded in bytes and free of control characters. */
  predicate LabelOk(text: string) {
    Utf8Length(text) <= MAX_CLIENT_LABEL && forall i :: 0 <= i < |text| ==> !IsControl(text[i])
  }

  /** An accepted label is short and can neither break a line nor start a terminal escape. */
  lemma {:induction false} LabelIsPrintable(text: string)
    requires LabelOk(text)
    ensures |text| <= 64
    ensures '\n' !in text && '\r' !in text && '\t' !in text && '\U{001B}' !in text && '\U{007F}' !in text && '\U{009B}' !in text && '\0' !in text
  {
    Utf8Bounds(text);
  }

  method ValidateClientLabel(text: string) returns (ok: bool)
    ensures ok <==> LabelOk(text)
  {
    if Utf8Length(text) > MAX_CLIENT_LABEL {
      return false;
    }
    for i := 0 to |text|
      invariant forall k :: 0 <= k < i ==> !IsControl(text[k])
    {
      if IsControl(text[i]) {
        return false;
      }
    }
    return true;
  }

  function RootCredential(id: string, owner: string, secretHash: Bytes, scopes: seq<Scope>, clientLabel: string, now: int): Credential {
    Credential(id, owner, id, secretHash, scopes, clientLabel, None, now, now + REFRESH_LINEAGE_LIFETIME, Active, None)
  }

  /** The successor an exchange creates: only the id, the digest, the parent link
      and the issue time are new; the deadline is copied. */
  function ChildCredential(parent: Credential, id: string, secretHash: Bytes, now: int): Credential {
    Credential(id, parent.owner, parent.lineage, secretHash, parent.scopes, parent.clientLabel,
               Some(parent.id), now, parent.expiresAt, Active, None)
  }

  datatype Conditional = Applied | NotFound | Conflict

  /** Outcome of the conditional active-to-rotated update of one owner's row. */
  function MarkRotatedOutcome(rows: Table, owner: string, id: string): Conditional {
    if id !in rows || rows[id].owner != owner then NotFound
    else if rows[id].status == Active then Applied
    else Conflict
  }

  predicate InLineage(row: Credential, owner: string, lineage: string) {
    row.owner == owner && row.lineage == lineage
  }

  /** Rows the lineage revocation changes. */
  function Revocable(rows: Table, owner: string, lineage: string): set<string> {
    set id | id in rows && InLineage(rows[id], owner, lineage) && rows[id].status != Revoked
  }

  /** The table with the given rows revoked at now. */
  function WithRevoked(rows: Table, ids: set<string>, now: int): (r: Table)
    ensures r.Keys == rows.Keys
  {
    map id | id in rows :: if id in ids then rows[id].(status := Revoked, revokedAt := Some(now)) else rows[id]
  }

  function RevokeLineage(rows: Table, owner: string, lineage: string, now: int): Table {
    WithRevoked(rows, Revocable(rows, owner, lineage), now)
  }

  /** Everything but the mutable columns agrees. */
  predicate SameIdentity(a: Credential, b: Credential) {
    a.(status := b.status, revokedAt := b.revokedAt) == b
  }

  /** The columns every credential of a lineage shares. */
  predicate SameGrant(a: Credential, b: Credential) {
    a.owner == b.owner && a.lineage == b.lineage && a.scopes == b.scopes
    && a.clientLabel == b.clientLabel && a.expiresAt == b.expiresAt
  }
}
