/** The denylist: credentials whose access tokens must stop being accepted early. */
module Denylist {
  import opened Common
  import opened Base64Url
  import opened Credentials
  import opened CounterStore

  const DENYLIST_SKEW := MINUTE
  const ENTRY_TTL := ACCESS_TOKEN_LIFETIME + DENYLIST_SKEW

  const KEY_PREFIX: string := "vallet.auth.denylist.v1"
  const SUBJECT: string := "cred"
  const APPROVAL_PREFIX: string := "vallet.auth.approval.v1"

  /** Store keys are digests of a prefixed subject; hash stands for SHA-256. */
  function CredentialKey(hash: string -> Bytes, id: string): string {
    Encode(hash(KEY_PREFIX + "\0" + SUBJECT + "\0" + id))
  }

  function ApprovalKey(hash: string -> Bytes, owner: string): string {
    Encode(hash(APPROVAL_PREFIX + "\0" + owner))
  }

  lemma {:induction false} EncodeInjective(a: Bytes, b: Bytes)
    requires Encode(a) == Encode(b)
    ensures a == b
  {
    RoundTrip(a);
    RoundTrip(b);
  }

  /** With a collision-free hash, different credentials have different keys. */
  lemma {:induction false} CredentialKeyInjective(hash: string -> Bytes, a: string, b: string)
    requires Injective(hash) && CredentialKey(hash, a) == CredentialKey(hash, b)
    ensures a == b
  {
    var prefix := KEY_PREFIX + "\0" + SUBJECT + "\0";
    EncodeInjective(hash(prefix + a), hash(prefix + b));
    assert a == (prefix + a)[|prefix|..] == (prefix + b)[|prefix|..] == b;
  }

  lemma {:induction false} ApprovalKeyInjective(hash: string -> Bytes, a: string, b: string)
    requires Injective(hash) && ApprovalKey(hash, a) == ApprovalKey(hash, b)
    ensures a == b
  {
    var prefix := APPROVAL_PREFIX + "\0";
    EncodeInjective(hash(prefix + a), hash(prefix + b));
    assert a == (prefix + a)[|prefix|..] == (prefix + b)[|prefix|..] == b;
  }

  /** A denylist key is never an approval-limit key. */
  lemma {:induction false} KeyspacesDisjoint(hash: string -> Bytes, id: string, owner: string)
    requires Injective(hash)
    ensures CredentialKey(hash, id) != ApprovalKey(hash, owner)
  {
    var denied, limited := KEY_PREFIX + "\0" + SUBJECT + "\0" + id, APPROVAL_PREFIX + "\0" + owner;
    assert denied[12] == 'd' && limited[12] == 'a';
    if CredentialKey(hash, id) == ApprovalKey(hash, owner) {
      EncodeInjective(hash(denied), hash(limited));
    }
  }

  /** The store after listing the rows issued after the cutoff, the i-th write
      happening at clock(i). */
  function Listed(m: Entries, hash: string -> Bytes, rows: seq<Credential>, cutoff: int, clock: nat -> int): Entries {
    if rows == [] then m
    else
      var last := |rows| - 1;
      var before := Listed(m, hash, rows[..last], cutoff, clock);
      if rows[last].issuedAt > cutoff then Incremented(before, CredentialKey(hash, rows[last].id), 1, ENTRY_TTL, clock(last))
      else before
  }

  /** Every row issued after the cutoff has its key in the store. */
  lemma {:induction false} ListedHoldsKeys(m: Entries, hash: string -> Bytes, rows: seq<Credential>, cutoff: int, clock: nat -> int)
    ensures forall i :: 0 <= i < |rows| && rows[i].issuedAt > cutoff ==>
              CredentialKey(hash, rows[i].id) in Listed(m, hash, rows, cutoff, clock)
    decreases |rows|
  {
    if rows != [] {
      var last := |rows| - 1;
      ListedHoldsKeys(m, hash, rows[..last], cutoff, clock);
      forall i | 0 <= i < |rows| && rows[i].issuedAt > cutoff
        ensures CredentialKey(hash, rows[i].id) in Listed(m, hash, rows, cutoff, clock)
      {
        if i < last {
          assert rows[..last][i] == rows[i];
        }
      }
    }
  }

  /** Rows issued up to the cutoff add nothing. */
  lemma {:induction false} OldRowsAddNothing(m: Entries, hash: string -> Bytes, rows: seq<Credential>, cutoff: int, clock: nat -> int)
    requires forall i :: 0 <= i < |rows| ==> rows[i].issuedAt <= cutoff
    ensures Listed(m, hash, rows, cutoff, clock) == m
    decreases |rows|
  {
    if rows != [] {
      OldRowsAddNothing(m, hash, rows[..|rows| - 1], cutoff, clock);
    }
  }

  datatype ListError = MalformedRow | StoreFault

  /** The row stops a listing: it must be listed and cannot be. */
  predicate Stops(row: Credential, cutoff: int, canceled: bool) {
    row.issuedAt > cutoff && (row.id == "" || canceled)
  }

  lemma {:induction false} KeyIsNotEmpty(hash: string -> Bytes, id: string)
    requires forall s :: hash(s) != []
    ensures CredentialKey(hash, id) != ""
  {
    RoundTrip(hash(KEY_PREFIX + "\0" + SUBJECT + "\0" + id));
  }

  /** List every credential whose access tokens may still be alive. The listing stops
      at the first row that cannot be listed, and reports it; what was listed before
      stays listed. clock(i) is the store's reading at the i-th row and canceled(i)
      whether its write is refused. */
  method RevokeLineage(store: MemoryStore, hash: string -> Bytes, rows: seq<Credential>, now: int,
                       clock: nat -> int, canceled: nat -> bool)
    returns (r: Result<(), ListError>, ghost reached: nat)
    requires store.Valid() && forall s :: hash(s) != []
    requires forall i: nat :: store.clock <= clock(i)
    requires forall i: nat, j: nat :: i <= j ==> clock(i) <= clock(j)
    modifies store
    ensures store.Valid()
    ensures reached <= |rows| && store.plain == Listed(old(store.plain), hash, rows[..reached], now - ENTRY_TTL, clock)
    ensures r.Ok? ==> reached == |rows|
    ensures r.Ok? <==> forall i :: 0 <= i < |rows| ==> !Stops(rows[i], now - ENTRY_TTL, canceled(i))
    ensures r.Ok? ==> forall i :: 0 <= i < |rows| && rows[i].issuedAt > now - ENTRY_TTL ==>
              rows[i].id != "" && !canceled(i) && CredentialKey(hash, rows[i].id) in store.plain
    ensures r.Err? ==> reached < |rows| && rows[reached].issuedAt > now - ENTRY_TTL && (rows[reached].id == "" || canceled(reached))
    ensures r.Err? ==> reached < |rows| && Stops(rows[reached], now - ENTRY_TTL, canceled(reached))
                       && forall i :: 0 <= i < reached ==> !Stops(rows[i], now - ENTRY_TTL, canceled(i))
  {
    var cutoff := now - ENTRY_TTL;
    for i := 0 to |rows|
      invariant store.Valid()
      invariant forall j: nat :: i <= j ==> store.clock <= clock(j)
      invariant store.plain == Listed(old(store.plain), hash, rows[..i], cutoff, clock)
      invariant forall j :: 0 <= j < i ==> !Stops(rows[j], cutoff, canceled(j))
    {
      assert rows[..i + 1][..i] == rows[..i];
      if rows[i].issuedAt <= cutoff {
        continue;
      }
      if rows[i].id == "" {
        return Err(MalformedRow), i;
      }
      KeyIsNotEmpty(hash, rows[i].id);
      var listed := store.Increment(CredentialKey(hash, rows[i].id), 1, ENTRY_TTL, canceled(i), clock(i));
      if listed.Err? {
        return Err(StoreFault), i;
      }
    }
    assert rows[..|rows|] == rows;
    ListedHoldsKeys(old(store.plain), hash, rows, cutoff, clock);
    return Ok(()), |rows|;
  }

  /** Permitted only by a positive answer: an empty credential id, an unreachable
      store and a listed credential all deny. */
  method Check(store: MemoryStore, hash: string -> Bytes, credential: string, canceled: bool, now: int)
    returns (permitted: bool)
    requires store.Valid() && store.clock <= now && forall s :: hash(s) != []
    ensures permitted <==> credential != "" && !canceled && CountOf(store.plain, CredentialKey(hash, credential), now).value <= 0
  {
    if credential == "" {
      return false;
    }
    KeyIsNotEmpty(hash, credential);
    var got := store.Get(CredentialKey(hash, credential), canceled, now);
    return got.Ok? && got.value.value <= 0;
  }
}
