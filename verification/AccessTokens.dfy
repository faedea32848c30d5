/** Self-contained access tokens: prefix, encoded claims, one separator, MAC.

    The MAC and the claim codec are parameters: mac is HMAC-SHA256 under the
    service's key, marshal and unmarshal are the JSON encoding of the claims. */
module AccessTokens {
  import opened Common
  import opened Scopes
  import opened Base64Url
  import opened TokenFormat

  const TOKEN_VERSION := 1

  datatype AccessToken = AccessToken(
    id: string, owner: string, credential: string, scopes: seq<Scope>, issuedAt: int, expiresAt: int)

  datatype Claims = Claims(
    version: int, id: string, owner: string, credential: string, scopes: seq<Scope>, iat: int, exp: int)

  datatype Signer = Signer(mac: string -> Bytes, marshal: Claims -> Bytes, unmarshal: Bytes -> Option<Claims>)

  /** Decoding undoes encoding of claims. */
  ghost predicate Lossless(g: Signer) {
    forall c :: g.unmarshal(g.marshal(c)) == Some(c)
  }

  /** Whole seconds since the epoch, rounded down, as time.Time.Unix reports them. */
  function Unix(t: int): int { t / SECOND }

  function ClaimsOf(tok: AccessToken): Claims {
    Claims(TOKEN_VERSION, tok.id, tok.owner, tok.credential, tok.scopes, Unix(tok.issuedAt), Unix(tok.expiresAt))
  }

  /** The token as the verifier reports it: times truncated to whole seconds. */
  function Truncated(tok: AccessToken): AccessToken {
    tok.(issuedAt := Unix(tok.issuedAt) * SECOND, expiresAt := Unix(tok.expiresAt) * SECOND)
  }

  ghost predicate Issuable(tok: AccessToken) {
    && tok.id != "" && tok.owner != "" && tok.credential != ""
    && Grantable(tok.scopes) && tok.issuedAt < tok.expiresAt
  }

  function Payload(g: Signer, tok: AccessToken): string {
    Encode(g.marshal(ClaimsOf(tok)))
  }

  ghost function Issue(g: Signer, tok: AccessToken): Option<string> {
    if !Issuable(tok) then None
    else Some(ACCESS_PREFIX + Payload(g, tok) + "." + Encode(g.mac(Payload(g, tok))))
  }

  ghost function Verify(g: Signer, presented: string, now: int): Option<AccessToken> {
    if !(ACCESS_PREFIX <= presented) then None
    else
      match Cut(presented[|ACCESS_PREFIX|..])
      case None => None
      case Some((encoded, macPart)) =>
        if '.' in macPart || Decode(macPart) != Some(g.mac(encoded)) then None
        else
          match Decode(encoded)
          case None => None
          case Some(payload) =>
            match g.unmarshal(payload)
            case None => None
            case Some(claims) => Accept(claims, now)
  }

  /** The checks on authenticated claims. */
  ghost function Accept(c: Claims, now: int): Option<AccessToken> {
    if c.version != TOKEN_VERSION || c.id == "" || c.owner == "" || c.credential == "" then None
    else if !Grantable(c.scopes) then None
    else if now < c.iat * SECOND || now >= c.exp * SECOND then None
    else Some(AccessToken(c.id, c.owner, c.credential, c.scopes, c.iat * SECOND, c.exp * SECOND))
  }

  /** An issued token verifies, to the second, exactly while now is at or after its
      truncated issue time and before its truncated expiry. */
  lemma {:induction false} IssuedTokenVerifies(g: Signer, tok: AccessToken, now: int)
    requires Lossless(g) && Issuable(tok)
    ensures Verify(g, Issue(g, tok).value, now)
         == if Truncated(tok).issuedAt <= now < Truncated(tok).expiresAt then Some(Truncated(tok)) else None
  {
    var payload := Payload(g, tok);
    var s := Issue(g, tok).value;
    assert s[..|ACCESS_PREFIX|] == ACCESS_PREFIX;
    assert s[|ACCESS_PREFIX|..] == payload + "." + Encode(g.mac(payload));
    RoundTrip(g.marshal(ClaimsOf(tok)));
    RoundTrip(g.mac(payload));
    CutAt(payload, Encode(g.mac(payload)));
  }

  /** Whoever presents a string, the MAC it carries verifies only for a message some
      issued token was signed over. */
  ghost predicate OnlySigned(g: Signer, presented: string, issued: set<AccessToken>) {
    ACCESS_PREFIX <= presented && Cut(presented[|ACCESS_PREFIX|..]).Some? ==>
      var (encoded, macPart) := Cut(presented[|ACCESS_PREFIX|..]).value;
      Decode(macPart) == Some(g.mac(encoded)) ==> exists tok :: tok in issued && encoded == Payload(g, tok)
  }

  /** Every accepted string speaks for an issued token, inside that token's window. */
  lemma {:induction false} AcceptedWasIssued(g: Signer, presented: string, now: int, issued: set<AccessToken>)
    requires Lossless(g) && OnlySigned(g, presented, issued)
    requires Verify(g, presented, now).Some?
    ensures exists tok :: tok in issued && Verify(g, presented, now) == Some(Truncated(tok))
              && Truncated(tok).issuedAt <= now < Truncated(tok).expiresAt
  {
    var (encoded, macPart) := Cut(presented[|ACCESS_PREFIX|..]).value;
    var tok :| tok in issued && encoded == Payload(g, tok);
    RoundTrip(g.marshal(ClaimsOf(tok)));
  }

  /** What acceptance guarantees about the string itself: it carries the MAC of its own
      payload, and claims of this version that are complete, grantable and current. */
  lemma {:induction false} AcceptedIsAuthentic(g: Signer, presented: string, now: int)
    requires Verify(g, presented, now).Some?
    ensures exists encoded, macPart, c ::
              && presented == "sva_" + encoded + "." + macPart
              && Decode(macPart) == Some(g.mac(encoded))
              && Decode(encoded).Some? && g.unmarshal(Decode(encoded).value) == Some(c)
              && c.version == 1 && c.id != "" && c.owner != "" && c.credential != "" && Grantable(c.scopes)
              && c.iat * SECOND <= now < c.exp * SECOND
              && Verify(g, presented, now).value == AccessToken(c.id, c.owner, c.credential, c.scopes, c.iat * SECOND, c.exp * SECOND)
  {
    var body := presented[|ACCESS_PREFIX|..];
    CutJoins(body);
    var (encoded, macPart) := Cut(body).value;
    assert presented == ACCESS_PREFIX + body;
    assert presented == ACCESS_PREFIX + encoded + "." + macPart;
  }
}
