/** Wire forms of the refresh token and the device code: prefix, identifier, one
    separator, secret. */
module TokenFormat {
  import opened Common
  import opened Base64Url

  const REFRESH_PREFIX: string := "svr_"
  const ACCESS_PREFIX: string := "sva_"
  const DEVICE_PREFIX: string := "svd_"
  const ADMIN_PREFIX: string := "sadm_"

  const ID_CHARS := 22
  const SECRET_BYTES := 32

  /** The two halves around the first separator. */
  function Cut(s: string): Option<(string, string)> {
    if s == [] then None
    else if s[0] == '.' then Some(([], s[1..]))
    else
      match Cut(s[1..])
      case None => None
      case Some((before, after)) => Some(([s[0]] + before, after))
  }

  function Format(prefix: string, id: string, secret: Bytes): string {
    prefix + id + "." + Encode(secret)
  }

  function Parse(prefix: string, presented: string): Option<(string, Bytes)> {
    if !(prefix <= presented) then None
    else
      match Cut(presented[|prefix|..])
      case None => None
      case Some((id, secretPart)) =>
        if '.' in secretPart || |id| != ID_CHARS || Decode(id) == None then None
        else
          match Decode(secretPart)
          case None => None
          case Some(secret) => if |secret| == SECRET_BYTES then Some((id, secret)) else None
  }

  function ParseRefreshToken(presented: string): Option<(string, Bytes)> {
    Parse(REFRESH_PREFIX, presented)
  }

  function ParseDeviceCode(presented: string): Option<(string, Bytes)> {
    Parse(DEVICE_PREFIX, presented)
  }

  // ---------------------------------------------------------------------

  lemma {:induction false} CutAt(id: string, rest: string)
    requires '.' !in id
    ensures Cut(id + "." + rest) == Some((id, rest))
  {
    var s := id + "." + rest;
    if id == [] {
      assert s[1..] == rest;
    } else {
      assert s[1..] == id[1..] + "." + rest;
      CutAt(id[1..], rest);
      assert id == [id[0]] + id[1..];
    }
  }

  lemma {:induction false} CutJoins(s: string)
    ensures Cut(s).Some? ==> s == Cut(s).value.0 + "." + Cut(s).value.1 && '.' !in Cut(s).value.0
  {
    if s != [] && s[0] != '.' {
      CutJoins(s[1..]);
      assert s == [s[0]] + s[1..];
    } else if s != [] {
      assert s == [] + "." + s[1..];
    }
  }

  lemma {:induction false} DecodableHasNoSeparator(s: string)
    requires DigitsOf(Unwrapped(s)).Some?
    ensures '.' !in s
  {
    if s != [] {
      DecodableHasNoSeparator(s[1..]);
    }
  }

  /** Parsing undoes printing. */
  lemma {:induction false} ParseFormat(prefix: string, id: string, secret: Bytes)
    requires |id| == ID_CHARS && Decode(id).Some? && |secret| == SECRET_BYTES
    ensures Parse(prefix, Format(prefix, id, secret)) == Some((id, secret))
  {
    var s := Format(prefix, id, secret);
    assert s[..|prefix|] == prefix;
    assert s[|prefix|..] == id + "." + Encode(secret);
    DecodableHasNoSeparator(id);
    CutAt(id, Encode(secret));
    RoundTrip(secret);
  }

  /** Every freshly drawn identifier has the printable shape. */
  lemma {:induction false} FreshIdPrints(random: Bytes)
    requires |random| == 16
    ensures |Encode(random)| == ID_CHARS && Decode(Encode(random)).Some?
  {
    RoundTrip(random);
  }

  /** The secret part of an accepted string. */
  function SecretPart(prefix: string, presented: string): string
    requires |presented| >= |prefix| + ID_CHARS + 1
  {
    presented[|prefix| + ID_CHARS + 1..]
  }

  lemma {:induction false} ParsedShape(prefix: string, presented: string)
    requires Parse(prefix, presented).Some?
    ensures |presented| >= |prefix| + ID_CHARS + 1
    ensures var (id, secret) := Parse(prefix, presented).value;
            presented == prefix + id + "." + SecretPart(prefix, presented)
            && Decode(SecretPart(prefix, presented)) == Some(secret)
  {
    var body := presented[|prefix|..];
    CutJoins(body);
    var (id, secretPart) := Cut(body).value;
    assert presented == prefix + body;
    assert presented == prefix + id + "." + secretPart;
    assert presented[|prefix| + ID_CHARS + 1..] == secretPart;
  }

  /** What is accepted: the prefix, an identifier of 22 characters that decodes, one
      separator, and a secret of 32 bytes in some spelling. */
  lemma {:induction false} ParseIff(prefix: string, presented: string, id: string, secret: Bytes)
    ensures Parse(prefix, presented) == Some((id, secret)) <==>
              && |id| == 22 && Decode(id).Some? && |secret| == 32
              && exists part :: presented == prefix + id + "." + part && '.' !in part && Decode(part) == Some(secret)
  {
    if Parse(prefix, presented) == Some((id, secret)) {
      ParsedShape(prefix, presented);
      DecodableHasNoSeparator(SecretPart(prefix, presented));
    }
    if part :| presented == prefix + id + "." + part && '.' !in part && Decode(part) == Some(secret) {
      if |id| == 22 && Decode(id).Some? && |secret| == 32 {
        assert presented[..|prefix|] == prefix;
        assert presented[|prefix|..] == id + "." + part;
        DecodableHasNoSeparator(id);
        CutAt(id, part);
      }
    }
  }

  /** Printing undoes parsing exactly on the canonical spellings of the secret. The
      parser also accepts other spellings: it is not injective. */
  lemma {:induction false} FormatParseIff(prefix: string, presented: string)
    requires Parse(prefix, presented).Some?
    ensures |presented| >= |prefix| + ID_CHARS + 1
    ensures var (id, secret) := Parse(prefix, presented).value;
            Format(prefix, id, secret) == presented <==> Canonical(SecretPart(prefix, presented))
  {
    ParsedShape(prefix, presented);
    var (id, secret) := Parse(prefix, presented).value;
    var secretPart := SecretPart(prefix, presented);
    CanonicalIff(secretPart);
    if Format(prefix, id, secret) == presented {
      assert Encode(secret) == Format(prefix, id, secret)[|prefix + id + "."|..] == secretPart;
    }
  }

  lemma {:induction false} UnwrappedTrailing(s: string)
    ensures Unwrapped(s + "\n") == Unwrapped(s)
  {
    if s == [] {
      assert ("\n")[1..] == [];
      assert s + "\n" == "\n";
    } else {
      UnwrappedTrailing(s[1..]);
      assert (s + "\n")[1..] == s[1..] + "\n";
    }
  }

  /** A second accepted spelling of every accepted string: one more line feed. */
  lemma {:induction false} SecondSpelling(prefix: string, presented: string)
    requires Parse(prefix, presented).Some?
    ensures Parse(prefix, presented + "\n") == Parse(prefix, presented)
  {
    ParsedShape(prefix, presented);
    var (id, secret) := Parse(prefix, presented).value;
    var secretPart := SecretPart(prefix, presented);
    CutJoins(presented[|prefix|..]);
    UnwrappedTrailing(secretPart);
    CutAt(id, secretPart + "\n");
    CutAt(id, secretPart);
    assert presented[|prefix|..] == id + "." + secretPart;
    assert (presented + "\n")[|prefix|..] == id + "." + (secretPart + "\n");
    assert (presented + "\n")[..|prefix|] == presented[..|prefix|];
  }

  /** No string is accepted as two kinds of token: the prefixes exclude each other. */
  lemma {:induction false} KindsAreDisjoint(p: string, q: string, presented: string)
    requires p in {REFRESH_PREFIX, ACCESS_PREFIX, DEVICE_PREFIX, ADMIN_PREFIX}
    requires q in {REFRESH_PREFIX, ACCESS_PREFIX, DEVICE_PREFIX, ADMIN_PREFIX}
    requires p <= presented && q <= presented
    ensures p == q
  {
    assert presented[1] == p[1] == q[1] && presented[2] == p[2] == q[2];
  }
}
