/** Unpadded base64url (section 5 of RFC 4648) with the tolerance of Go's
    RawURLEncoding: a decoder skips carriage returns and line feeds, and does not
    look at the unused low bits of the last character. */
module Base64Url {
  import opened Common

  type Digit = d: int | 0 <= d < 64

  function CharOf(d: Digit): (c: char)
    ensures c != '\n' && c != '\r' && c != '.'
    ensures DigitOf(c) == Some(d)
  {
    if d < 26 then 'A' + d as char
    else if d < 52 then 'a' + (d - 26) as char
    else if d < 62 then '0' + (d - 52) as char
    else if d == 62 then '-'
    else '_'
  }

  function DigitOf(c: char): (d: Option<Digit>) {
    if 'A' <= c <= 'Z' then Some((c - 'A') as int)
    else if 'a' <= c <= 'z' then Some((c - 'a') as int + 26)
    else if '0' <= c <= '9' then Some((c - '0') as int + 52)
    else if c == '-' then Some(62)
    else if c == '_' then Some(63)
    else None
  }

  /** The alphabet of section 5 of RFC 4648, by value: 0 to 25, 26 to 51, 52 to 61. */
  const UPPER: string := "ABCDEFGHIJKLMNOPQRSTUVWXYZ"
  const LOWER: string := "abcdefghijklmnopqrstuvwxyz"
  const DIGITS: string := "0123456789"

  lemma {:induction false} AlphabetIsRFC4648(d: Digit)
    ensures |UPPER| == 26 && |LOWER| == 26 && |DIGITS| == 10
    ensures CharOf(d) == if d < 26 then UPPER[d] else if d < 52 then LOWER[d - 26] else if d < 62 then DIGITS[d - 52]
                         else if d == 62 then '-' else '_'
  {
    if d < 26 {
      UpperAt(d);
    } else if d < 52 {
      LowerAt(d - 26);
    }
  }

  lemma {:induction false} UpperAt(d: int)
    requires 0 <= d < 26
    ensures |UPPER| == 26 && UPPER[d] == 'A' + d as char
  {
  }

  lemma {:induction false} LowerAt(d: int)
    requires 0 <= d < 26
    ensures |LOWER| == 26 && LOWER[d] == 'a' + d as char
  {
  }

  /** A character that is a digit prints back as itself. */
  lemma {:induction false} CharOfDigit(c: char)
    requires DigitOf(c).Some?
    ensures CharOf(DigitOf(c).value) == c
  {
  }

  function EncodeDigits(b: Bytes): seq<Digit> {
    if |b| == 0 then []
    else if |b| == 1 then [b[0] / 4, b[0] % 4 * 16]
    else if |b| == 2 then [b[0] / 4, b[0] % 4 * 16 + b[1] / 16, b[1] % 16 * 4]
    else [b[0] / 4, b[0] % 4 * 16 + b[1] / 16, b[1] % 16 * 4 + b[2] / 64, b[2] % 64] + EncodeDigits(b[3..])
  }

  function First(x: Digit, y: Digit): Byte { (x as int) * 4 + (y as int) / 16 }
  function Second(x: Digit, y: Digit): Byte { (x as int) % 16 * 16 + (y as int) / 4 }
  function Third(x: Digit, y: Digit): Byte { (x as int) % 4 * 64 + (y as int) }

  function DecodeDigits(d: seq<Digit>): Option<Bytes> {
    if |d| == 0 then Some([])
    else if |d| == 1 then None
    else if |d| == 2 then Some([First(d[0], d[1])])
    else if |d| == 3 then Some([First(d[0], d[1]), Second(d[1], d[2])])
    else
      match DecodeDigits(d[4..])
      case None => None
      case Some(rest) => Some([First(d[0], d[1]), Second(d[1], d[2]), Third(d[2], d[3])] + rest)
  }

  function Encode(b: Bytes): (s: string)
    ensures |s| == |EncodeDigits(b)|
  {
    seq(|EncodeDigits(b)|, i requires 0 <= i < |EncodeDigits(b)| => CharOf(EncodeDigits(b)[i]))
  }

  function Unwrapped(s: string): string {
    if s == [] then []
    else if s[0] == '\n' || s[0] == '\r' then Unwrapped(s[1..])
    else [s[0]] + Unwrapped(s[1..])
  }

  function DigitsOf(s: string): Option<seq<Digit>> {
    if s == [] then Some([])
    else
      match (DigitOf(s[0]), DigitsOf(s[1..]))
      case (Some(d), Some(rest)) => Some([d] + rest)
      case _ => None
  }

  function Decode(s: string): Option<Bytes> {
    match DigitsOf(Unwrapped(s))
    case None => None
    case Some(d) => DecodeDigits(d)
  }

  /** The unused low bits of the last digit are zero. */
  predicate ZeroTail(d: seq<Digit>) {
    && (|d| % 4 == 2 ==> d[|d| - 1] % 16 == 0)
    && (|d| % 4 == 3 ==> d[|d| - 1] % 4 == 0)
  }

  predicate NoLineBreaks(s: string) {
    forall i :: 0 <= i < |s| ==> s[i] != '\n' && s[i] != '\r'
  }

  /** The spelling the encoder produces. */
  predicate Canonical(s: string) {
    NoLineBreaks(s) && DigitsOf(s).Some? && ZeroTail(DigitsOf(s).value)
  }

  // ---------------------------------------------------------------------

  lemma {:induction false} GroupRoundTrip(x: Byte, y: Byte, z: Byte)
    ensures First(x / 4, x % 4 * 16 + y / 16) == x && First(x / 4, x % 4 * 16) == x
    ensures Second(x % 4 * 16 + y / 16, y % 16 * 4 + z / 64) == y && Second(x % 4 * 16 + y / 16, y % 16 * 4) == y
    ensures Third(y % 16 * 4 + z / 64, z % 64) == z
  {
  }

  lemma {:induction false} DecodeGroup(d: seq<Digit>, rest: Bytes, x: Byte, y: Byte, z: Byte)
    requires |d| >= 4 && DecodeDigits(d[4..]) == Some(rest)
    requires First(d[0], d[1]) == x && Second(d[1], d[2]) == y && Third(d[2], d[3]) == z
    ensures DecodeDigits(d) == Some([x, y, z] + rest)
  {
  }

  lemma {:induction false} DigitsRoundTrip(b: Bytes)
    ensures DecodeDigits(EncodeDigits(b)) == Some(b)
  {
    if |b| < 3 {
      ShortRoundTrip(b);
    } else {
      DigitsRoundTrip(b[3..]);
      GroupRoundTrip(b[0], b[1], b[2]);
      var d := EncodeDigits(b);
      assert d[4..] == EncodeDigits(b[3..]);
      DecodeGroup(d, b[3..], b[0], b[1], b[2]);
      assert b == [b[0], b[1], b[2]] + b[3..];
    }
  }

  lemma {:induction false} ShortRoundTrip(b: Bytes)
    requires |b| < 3
    ensures DecodeDigits(EncodeDigits(b)) == Some(b)
  {
    if |b| == 1 {
      PairRoundTrip(b[0]);
      assert b == [b[0]];
    } else if |b| == 2 {
      TripleRoundTrip(b[0], b[1]);
      assert b == [b[0], b[1]];
    }
  }

  lemma {:induction false} PairRoundTrip(x: Byte)
    ensures DecodeDigits([x / 4, x % 4 * 16]) == Some([x])
  {
    GroupRoundTrip(x, 0, 0);
  }

  lemma {:induction false} TripleRoundTrip(x: Byte, y: Byte)
    ensures DecodeDigits([x / 4, x % 4 * 16 + y / 16, y % 16 * 4]) == Some([x, y])
  {
    GroupRoundTrip(x, y, 0);
  }

  lemma {:induction false} EncodedTail(b: Bytes)
    ensures ZeroTail(EncodeDigits(b))
  {
    if |b| >= 3 {
      EncodedTail(b[3..]);
      assert EncodeDigits(b)[4..] == EncodeDigits(b[3..]);
    }
  }

  lemma {:induction false} EncodedLength(b: Bytes)
    ensures |EncodeDigits(b)| == (|b| * 4 + 2) / 3
  {
    if |b| >= 3 {
      EncodedLength(b[3..]);
    }
  }

  lemma {:induction false} DigitsOfChars(d: seq<Digit>, s: string)
    requires |s| == |d| && forall i :: 0 <= i < |d| ==> s[i] == CharOf(d[i])
    ensures DigitsOf(s) == Some(d) && NoLineBreaks(s) && '.' !in s
  {
    if s != [] {
      DigitsOfChars(d[1..], s[1..]);
      assert d == [d[0]] + d[1..];
    }
  }

  lemma {:induction false} UnwrappedSame(s: string)
    requires NoLineBreaks(s)
    ensures Unwrapped(s) == s
  {
    if s != [] {
      UnwrappedSame(s[1..]);
      assert s == [s[0]] + s[1..];
    }
  }

  /** Decoding undoes encoding, and the encoding is canonical and free of separators. */
  lemma {:induction false} RoundTrip(b: Bytes)
    ensures Decode(Encode(b)) == Some(b)
    ensures Canonical(Encode(b)) && '.' !in Encode(b)
    ensures |Encode(b)| == (|b| * 4 + 2) / 3
  {
    DigitsOfChars(EncodeDigits(b), Encode(b));
    UnwrappedSame(Encode(b));
    DigitsRoundTrip(b);
    EncodedTail(b);
    EncodedLength(b);
  }

  lemma {:induction false} EncodeDecodedDigits(d: seq<Digit>)
    requires DecodeDigits(d).Some? && ZeroTail(d)
    ensures EncodeDigits(DecodeDigits(d).value) == d
    decreases |d|
  {
    if |d| < 4 {
      EncodeDecodedTail(d);
    } else {
      ZeroTailOfRest(d);
      DecodedRest(d);
      EncodeDecodedDigits(d[4..]);
      EncodeDecodedGroup(d, DecodeDigits(d[4..]).value);
    }
  }

  lemma {:induction false} ZeroTailOfRest(d: seq<Digit>)
    requires |d| >= 4 && ZeroTail(d)
    ensures ZeroTail(d[4..])
  {
    assert |d[4..]| == |d| - 4 && (|d| - 4) % 4 == |d| % 4;
  }

  lemma {:induction false} DecodedRest(d: seq<Digit>)
    requires |d| >= 4 && DecodeDigits(d).Some?
    ensures DecodeDigits(d[4..]).Some?
  {
  }

  lemma {:induction false} EncodeDecodedTail(d: seq<Digit>)
    requires |d| < 4 && DecodeDigits(d).Some? && ZeroTail(d)
    ensures EncodeDigits(DecodeDigits(d).value) == d
  {
    if |d| == 2 {
      FirstBack(d[0], d[1]);
      assert d == [d[0], d[1]];
    } else if |d| == 3 {
      EncodeDecodedTriple(d[0], d[1], d[2]);
      assert d == [d[0], d[1], d[2]];
    }
  }

  lemma {:induction false} EncodeDecodedTriple(x: Digit, y: Digit, z: Digit)
    requires z % 4 == 0
    ensures EncodeDigits([First(x, y), Second(y, z)]) == [x, y, z]
  {
    FirstBack(x, y);
    SecondBack(x, y, z);
    assert EncodeDigits([First(x, y), Second(y, z)])
        == [First(x, y) / 4, First(x, y) % 4 * 16 + Second(y, z) / 16, Second(y, z) % 16 * 4];
  }

  lemma {:induction false} FirstBack(w: Digit, x: Digit)
    ensures First(w, x) / 4 == w && First(w, x) % 4 == x / 16
  {
  }

  lemma {:induction false} SecondBack(w: Digit, x: Digit, y: Digit)
    ensures First(w, x) % 4 * 16 + Second(x, y) / 16 == x && Second(x, y) % 16 == y / 4
  {
    FirstBack(w, x);
  }

  lemma {:induction false} ThirdBack(x: Digit, y: Digit, z: Digit)
    ensures Second(x, y) % 16 * 4 + Third(y, z) / 64 == y && Third(y, z) % 64 == z
  {
    assert Second(x, y) % 16 == y / 4;
  }

  lemma {:induction false} EncodeDecodedGroup(d: seq<Digit>, rest: Bytes)
    requires |d| >= 4 && DecodeDigits(d[4..]) == Some(rest) && EncodeDigits(rest) == d[4..]
    ensures DecodeDigits(d).Some? && EncodeDigits(DecodeDigits(d).value) == d
  {
    FirstBack(d[0], d[1]);
    SecondBack(d[0], d[1], d[2]);
    ThirdBack(d[1], d[2], d[3]);
    EncodeGroup(First(d[0], d[1]), Second(d[1], d[2]), Third(d[2], d[3]), rest, d[0], d[1], d[2], d[3]);
    assert d == [d[0], d[1], d[2], d[3]] + d[4..];
  }

  /** Three leading bytes whose digits are known. */
  lemma {:induction false} EncodeGroup(x: Byte, y: Byte, z: Byte, rest: Bytes, p: Digit, q: Digit, r: Digit, t: Digit)
    requires x / 4 == p && x % 4 * 16 + y / 16 == q && y % 16 * 4 + z / 64 == r && z % 64 == t
    ensures EncodeDigits([x, y, z] + rest) == [p, q, r, t] + EncodeDigits(rest)
  {
    var b := [x, y, z] + rest;
    assert b[3..] == rest && b[0] == x && b[1] == y && b[2] == z;
  }

  lemma {:induction false} CharsOfDigits(s: string)
    requires DigitsOf(s).Some?
    ensures |DigitsOf(s).value| == |s|
    ensures forall i :: 0 <= i < |s| ==> s[i] == CharOf(DigitsOf(s).value[i])
  {
    if s != [] {
      CharsOfDigits(s[1..]);
      CharOfDigit(s[0]);
    }
  }

  /** Encoding undoes decoding on exactly the canonical spellings. */
  lemma {:induction false} CanonicalIff(s: string)
    requires Decode(s).Some?
    ensures Encode(Decode(s).value) == s <==> Canonical(s)
  {
    var b := Decode(s).value;
    if Canonical(s) {
      UnwrappedSame(s);
      CharsOfDigits(s);
      EncodeDecodedDigits(DigitsOf(s).value);
    } else if Encode(b) == s {
      RoundTrip(b);
    }
  }

  /** Which strings decode: nothing but the alphabet and line breaks, and not one digit
      more than a whole number of groups. */
  lemma {:induction false} DecodesIff(s: string)
    ensures Decode(s).Some? <==>
              && (forall i :: 0 <= i < |s| ==> s[i] == '\n' || s[i] == '\r' || DigitOf(s[i]).Some?)
              && |Unwrapped(s)| % 4 != 1
  {
    UnwrappedMembers(s);
    DigitsOfIff(Unwrapped(s));
    if DigitsOf(Unwrapped(s)).Some? {
      CharsOfDigits(Unwrapped(s));
      DecodeDigitsIff(DigitsOf(Unwrapped(s)).value);
    }
  }

  lemma {:induction false} UnwrappedMembers(s: string)
    ensures (forall i :: 0 <= i < |Unwrapped(s)| ==> DigitOf(Unwrapped(s)[i]).Some?) <==>
            (forall i :: 0 <= i < |s| ==> s[i] == '\n' || s[i] == '\r' || DigitOf(s[i]).Some?)
  {
    UnwrappedHolds(s);
    forall i | 0 <= i < |Unwrapped(s)|
      ensures Unwrapped(s)[i] in s && Unwrapped(s)[i] != '\n' && Unwrapped(s)[i] != '\r'
    {
      assert Unwrapped(s)[i] in Unwrapped(s);
    }
    forall i | 0 <= i < |s| && s[i] != '\n' && s[i] != '\r'
      ensures s[i] in Unwrapped(s)
    {
      assert s[i] in s;
    }
  }

  /** Unwrapping keeps exactly the characters that are not line breaks. */
  lemma {:induction false} UnwrappedHolds(s: string)
    ensures forall c :: c in Unwrapped(s) <==> c in s && c != '\n' && c != '\r'
    decreases |s|
  {
    if s != [] {
      UnwrappedHolds(s[1..]);
      assert s == [s[0]] + s[1..];
    }
  }

  lemma {:induction false} DigitsOfIff(s: string)
    ensures DigitsOf(s).Some? <==> forall i :: 0 <= i < |s| ==> DigitOf(s[i]).Some?
    decreases |s|
  {
    if s != [] {
      DigitsOfIff(s[1..]);
      assert forall i :: 0 <= i < |s| - 1 ==> s[1..][i] == s[i + 1];
    }
  }

  lemma {:induction false} DecodeDigitsIff(d: seq<Digit>)
    ensures DecodeDigits(d).Some? <==> |d| % 4 != 1
    decreases |d|
  {
    if |d| >= 4 {
      DecodeDigitsIff(d[4..]);
      assert |d[4..]| == |d| - 4 && (|d| - 4) % 4 == |d| % 4;
    }
  }
}
