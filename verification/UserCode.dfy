/** User codes: the short code a person transcribes to approve a pairing. */
module UserCode {
  import opened Common

  const CODE_LEN := 8
  const ALPHABET: string := "23456789ABCDEFGHJKLMNPQRSTUVWXYZ"

  predicate InAlphabet(c: char) {
    ('2' <= c <= '9') || ('A' <= c <= 'Z' && c != 'I' && c != 'O')
  }

  lemma {:induction false} AlphabetMembers()
    ensures |ALPHABET| == 32
    ensures forall i :: 0 <= i < |ALPHABET| ==> InAlphabet(ALPHABET[i])
  {
  }

  /** A canonical code. */
  predicate IsCode(code: string) {
    |code| == CODE_LEN && forall i :: 0 <= i < |code| ==> InAlphabet(code[i])
  }

  predicate Grouping(c: char) {
    c == '-' || c == ' '
  }

  /** Uppercasing is the Unicode simple mapping; only its ASCII part is fixed. */
  ghost predicate IsUpper(upper: char -> char) {
    forall c: char :: c < 128 as char ==> upper(c) == (if 'a' <= c <= 'z' then (c as int - 32) as char else c)
  }

  /** One typed character folded onto the alphabet's member of its class. */
  function Folded(c: char): char {
    if c == '1' || c == 'I' then 'L' else c
  }

  /** What is left of a typed code: grouping dropped, the bar class folded. */
  function Kept(typed: string, upper: char -> char): string {
    if typed == [] then []
    else if Grouping(upper(typed[0])) then Kept(typed[1..], upper)
    else [Folded(upper(typed[0]))] + Kept(typed[1..], upper)
  }

  function Normalize(typed: string, upper: char -> char): Option<string> {
    if IsCode(Kept(typed, upper)) then Some(Kept(typed, upper)) else None
  }

  lemma {:induction false} KeptAppend(a: string, b: string, upper: char -> char)
    ensures Kept(a + b, upper) == Kept(a, upper) + Kept(b, upper)
  {
    if a == [] {
      assert a + b == b;
    } else {
      assert (a + b)[1..] == a[1..] + b;
      KeptAppend(a[1..], b, upper);
    }
  }

  /** The normalizing loop, with its refusals in the middle. */
  method NormalizeUserCode(typed: string, upper: char -> char) returns (r: Option<string>)
    ensures r == Normalize(typed, upper)
  {
    var built: string := "";
    for i := 0 to |typed|
      invariant built == Kept(typed[..i], upper)
      invariant |built| <= CODE_LEN && forall k :: 0 <= k < |built| ==> InAlphabet(built[k])
    {
      assert typed[..i + 1] == typed[..i] + [typed[i]];
      assert typed == typed[..i + 1] + typed[i + 1..];
      KeptAppend(typed[..i], [typed[i]], upper);
      KeptAppend(typed[..i + 1], typed[i + 1..], upper);
      var c := upper(typed[i]);
      if Grouping(c) {
        continue;
      }
      c := Folded(c);
      assert Kept(typed[..i + 1], upper) == built + [c];
      assert Kept(typed, upper)[|built|] == c;
      if !InAlphabet(c) {
        return None;
      }
      if |built| == CODE_LEN {
        return None;
      }
      built := built + [c];
    }
    assert typed[..|typed|] == typed;
    if |built| != CODE_LEN {
      return None;
    }
    return Some(built);
  }

  function Symbol(b: Byte): (c: char)
    ensures InAlphabet(c)
  {
    AlphabetMembers();
    ALPHABET[(b as int) % 32]
  }

  lemma {:induction false} AlphabetAt(i: nat)
    requires i < 32
    ensures |ALPHABET| == 32
    ensures ALPHABET[i] as int == if i < 8 then 50 + i else if i < 16 then 57 + i else if i < 21 then 58 + i else 59 + i
  {
  }

  /** Every symbol is drawn by eight of the 256 bytes, and by no other. */
  lemma {:induction false} EverySymbolEightTimes(i: nat, b: Byte)
    requires i < 32
    ensures |ALPHABET| == 32
    ensures Symbol(b) == ALPHABET[i] <==>
              b == i || b == i + 32 || b == i + 64 || b == i + 96 || b == i + 128 || b == i + 160 || b == i + 192 || b == i + 224
  {
    AlphabetAt(i);
    AlphabetAt((b as int) % 32);
    SameRemainder(b as int, i);
  }

  lemma {:induction false} SameRemainder(b: int, i: int)
    requires 0 <= b < 256 && 0 <= i < 32
    ensures b % 32 == i <==>
              b == i || b == i + 32 || b == i + 64 || b == i + 96 || b == i + 128 || b == i + 160 || b == i + 192 || b == i + 224
  {
    assert b == b / 32 * 32 + b % 32 && 0 <= b / 32 < 8;
  }

  /** A new code in both forms: grouped for display, plain for hashing. */
  method NewUserCode(raw: Bytes) returns (shown: string, plain: string)
    requires |raw| == CODE_LEN
    ensures plain == seq(CODE_LEN, i requires 0 <= i < CODE_LEN => Symbol(raw[i]))
    ensures shown == plain[..4] + "-" + plain[4..]
    ensures IsCode(plain)
  {
    shown, plain := "", "";
    for i := 0 to |raw|
      invariant |plain| == i && forall k :: 0 <= k < i ==> plain[k] == Symbol(raw[k])
      invariant shown == if i <= 4 then plain else plain[..4] + "-" + plain[4..]
    {
      if i > 0 && i % 4 == 0 {
        shown := shown + "-";
      }
      var sym := Symbol(raw[i]);
      shown := shown + [sym];
      plain := plain + [sym];
    }
  }

  /** typed copies code: letters in either case, the bar glyph as l, L, 1, i or I,
      grouping characters anywhere. */
  ghost predicate Transcribes(typed: string, code: string) {
    if typed == [] then code == []
    else if Grouping(typed[0]) then Transcribes(typed[1..], code)
    else code != [] && Variant(typed[0], code[0]) && Transcribes(typed[1..], code[1..])
  }

  predicate Variant(c: char, symbol: char) {
    || c == symbol
    || ('A' <= symbol <= 'Z' && c == (symbol as int + 32) as char)
    || (symbol == 'L' && (c == '1' || c == 'I' || c == 'i'))
  }

  /** Every transcription of a code normalizes to that code. */
  lemma {:induction false} TranscriptionNormalizes(typed: string, code: string, upper: char -> char)
    requires IsUpper(upper) && IsCode(code) && Transcribes(typed, code)
    ensures Normalize(typed, upper) == Some(code)
  {
    TranscriptionKept(typed, code, upper);
  }

  lemma {:induction false} TranscriptionKept(typed: string, code: string, upper: char -> char)
    requires IsUpper(upper) && Transcribes(typed, code)
    requires forall i :: 0 <= i < |code| ==> InAlphabet(code[i])
    ensures Kept(typed, upper) == code
  {
    if typed != [] {
      if Grouping(typed[0]) {
        TranscriptionKept(typed[1..], code, upper);
      } else {
        TranscriptionKept(typed[1..], code[1..], upper);
        assert code == [code[0]] + code[1..];
      }
    }
  }

  /** And nothing else does: of an ASCII string the codes it normalizes to are exactly
      those it transcribes. */
  lemma {:induction false} NormalizesIff(typed: string, code: string, upper: char -> char)
    requires IsUpper(upper) && forall i :: 0 <= i < |typed| ==> typed[i] < 128 as char
    ensures Normalize(typed, upper) == Some(code) <==> IsCode(code) && Transcribes(typed, code)
  {
    if IsCode(code) && Transcribes(typed, code) {
      TranscriptionNormalizes(typed, code, upper);
    }
    if Normalize(typed, upper) == Some(code) {
      KeptTranscribes(typed, upper);
    }
  }

  lemma {:induction false} KeptTranscribes(typed: string, upper: char -> char)
    requires IsUpper(upper) && forall i :: 0 <= i < |typed| ==> typed[i] < 128 as char
    requires forall i :: 0 <= i < |Kept(typed, upper)| ==> InAlphabet(Kept(typed, upper)[i])
    ensures Transcribes(typed, Kept(typed, upper))
    decreases |typed|
  {
    if typed != [] {
      var kept := Kept(typed, upper);
      if Grouping(typed[0]) {
        KeptTranscribes(typed[1..], upper);
      } else {
        assert kept == [Folded(upper(typed[0]))] + Kept(typed[1..], upper);
        assert kept[1..] == Kept(typed[1..], upper);
        assert forall i :: 0 <= i < |kept| - 1 ==> kept[1..][i] == kept[i + 1];
        KeptTranscribes(typed[1..], upper);
        assert Variant(typed[0], kept[0]);
      }
    }
  }

  lemma {:induction false} SelfTranscribes(code: string)
    requires forall i :: 0 <= i < |code| ==> InAlphabet(code[i])
    ensures Transcribes(code, code)
  {
    if code != [] {
      SelfTranscribes(code[1..]);
    }
  }

  lemma {:induction false} GroupedTranscribes(a: string, b: string)
    requires forall i :: 0 <= i < |a + b| ==> InAlphabet((a + b)[i])
    ensures Transcribes(a + "-" + b, a + b)
  {
    if a == [] {
      assert a + b == b && (a + "-" + b)[1..] == b;
      SelfTranscribes(b);
    } else {
      assert (a + b)[0] == a[0] && (a + b)[1..] == a[1..] + b;
      assert (a + "-" + b)[1..] == a[1..] + "-" + b;
      GroupedTranscribes(a[1..], b);
    }
  }

  /** Canonical codes are fixed points, so normalizing is injective on them, and the
      displayed form maps back to the canonical one. */
  lemma {:induction false} DisplayedNormalizes(code: string, upper: char -> char)
    requires IsUpper(upper) && IsCode(code)
    ensures Normalize(code, upper) == Some(code)
    ensures Normalize(code[..4] + "-" + code[4..], upper) == Some(code)
  {
    SelfTranscribes(code);
    TranscriptionNormalizes(code, code, upper);
    assert code == code[..4] + code[4..];
    GroupedTranscribes(code[..4], code[4..]);
    TranscriptionNormalizes(code[..4] + "-" + code[4..], code, upper);
  }
}
