/** Skeletons: the canonical comparison form of an identifier. */
module Skeletons {
  import opened Common
  import opened Spelling

  // ---------------------------------------------------------------------
  // Tables
  // ---------------------------------------------------------------------

  /** What a lowercase confusable draws in ASCII; empty when the rune is not in the
      table. */
  function Confusable(c: char): string {
    match c
    case '\U{0430}' => "a"
    case '\U{0432}' => "b"
    case '\U{0441}' => "c"
    case '\U{0501}' => "d"
    case '\U{0435}' => "e"
    case '\U{0455}' => "s"
    case '\U{043D}' => "h"
    case '\U{0456}' => "i"
    case '\U{0457}' => "i"
    case '\U{0458}' => "j"
    case '\U{04BB}' => "h"
    case '\U{043A}' => "k"
    case '\U{043C}' => "m"
    case '\U{043E}' => "o"
    case '\U{0440}' => "p"
    case '\U{0442}' => "t"
    case '\U{0443}' => "y"
    case '\U{0445}' => "x"
    case '\U{0461}' => "w"
    case '\U{03B1}' => "a"
    case '\U{03B5}' => "e"
    case '\U{03B7}' => "n"
    case '\U{03B9}' => "i"
    case '\U{03BA}' => "k"
    case '\U{03BC}' => "m"
    case '\U{03BD}' => "v"
    case '\U{03BF}' => "o"
    case '\U{03C1}' => "p"
    case '\U{03C4}' => "t"
    case '\U{03C5}' => "u"
    case '\U{03C7}' => "x"
    case '\U{03C9}' => "w"
    case '\U{03F2}' => "c"
    case '\U{03C2}' => "c"
    case '\U{0131}' => "i"
    case '\U{0237}' => "j"
    case '\U{0142}' => "l"
    case '\U{0111}' => "d"
    case '\U{00F8}' => "o"
    case '\U{00DF}' => "ss"
    case '\U{00E6}' => "ae"
    case '\U{0153}' => "oe"
    case _ => ""
  }

  /** The letter a digit or symbol stands for; the rune itself when it stands for none. */
  function Leet(c: char): char {
    match c
    case '0' => 'o'
    case '1' => 'i'
    case '3' => 'e'
    case '4' => 'a'
    case '5' => 's'
    case '7' => 't'
    case '@' => 'a'
    case '$' => 's'
    case _ => c
  }

  const RUNE_ERROR := '\U{FFFD}'

  /** The Unicode data the pipeline reads: compatibility decomposition of one rune,
      the Mn and Cf categories, simple lowercase, and white space with the Pd and Pc
      categories. */
  datatype Unicode = Unicode(nfkd: char -> string, ignorable: char -> bool, lower: char -> char, spacing: char -> bool)

  predicate Separator(u: Unicode, c: char) {
    c == '_' || c == '.' || c == '-' || u.spacing(c)
  }

  // ---------------------------------------------------------------------
  // The pipeline
  // ---------------------------------------------------------------------

  /** Leetspeak, then separator removal. */
  function FoldOne(u: Unicode, c: char): string {
    if Leet(c) != c then [Leet(c)] else if Separator(u, c) then "" else [c]
  }

  function FoldEach(u: Unicode, s: string): string {
    if s == "" then "" else FoldEach(u, s[..|s| - 1]) + FoldOne(u, s[|s| - 1])
  }

  datatype Stage = Sanitize | Decompose | Fold

  /** What one stage writes for one rune. */
  function Emit(u: Unicode, stage: Stage, c: char): string {
    match stage
    case Sanitize =>
      if c == RUNE_ERROR then ""
      else if Confusable(u.lower(c)) != "" then Confusable(u.lower(c))
      else [c]
    case Decompose => u.nfkd(c)
    case Fold =>
      if u.ignorable(c) then ""
      else if Confusable(u.lower(c)) != "" then FoldEach(u, Confusable(u.lower(c)))
      else FoldOne(u, u.lower(c))
  }

  function Pass(u: Unicode, stage: Stage, s: string): string {
    if s == "" then "" else Pass(u, stage, s[..|s| - 1]) + Emit(u, stage, s[|s| - 1])
  }

  /** The skeleton, without the shortcut for input that already is one. */
  function Skeleton(u: Unicode, s: string): string {
    Pass(u, Fold, Pass(u, Decompose, Pass(u, Sanitize, s)))
  }

  predicate Plain(c: char) {
    'a' <= c <= 'z' || c == '2' || c == '6' || c == '8' || c == '9'
  }

  /** What the pipeline relies on in the Unicode data: the skeleton alphabet is left
      alone by every stage, and a decomposed rune, once lowered, is settled. */
  ghost predicate Closed(u: Unicode) {
    && (forall c :: Plain(c) ==> u.nfkd(c) == [c] && !u.ignorable(c) && u.lower(c) == c && !u.spacing(c))
    && (forall x, i :: x != RUNE_ERROR && 0 <= i < |u.nfkd(x)| ==> Settles(u, u.nfkd(x)[i]))
  }

  predicate Settles(u: Unicode, r: char) {
    var l := u.lower(r);
    !u.ignorable(r) ==> u.nfkd(l) == [l] && !u.ignorable(l) && u.lower(l) == l && l != RUNE_ERROR
  }

  /** A rune no stage changes or drops. It is no table key, no separator and not an
      uppercase letter. */
  predicate Clean(u: Unicode, c: char) {
    && c != RUNE_ERROR
    && u.nfkd(c) == [c] && !u.ignorable(c) && u.lower(c) == c
    && Confusable(c) == "" && Leet(c) == c && !Separator(u, c)
  }

  predicate AllClean(u: Unicode, s: string) {
    forall i :: 0 <= i < |s| ==> Clean(u, s[i])
  }

  // ---------------------------------------------------------------------
  // Properties
  // ---------------------------------------------------------------------

  lemma {:induction false} PassAppend(u: Unicode, stage: Stage, a: string, b: string)
    ensures Pass(u, stage, a + b) == Pass(u, stage, a) + Pass(u, stage, b)
    decreases |b|
  {
    if b == "" {
      assert a + b == a;
    } else {
      var front := b[..|b| - 1];
      PassAppend(u, stage, a, front);
      PassLast(u, stage, b);
      PassLast(u, stage, a + b);
      assert (a + b)[..|a + b| - 1] == a + front;
      Regroup(Pass(u, stage, a), Pass(u, stage, front), Emit(u, stage, b[|b| - 1]));
    }
  }

  lemma {:induction false} PassLast(u: Unicode, stage: Stage, s: string)
    requires s != ""
    ensures Pass(u, stage, s) == Pass(u, stage, s[..|s| - 1]) + Emit(u, stage, s[|s| - 1])
  {
  }

  lemma {:induction false} Regroup(a: string, b: string, c: string)
    ensures (a + b) + c == a + (b + c)
  {
  }

  /** A skeleton is built piece by piece, so no context changes how a piece folds. */
  lemma {:induction false} SkeletonAppend(u: Unicode, a: string, b: string)
    ensures Skeleton(u, a + b) == Skeleton(u, a) + Skeleton(u, b)
  {
    PassAppend(u, Sanitize, a, b);
    PassAppend(u, Decompose, Pass(u, Sanitize, a), Pass(u, Sanitize, b));
    PassAppend(u, Fold, Pass(u, Decompose, Pass(u, Sanitize, a)), Pass(u, Decompose, Pass(u, Sanitize, b)));
  }

  /** Padding that folds to nothing is invisible wherever it is inserted. */
  lemma {:induction false} PaddingIsInvisible(u: Unicode, a: string, pad: string, b: string)
    requires Skeleton(u, pad) == ""
    ensures Skeleton(u, a + pad + b) == Skeleton(u, a + b)
  {
    SkeletonAppend(u, a, pad);
    SkeletonAppend(u, a + pad, b);
    SkeletonAppend(u, a, b);
  }

  lemma {:induction false} PassKeepsClean(u: Unicode, stage: Stage, s: string)
    requires AllClean(u, s)
    ensures Pass(u, stage, s) == s
  {
    if s != "" {
      PassKeepsClean(u, stage, s[..|s| - 1]);
      var c := s[|s| - 1];
      assert Clean(u, c);
      assert Emit(u, stage, c) == [c];
    }
  }

  lemma {:induction false} CleanIsFixed(u: Unicode, s: string)
    requires AllClean(u, s)
    ensures Skeleton(u, s) == s
  {
    PassKeepsClean(u, Sanitize, s);
    PassKeepsClean(u, Decompose, s);
    PassKeepsClean(u, Fold, s);
  }

  lemma {:induction false} PlainIsClean(u: Unicode, c: char)
    requires Closed(u) && Plain(c)
    ensures Clean(u, c)
  {
  }

  /** Every value of the confusables table is lowercase letters. */
  lemma {:induction false} ConfusableIsPlain(c: char)
    ensures forall i :: 0 <= i < |Confusable(c)| ==> 'a' <= Confusable(c)[i] <= 'z'
  {
  }

  lemma {:induction false} FoldEachPlain(u: Unicode, s: string)
    requires Closed(u) && forall i :: 0 <= i < |s| ==> 'a' <= s[i] <= 'z'
    ensures FoldEach(u, s) == s
  {
    if s != "" {
      FoldEachPlain(u, s[..|s| - 1]);
      PlainIsClean(u, s[|s| - 1]);
    }
  }

  /** The last stage writes only clean runes. */
  lemma {:induction false} FoldEmitsClean(u: Unicode, r: char)
    requires Closed(u) && Settles(u, r)
    ensures AllClean(u, Emit(u, Fold, r))
  {
    var l := u.lower(r);
    if !u.ignorable(r) {
      if Confusable(l) != "" {
        ConfusableIsPlain(l);
        FoldEachPlain(u, Confusable(l));
        forall i | 0 <= i < |Confusable(l)|
          ensures Clean(u, Confusable(l)[i])
        {
          PlainIsClean(u, Confusable(l)[i]);
        }
      } else if Leet(l) != l {
        PlainIsClean(u, Leet(l));
      }
    }
  }

  lemma {:induction false} SanitizedHasNoError(u: Unicode, s: string)
    ensures forall i :: 0 <= i < |Pass(u, Sanitize, s)| ==> Pass(u, Sanitize, s)[i] != RUNE_ERROR
  {
    if s != "" {
      SanitizedHasNoError(u, s[..|s| - 1]);
      ConfusableIsPlain(u.lower(s[|s| - 1]));
    }
  }

  lemma {:induction false} DecomposedSettles(u: Unicode, s: string)
    requires Closed(u) && forall i :: 0 <= i < |s| ==> s[i] != RUNE_ERROR
    ensures forall i :: 0 <= i < |Pass(u, Decompose, s)| ==> Settles(u, Pass(u, Decompose, s)[i])
  {
    if s != "" {
      DecomposedSettles(u, s[..|s| - 1]);
    }
  }

  lemma {:induction false} FoldedIsClean(u: Unicode, s: string)
    requires Closed(u) && forall i :: 0 <= i < |s| ==> Settles(u, s[i])
    ensures AllClean(u, Pass(u, Fold, s))
  {
    if s != "" {
      FoldedIsClean(u, s[..|s| - 1]);
      FoldEmitsClean(u, s[|s| - 1]);
    }
  }

  /** No skeleton holds a table key, a separator, an uppercase letter or an ignorable. */
  lemma {:induction false} SkeletonIsClean(u: Unicode, s: string)
    requires Closed(u)
    ensures AllClean(u, Skeleton(u, s))
  {
    SanitizedHasNoError(u, s);
    DecomposedSettles(u, Pass(u, Sanitize, s));
    FoldedIsClean(u, Pass(u, Decompose, Pass(u, Sanitize, s)));
  }

  lemma {:induction false} SkeletonIsIdempotent(u: Unicode, s: string)
    requires Closed(u)
    ensures Skeleton(u, Skeleton(u, s)) == Skeleton(u, s)
  {
    SkeletonIsClean(u, s);
    CleanIsFixed(u, Skeleton(u, s));
  }

  // ---------------------------------------------------------------------
  // What a rune becomes
  // ---------------------------------------------------------------------

  lemma {:induction false} PassOne(u: Unicode, stage: Stage, c: char)
    ensures Pass(u, stage, [c]) == Emit(u, stage, c)
  {
    PassLast(u, stage, [c]);
    assert [c][..0] == "";
  }

  lemma {:induction false} PlainIsFixed(u: Unicode, s: string)
    requires Closed(u) && forall i :: 0 <= i < |s| ==> 'a' <= s[i] <= 'z'
    ensures Skeleton(u, s) == s
  {
    forall i | 0 <= i < |s|
      ensures Clean(u, s[i])
    {
      PlainIsClean(u, s[i]);
    }
    CleanIsFixed(u, s);
  }

  /** A rune whose lowercase is a look-alike becomes the letters it draws. */
  lemma {:induction false} LookalikeDraws(u: Unicode, c: char)
    requires Closed(u) && c != RUNE_ERROR && Confusable(u.lower(c)) != ""
    ensures Skeleton(u, [c]) == Confusable(u.lower(c))
  {
    var w := Confusable(u.lower(c));
    PassOne(u, Sanitize, c);
    ConfusableIsPlain(u.lower(c));
    PassKeepsPlain(u, w);
  }

  lemma {:induction false} PassKeepsPlain(u: Unicode, w: string)
    requires Closed(u) && forall i :: 0 <= i < |w| ==> 'a' <= w[i] <= 'z'
    ensures Pass(u, Fold, Pass(u, Decompose, w)) == w
  {
    forall i | 0 <= i < |w|
      ensures Clean(u, w[i])
    {
      PlainIsClean(u, w[i]);
    }
    PassKeepsClean(u, Decompose, w);
    PassKeepsClean(u, Fold, w);
  }

  /** A rune that stands for itself and is no look-alike: a leet rune becomes its letter,
      a separator and an ignorable vanish, and any other rune becomes its lowercase. */
  lemma {:induction false} RuneBecomes(u: Unicode, c: char)
    requires c != RUNE_ERROR && u.nfkd(c) == [c] && Confusable(u.lower(c)) == ""
    ensures var l := u.lower(c);
            Skeleton(u, [c])
            == if u.ignorable(c) then ""
               else if l == '0' then "o" else if l == '1' then "i" else if l == '3' then "e" else if l == '4' || l == '@' then "a"
               else if l == '5' || l == '$' then "s" else if l == '7' then "t"
               else if l == '_' || l == '.' || l == '-' || u.spacing(l) then ""
               else [l]
  {
    PassOne(u, Sanitize, c);
    PassOne(u, Decompose, c);
    PassOne(u, Fold, c);
  }

  /** An undecodable rune vanishes. */
  lemma {:induction false} ErrorVanishes(u: Unicode)
    ensures Skeleton(u, [RUNE_ERROR]) == ""
  {
    PassOne(u, Sanitize, RUNE_ERROR);
  }

  /** A rune that stands for itself and whose lowercase is no separator leaves something. */
  lemma {:induction false} RuneRemains(u: Unicode, c: char)
    requires Closed(u) && c != RUNE_ERROR && u.nfkd(c) == [c] && !u.ignorable(c) && !Separator(u, u.lower(c))
    ensures Skeleton(u, [c]) != ""
  {
    if Confusable(u.lower(c)) != "" {
      LookalikeDraws(u, c);
    } else {
      RuneBecomes(u, c);
    }
  }

  /** Case does not matter, rune by rune. */
  lemma {:induction false} CaseBlindRune(u: Unicode, c: char)
    requires Closed(u) && c != RUNE_ERROR && u.nfkd(c) == [c] && !u.ignorable(c)
    ensures Skeleton(u, [c]) == Skeleton(u, [u.lower(c)])
  {
    assert Settles(u, u.nfkd(c)[0]);
    if Confusable(u.lower(c)) != "" {
      LookalikeDraws(u, c);
      LookalikeDraws(u, u.lower(c));
    } else {
      RuneBecomes(u, c);
      RuneBecomes(u, u.lower(c));
    }
  }

  lemma {:induction false} SkeletonIsAdditive(u: Unicode)
    ensures Additive(s => Skeleton(u, s))
  {
    forall a, b
      ensures Skeleton(u, a + b) == Skeleton(u, a) + Skeleton(u, b)
    {
      SkeletonAppend(u, a, b);
    }
  }

  lemma {:induction false} FoldPassIsAdditive(u: Unicode)
    ensures Additive(s => Pass(u, Fold, s))
  {
    forall a, b
      ensures Pass(u, Fold, a + b) == Pass(u, Fold, a) + Pass(u, Fold, b)
    {
      PassAppend(u, Fold, a, b);
    }
  }

  /** Case does not matter over a whole string of runes that stand for themselves. */
  lemma {:induction false} CaseBlind(u: Unicode, s: string, t: string)
    requires Closed(u) && |s| == |t|
    requires forall i :: 0 <= i < |s| ==>
               s[i] != RUNE_ERROR && u.nfkd(s[i]) == [s[i]] && !u.ignorable(s[i]) && (t[i] == s[i] || t[i] == u.lower(s[i]))
    ensures Skeleton(u, s) == Skeleton(u, t)
  {
    SkeletonIsAdditive(u);
    var f := x => Skeleton(u, x);
    forall i | 0 <= i < |s|
      ensures f([s[i]]) == f([t[i]])
    {
      CaseBlindRune(u, s[i]);
    }
    RunewiseEqual(f, f, s, t);
  }

  /** A compatibility form folds as what it decomposes into. */
  lemma {:induction false} FormFoldsAsItsPieces(u: Unicode, c: char)
    requires Closed(u) && c != RUNE_ERROR && Confusable(u.lower(c)) == ""
    requires forall i :: 0 <= i < |u.nfkd(c)| ==> StandsForItself(u, u.nfkd(c)[i])
    ensures Skeleton(u, [c]) == Skeleton(u, u.nfkd(c))
  {
    PassOne(u, Sanitize, c);
    PassOne(u, Decompose, c);
    FoldIsSkeleton(u, u.nfkd(c));
  }

  predicate StandsForItself(u: Unicode, r: char) {
    r != RUNE_ERROR && u.nfkd(r) == [r] && (u.ignorable(r) ==> Confusable(u.lower(r)) == "")
  }

  lemma {:induction false} FoldIsSkeleton(u: Unicode, s: string)
    requires Closed(u) && forall i :: 0 <= i < |s| ==> StandsForItself(u, s[i])
    ensures Pass(u, Fold, s) == Skeleton(u, s)
  {
    SkeletonIsAdditive(u);
    FoldPassIsAdditive(u);
    var f, g := x => Pass(u, Fold, x), x => Skeleton(u, x);
    forall i | 0 <= i < |s|
      ensures f([s[i]]) == g([s[i]])
    {
      PassOne(u, Fold, s[i]);
      FoldIsSkeletonOfRune(u, s[i]);
    }
    RunewiseEqual(f, g, s, s);
  }

  lemma {:induction false} FoldIsSkeletonOfRune(u: Unicode, r: char)
    requires Closed(u) && StandsForItself(u, r)
    ensures Emit(u, Fold, r) == Skeleton(u, [r])
  {
    if Confusable(u.lower(r)) != "" {
      LookalikeDraws(u, r);
      ConfusableIsPlain(u.lower(r));
      FoldEachPlain(u, Confusable(u.lower(r)));
    } else {
      PassOne(u, Sanitize, r);
      PassOne(u, Decompose, r);
      PassOne(u, Fold, r);
    }
  }

  // ---------------------------------------------------------------------
  // The loops
  // ---------------------------------------------------------------------

  method SanitizeInput(u: Unicode, s: string) returns (out: string)
    ensures out == Pass(u, Sanitize, s)
  {
    out := "";
    for i := 0 to |s|
      invariant out == Pass(u, Sanitize, s[..i])
    {
      assert s[..i + 1][..i] == s[..i];
      var mapped := Confusable(u.lower(s[i]));
      if s[i] == RUNE_ERROR {
        continue;
      }
      if mapped != "" {
        out := out + mapped;
        continue;
      }
      out := out + [s[i]];
    }
    assert s[..|s|] == s;
  }

  /** The shortcut returns the input only when the pipeline would: over every input the
      result is the pipeline's. */
  method ComputeSkeleton(u: Unicode, s: string) returns (out: string)
    requires Closed(u)
    ensures out == Skeleton(u, s)
  {
    var fast := true;
    for i := 0 to |s|
      invariant fast && forall k :: 0 <= k < i ==> Plain(s[k])
    {
      if Plain(s[i]) {
        continue;
      }
      fast := false;
      break;
    }
    if fast && |s| > 0 {
      forall i | 0 <= i < |s|
        ensures Clean(u, s[i])
      {
        PlainIsClean(u, s[i]);
      }
      CleanIsFixed(u, s);
      return s;
    }
    var clean := SanitizeInput(u, s);
    out := FoldRunes(u, Pass(u, Decompose, clean));
  }

  method FoldRunes(u: Unicode, s: string) returns (out: string)
    ensures out == Pass(u, Fold, s)
  {
    out := "";
    for i := 0 to |s|
      invariant out == Pass(u, Fold, s[..i])
    {
      assert s[..i + 1][..i] == s[..i];
      PassLast(u, Fold, s[..i + 1]);
      if u.ignorable(s[i]) {
        continue;
      }
      var r := u.lower(s[i]);
      var mapped := Confusable(r);
      if mapped != "" {
        var folded := WriteMapped(u, mapped);
        out := out + folded;
        continue;
      }
      out := out + FoldOne(u, r);
    }
    assert s[..|s|] == s;
  }

  /** Each rune the table produced goes through the remaining stages. */
  method WriteMapped(u: Unicode, mapped: string) returns (out: string)
    ensures out == FoldEach(u, mapped)
  {
    out := "";
    for j := 0 to |mapped|
      invariant out == FoldEach(u, mapped[..j])
    {
      assert mapped[..j + 1][..j] == mapped[..j];
      out := out + FoldOne(u, mapped[j]);
    }
    assert mapped[..|mapped|] == mapped;
  }

  // ---------------------------------------------------------------------
  // An instance of the Unicode data
  // ---------------------------------------------------------------------

  function BasicNfkd(c: char): string {
    match c
    case '\U{00B9}' => "1"
    case '\U{2460}' => "1"
    case '\U{FB01}' => "fi"
    case '\U{00B5}' => ['\U{03BC}']
    case '\U{0130}' => ['I', '\U{0307}']
    case '\U{0407}' => ['\U{0406}', '\U{0308}']
    case '\U{0457}' => ['\U{0456}', '\U{0308}']
    case '\U{03F2}' => ['\U{03C2}']
    case '\U{03F9}' => ['\U{03A3}']
    case _ => if '\U{FF01}' <= c <= '\U{FF5E}' then [(c as int - 0xFEE0) as char] else [c]
  }

  predicate BasicIgnorable(c: char) {
    c == '\U{00AD}' || '\U{0300}' <= c <= '\U{036F}' || '\U{200B}' <= c <= '\U{200F}'
  }

  function BasicLower(c: char): char {
    match c
    case '\U{0110}' => '\U{0111}'
    case '\U{0130}' => 'i'
    case '\U{0141}' => '\U{0142}'
    case '\U{0152}' => '\U{0153}'
    case '\U{00C6}' => '\U{00E6}'
    case '\U{00D8}' => '\U{00F8}'
    case '\U{1E9E}' => '\U{00DF}'
    case '\U{03F9}' => '\U{03F2}'
    case '\U{0460}' => '\U{0461}'
    case '\U{04BA}' => '\U{04BB}'
    case '\U{0500}' => '\U{0501}'
    case _ =>
      if 'A' <= c <= 'Z' || '\U{0410}' <= c <= '\U{042F}' || ('\U{0391}' <= c <= '\U{03A9}' && c != '\U{03A2}')
      then (c as int + 32) as char
      else if '\U{0400}' <= c <= '\U{040F}' then (c as int + 80) as char
      else c
  }

  predicate BasicSpacing(c: char) {
    c == ' ' || '\t' <= c <= '\r' || c == '\U{00A0}' || c == '-' || c == '_' || '\U{2010}' <= c <= '\U{2015}'
  }

  /** ASCII, the confusables and every capital whose lowercase is one, combining marks
      and zero-width characters, fullwidth forms, a superscript, a circled digit, a
      ligature and the micro sign. */
  const BASIC := Unicode(BasicNfkd, BasicIgnorable, BasicLower, BasicSpacing)

  lemma {:induction false} BasicIsClosed()
    ensures Closed(BASIC)
  {
    forall x, i | x != RUNE_ERROR && 0 <= i < |BASIC.nfkd(x)|
      ensures Settles(BASIC, BASIC.nfkd(x)[i])
    {
      BasicSettles(x, i);
    }
  }

  lemma {:induction false} BasicSettles(x: char, i: nat)
    requires x != RUNE_ERROR && i < |BasicNfkd(x)|
    ensures Settles(BASIC, BasicNfkd(x)[i])
  {
    var r := BasicNfkd(x)[i];
    var l := BasicLower(r);
    assert BasicLower(l) == l;
    assert BasicNfkd(l) == [l];
  }
}
