/** Disguises: the ways of spelling a word that all read as the word. */
module Disguises {
  import opened Spelling
  import opened Skeletons
  import Matcher

  /** The letter itself, in either case. */
  predicate SameLetter(c: char, x: char) {
    'a' <= x <= 'z' && (c == x || (c as int) + 32 == x as int)
  }

  /** The digits and symbols read as a letter. */
  predicate Leets(c: char, x: char) {
    match c
    case '0' => x == 'o'
    case '1' => x == 'i'
    case '3' => x == 'e'
    case '4' => x == 'a'
    case '5' => x == 's'
    case '7' => x == 't'
    case '@' => x == 'a'
    case '$' => x == 's'
    case _ => false
  }

  /** Cyrillic letters, small and capital, that draw a Latin letter. */
  predicate Cyrillic(c: char, x: char) {
    match x
    case 'a' => c == '\U{0430}' || c == '\U{0410}'
    case 'b' => c == '\U{0432}' || c == '\U{0412}'
    case 'c' => c == '\U{0441}' || c == '\U{0421}'
    case 'd' => c == '\U{0501}' || c == '\U{0500}'
    case 'e' => c == '\U{0435}' || c == '\U{0415}'
    case 'h' => c == '\U{043D}' || c == '\U{041D}' || c == '\U{04BB}' || c == '\U{04BA}'
    case 'i' => c == '\U{0456}' || c == '\U{0406}' || c == '\U{0457}' || c == '\U{0407}'
    case 'j' => c == '\U{0458}' || c == '\U{0408}'
    case 'k' => c == '\U{043A}' || c == '\U{041A}'
    case 'm' => c == '\U{043C}' || c == '\U{041C}'
    case 'o' => c == '\U{043E}' || c == '\U{041E}'
    case 'p' => c == '\U{0440}' || c == '\U{0420}'
    case 's' => c == '\U{0455}' || c == '\U{0405}'
    case 't' => c == '\U{0442}' || c == '\U{0422}'
    case 'w' => c == '\U{0461}' || c == '\U{0460}'
    case 'x' => c == '\U{0445}' || c == '\U{0425}'
    case 'y' => c == '\U{0443}' || c == '\U{0423}'
    case _ => false
  }

  /** Greek letters that do. */
  predicate Greek(c: char, x: char) {
    match x
    case 'a' => c == '\U{03B1}' || c == '\U{0391}'
    case 'c' => c == '\U{03F2}' || c == '\U{03F9}' || c == '\U{03C2}'
    case 'e' => c == '\U{03B5}' || c == '\U{0395}'
    case 'i' => c == '\U{03B9}' || c == '\U{0399}'
    case 'k' => c == '\U{03BA}' || c == '\U{039A}'
    case 'm' => c == '\U{03BC}' || c == '\U{039C}'
    case 'n' => c == '\U{03B7}' || c == '\U{0397}'
    case 'o' => c == '\U{03BF}' || c == '\U{039F}'
    case 'p' => c == '\U{03C1}' || c == '\U{03A1}'
    case 't' => c == '\U{03C4}' || c == '\U{03A4}'
    case 'u' => c == '\U{03C5}' || c == '\U{03A5}'
    case 'v' => c == '\U{03BD}' || c == '\U{039D}'
    case 'w' => c == '\U{03C9}' || c == '\U{03A9}'
    case 'x' => c == '\U{03C7}' || c == '\U{03A7}'
    case _ => false
  }

  /** Latin letters outside ASCII that do. */
  predicate Latin(c: char, x: char) {
    match x
    case 'd' => c == '\U{0111}' || c == '\U{0110}'
    case 'i' => c == '\U{0131}'
    case 'j' => c == '\U{0237}'
    case 'l' => c == '\U{0142}' || c == '\U{0141}'
    case 'o' => c == '\U{00F8}' || c == '\U{00D8}'
    case _ => false
  }

  predicate DrawsLetter(c: char, x: char) {
    SameLetter(c, x) || Leets(c, x) || Cyrillic(c, x) || Greek(c, x) || Latin(c, x)
  }

  /** The runes that draw two letters. */
  predicate DrawsPair(c: char, x: char, y: char) {
    (x == 's' && y == 's' && (c == '\U{00DF}' || c == '\U{1E9E}'))
    || (x == 'a' && y == 'e' && (c == '\U{00E6}' || c == '\U{00C6}'))
    || (x == 'o' && y == 'e' && (c == '\U{0153}' || c == '\U{0152}'))
  }

  predicate DrawsAs(c: char, w: string) {
    (|w| == 1 && DrawsLetter(c, w[0])) || (|w| == 2 && DrawsPair(c, w[0], w[1]))
  }

  /** Padding: separators, spaces, dashes, soft hyphens, zero-width characters, combining
      marks and undecodable runes. */
  predicate Pads(c: char) {
    || c == '_' || c == '.' || c == '-' || c == ' ' || c == '\t' || c == '\U{00A0}' || '\U{2010}' <= c <= '\U{2015}'
    || c == '\U{00AD}' || '\U{200B}' <= c <= '\U{200F}' || '\U{0300}' <= c <= '\U{036F}' || c == '\U{FFFD}'
  }

  /** Nothing changes a padding rune before it is dropped. */
  lemma {:induction false} PadIsBare(c: char)
    requires Pads(c)
    ensures BasicNfkd(c) == [c] && BasicLower(c) == c
  {
  }

  lemma {:induction false} PadIsNoLetter(c: char)
    requires Pads(c)
    ensures Confusable(c) == ""
  {
  }

  lemma {:induction false} PadVanishes(c: char)
    requires Pads(c)
    ensures Skeleton(BASIC, [c]) == ""
  {
    PadIsBare(c);
    PadIsNoLetter(c);
    if c == RUNE_ERROR {
      ErrorVanishes(BASIC);
    } else {
      RuneBecomes(BASIC, c);
    }
  }

  /** What a rune draws, by the two ways a rune is folded. */
  predicate FoldsTo(c: char, x: char) {
    var l := BasicLower(c);
    && c != RUNE_ERROR
    && (if Confusable(l) != "" then Confusable(l) == [x]
        else BasicNfkd(c) == [c] && !BasicIgnorable(c) && !BasicSpacing(l) && l != '.' && Leet(l) == x)
  }

  lemma {:induction false} SameLetterFolds(c: char, x: char)
    requires SameLetter(c, x)
    ensures FoldsTo(c, x)
  {
  }

  lemma {:induction false} LeetFolds(c: char, x: char)
    requires Leets(c, x)
    ensures FoldsTo(c, x)
  {
    LeetIsBare(c, x);
    AsciiIsNoLookalike(c);
  }

  lemma {:induction false} AsciiIsNoLookalike(c: char)
    requires c < '\U{0080}'
    ensures Confusable(c) == ""
  {
  }

  lemma {:induction false} LeetIsBare(c: char, x: char)
    requires Leets(c, x)
    ensures c < '\U{0080}' && BasicLower(c) == c && BasicNfkd(c) == [c]
    ensures !BasicIgnorable(c) && !BasicSpacing(c) && c != '.' && Leet(c) == x
  {
  }

  lemma {:induction false} CyrillicIsListed(c: char, x: char)
    requires Cyrillic(c, x)
    ensures c != RUNE_ERROR && Confusable(BasicLower(c)) == [x]
  {
  }

  lemma {:induction false} GreekIsListed(c: char, x: char)
    requires Greek(c, x)
    ensures c != RUNE_ERROR && Confusable(BasicLower(c)) == [x]
  {
    if x < 'n' {
      EarlyGreekIsListed(c, x);
    } else {
      LateGreekIsListed(c, x);
    }
  }

  lemma {:induction false} EarlyGreekIsListed(c: char, x: char)
    requires Greek(c, x) && x < 'n'
    ensures c != RUNE_ERROR && Confusable(BasicLower(c)) == [x]
  {
  }

  lemma {:induction false} LateGreekIsListed(c: char, x: char)
    requires Greek(c, x) && x >= 'n'
    ensures c != RUNE_ERROR && Confusable(BasicLower(c)) == [x]
  {
  }

  lemma {:induction false} LatinIsListed(c: char, x: char)
    requires Latin(c, x)
    ensures c != RUNE_ERROR && Confusable(BasicLower(c)) == [x]
  {
  }

  lemma {:induction false} LetterFolds(c: char, x: char)
    requires DrawsLetter(c, x)
    ensures FoldsTo(c, x)
  {
    if SameLetter(c, x) {
      SameLetterFolds(c, x);
    } else if Leets(c, x) {
      LeetFolds(c, x);
    } else if Cyrillic(c, x) {
      CyrillicIsListed(c, x);
    } else if Greek(c, x) {
      GreekIsListed(c, x);
    } else {
      LatinIsListed(c, x);
    }
  }

  lemma {:induction false} FoldedRune(c: char, x: char)
    requires FoldsTo(c, x)
    ensures Skeleton(BASIC, [c]) == [x]
  {
    BasicIsClosed();
    if Confusable(BasicLower(c)) != "" {
      LookalikeDraws(BASIC, c);
    } else {
      RuneBecomes(BASIC, c);
    }
  }

  /** Every rune that draws something folds to it. */
  lemma {:induction false} DrawnIsDrawn(c: char, w: string)
    requires DrawsAs(c, w)
    ensures Skeleton(BASIC, [c]) == w
  {
    if |w| == 1 {
      LetterFolds(c, w[0]);
      FoldedRune(c, w[0]);
      assert w == [w[0]];
    } else {
      BasicIsClosed();
      PairIsConfusable(c, w[0], w[1]);
      LookalikeDraws(BASIC, c);
      assert w == [w[0], w[1]];
    }
  }

  lemma {:induction false} PairIsConfusable(c: char, x: char, y: char)
    requires DrawsPair(c, x, y)
    ensures c != RUNE_ERROR && Confusable(BasicLower(c)) == [x, y]
  {
  }

  /** d spells t in disguise. */
  ghost predicate Disguise(d: string, t: string) {
    Spells(DrawsAs, Pads, d, t)
  }

  /** The skeleton function the matcher is built with. */
  const FOLD: string -> string := s => Skeleton(BASIC, s)

  /** A disguise has the skeleton of what it disguises, which is its own skeleton. */
  lemma {:induction false} DisguiseFolds(d: string, t: string)
    requires Disguise(d, t)
    ensures Skeleton(BASIC, d) == t && Skeleton(BASIC, t) == t
  {
    SkeletonIsAdditive(BASIC);
    forall c | Pads(c)
      ensures FOLD([c]) == ""
    {
      PadVanishes(c);
    }
    forall c, w | DrawsAs(c, w)
      ensures FOLD([c]) == w
    {
      DrawnIsDrawn(c, w);
    }
    FoldIsAdditive();
    SpellingFolds(FOLD, DrawsAs, Pads, d, t);
    BasicIsClosed();
    SkeletonIsIdempotent(BASIC, d);
  }

  lemma {:induction false} FoldIsAdditive()
    ensures Additive(FOLD)
  {
    forall a, b
      ensures FOLD(a + b) == FOLD(a) + FOLD(b)
    {
      SkeletonAppend(BASIC, a, b);
    }
  }

  /** Every disguise of a listed word is refused, unless exempted. */
  lemma {:induction false} DisguiseIsRefused(
    lists: seq<Matcher.List>, extra: seq<string>, allow: seq<string>, l: Matcher.List, i: nat, d: string)
    requires l in lists && i < |l.terms| && Disguise(d, l.terms[i]) && !Matcher.Exempt(FOLD, allow, l.terms[i])
    ensures !Matcher.Permitted(FOLD, lists, extra, allow, d)
  {
    DisguiseFolds(d, l.terms[i]);
    Matcher.SameSkeletonIsRefused(FOLD, lists, extra, allow, l, i, d);
  }

  /** And of a forbidden fragment, wherever it is hidden. */
  lemma {:induction false} DisguisedFragmentIsRefused(
    lists: seq<Matcher.List>, extra: seq<string>, allow: seq<string>, l: Matcher.List, i: nat, before: string, d: string, after: string)
    requires l in lists && l.mode.Substring? && i < |l.terms| && Disguise(d, l.terms[i])
    requires !Matcher.Exempt(FOLD, allow, FOLD(before + d + after))
    ensures !Matcher.Permitted(FOLD, lists, extra, allow, before + d + after)
  {
    DisguiseFolds(d, l.terms[i]);
    FoldIsAdditive();
    Matcher.ReadsAsItself(l.terms[i]);
    Matcher.FragmentIsRefusedAnywhere(FOLD, lists, extra, allow, l, i, before, d, after);
  }

  /** Whatever letter is redrawn, and wherever padding is put in, it is a disguise: capitals,
      leet digits and look-alikes mixed at will. */
  lemma {:induction false} RedrawnIsDisguise(d: string, t: string)
    requires |d| == |t| && forall i :: 0 <= i < |d| ==> DrawsLetter(d[i], t[i])
    ensures Disguise(d, t)
    ensures forall a, b, c :: a + b == d && Pads(c) ==> Disguise(a + [c] + b, t)
  {
    RuneByRune(DrawsAs, Pads, d, t);
    forall a, b, c | a + b == d && Pads(c)
      ensures Disguise(a + [c] + b, t)
    {
      PadAnywhere(DrawsAs, Pads, a, c, b, t);
    }
  }

  /** Every ASCII capital folds to its small letter. */
  lemma {:induction false} CapitalFolds(c: char)
    requires 'A' <= c <= 'Z'
    ensures Skeleton(BASIC, [c]) == [(c as int + 32) as char]
  {
    RuneBecomes(BASIC, c);
  }

  /** Fullwidth forms fold as the ASCII they decompose into. */
  lemma {:induction false} FullwidthFoldsAsAscii(c: char)
    requires '\U{FF01}' <= c <= '\U{FF5E}'
    ensures Skeleton(BASIC, [c]) == Skeleton(BASIC, [(c as int - 0xFEE0) as char])
  {
    BasicIsClosed();
    FormFoldsAsItsPieces(BASIC, c);
  }
}
