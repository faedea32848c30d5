/** Functions on strings that treat each piece alike, and spellings they see through. */
module Spelling {

  ghost predicate Additive(f: string -> string) {
    forall a, b {:trigger f(a + b)} :: f(a + b) == f(a) + f(b)
  }

  lemma {:induction false} AdditiveOnEmpty(f: string -> string)
    requires Additive(f)
    ensures f("") == ""
  {
    assert "" + "" == "";
    assert f("" + "") == f("") + f("");
    assert |f("")| == |f("")| + |f("")|;
  }

  lemma {:induction false} AdditiveLast(f: string -> string, s: string)
    requires Additive(f) && s != ""
    ensures f(s) == f(s[..|s| - 1]) + f([s[|s| - 1]])
  {
    assert s == s[..|s| - 1] + [s[|s| - 1]];
  }

  /** Two such functions that agree on the runes of two strings agree on the strings. */
  lemma {:induction false} RunewiseEqual(f: string -> string, g: string -> string, s: string, t: string)
    requires Additive(f) && Additive(g) && |s| == |t|
    requires forall i :: 0 <= i < |s| ==> f([s[i]]) == g([t[i]])
    ensures f(s) == g(t)
    decreases |s|
  {
    if s == "" {
      AdditiveOnEmpty(f);
      AdditiveOnEmpty(g);
    } else {
      var n := |s| - 1;
      RunewiseEqual(f, g, s[..n], t[..n]);
      AdditiveLast(f, s);
      AdditiveLast(g, t);
    }
  }

  /** c stands at the end of a spelling of t for its last n letters: for none, as padding. */
  predicate Takes(draws: (char, string) -> bool, pads: char -> bool, c: char, t: string, n: nat) {
    n <= |t| && if n == 0 then pads(c) else draws(c, t[|t| - n..])
  }

  /** d spells t: rune by rune it draws the next letters of t, or pads. */
  ghost predicate Spells(draws: (char, string) -> bool, pads: char -> bool, d: string, t: string)
    decreases |d|
  {
    if d == "" then t == ""
    else exists n: nat {:trigger Takes(draws, pads, d[|d| - 1], t, n)} ::
        Takes(draws, pads, d[|d| - 1], t, n) && Spells(draws, pads, d[..|d| - 1], t[..|t| - n])
  }

  lemma {:induction false} LastFolds(f: string -> string, d: string, t: string, n: nat)
    requires Additive(f) && d != "" && n <= |t|
    requires f(d[..|d| - 1]) == t[..|t| - n] && f([d[|d| - 1]]) == t[|t| - n..]
    ensures f(d) == t
  {
    AdditiveLast(f, d);
    assert t == t[..|t| - n] + t[|t| - n..];
  }

  /** A fold that drops the padding and turns each drawing into what it draws turns every
      spelling into what it spells. */
  lemma {:induction false} SpellingFolds(f: string -> string, draws: (char, string) -> bool, pads: char -> bool, d: string, t: string)
    requires Additive(f) && Spells(draws, pads, d, t)
    requires forall c :: pads(c) ==> f([c]) == ""
    requires forall c, w :: draws(c, w) ==> f([c]) == w
    ensures f(d) == t
    decreases |d|
  {
    if d == "" {
      AdditiveOnEmpty(f);
    } else {
      var n: nat :| Takes(draws, pads, d[|d| - 1], t, n) && Spells(draws, pads, d[..|d| - 1], t[..|t| - n]);
      SpellingFolds(f, draws, pads, d[..|d| - 1], t[..|t| - n]);
      assert n == 0 ==> t[|t| - n..] == "";
      LastFolds(f, d, t, n);
    }
  }

  lemma {:induction false} TakeNext(draws: (char, string) -> bool, pads: char -> bool, d: string, c: char, t: string, w: string)
    requires Spells(draws, pads, d, t) && if w == "" then pads(c) else draws(c, w)
    ensures Spells(draws, pads, d + [c], t + w)
  {
    var e, u := d + [c], t + w;
    assert e[..|e| - 1] == d && u[..|u| - |w|] == t && u[|u| - |w|..] == w;
    assert Takes(draws, pads, e[|e| - 1], u, |w|);
  }

  /** Drawing every letter by one rune spells the word. */
  lemma {:induction false} RuneByRune(draws: (char, string) -> bool, pads: char -> bool, d: string, t: string)
    requires |d| == |t| && forall i :: 0 <= i < |d| ==> draws(d[i], [t[i]])
    ensures Spells(draws, pads, d, t)
    decreases |d|
  {
    if d != "" {
      var n := |d| - 1;
      RuneByRune(draws, pads, d[..n], t[..n]);
      assert d == d[..n] + [d[n]] && t == t[..n] + [t[n]];
      TakeNext(draws, pads, d[..n], d[n], t[..n], [t[n]]);
    }
  }

  /** A padding rune may go in anywhere. */
  lemma {:induction false} PadAnywhere(draws: (char, string) -> bool, pads: char -> bool, a: string, c: char, b: string, t: string)
    requires Spells(draws, pads, a + b, t) && pads(c)
    ensures Spells(draws, pads, a + [c] + b, t)
    decreases |b|
  {
    if b == "" {
      assert a + b == a && a + [c] + b == a + [c] && t + "" == t;
      TakeNext(draws, pads, a, c, t, "");
    } else {
      var m, d := |b| - 1, a + b;
      var n: nat :| Takes(draws, pads, d[|d| - 1], t, n) && Spells(draws, pads, d[..|d| - 1], t[..|t| - n]);
      assert d[..|d| - 1] == a + b[..m] && d[|d| - 1] == b[m];
      PadAnywhere(draws, pads, a, c, b[..m], t[..|t| - n]);
      TakeNext(draws, pads, a + [c] + b[..m], b[m], t[..|t| - n], t[|t| - n..]);
      assert a + [c] + b[..m] + [b[m]] == a + [c] + b && t[..|t| - n] + t[|t| - n..] == t;
    }
  }
}
