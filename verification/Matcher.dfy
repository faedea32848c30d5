/** The matcher: curated lists, administrator terms and the allowlist, and the verdict
    on an identifier. */
module Matcher {
  import opened Common
  import opened Candidates
  import opened Spelling

  const MAX_INPUT_BYTES := 256
  const ALLOWLIST_NAME := "allowlist"
  const EXTRA_LIST_NAME := "administrator"

  datatype Mode = Unset | Whole | Substring

  /** A curated list as written down. */
  datatype List = List(name: string, mode: Mode, terms: seq<string>)

  datatype Term = Term(skeleton: string, raw: string)

  datatype Compiled = Compiled(name: string, mode: Mode, whole: map<string, Term>, substrings: seq<Term>)

  datatype Reason =
    | EngineUnavailable | Allowed | EmptySkeleton | TooLong | BlockedTerm | TooAmbiguous | Allowlisted

  datatype Verdict = Verdict(allowed: bool, reason: Reason, list: string, term: string, mode: Mode)

  function Bare(allowed: bool, reason: Reason): Verdict {
    Verdict(allowed, reason, "", "", Unset)
  }

  predicate Contains(hay: string, needle: string) {
    exists i :: 0 <= i <= |hay| && OccursAt(hay, needle, i)
  }

  predicate OccursAt(hay: string, needle: string, i: nat) {
    i + |needle| <= |hay| && hay[i..i + |needle|] == needle
  }

  // ---------------------------------------------------------------------
  // What a list means
  // ---------------------------------------------------------------------

  /** One of the list's terms speaks to this reading. */
  ghost predicate Refuses(skel: string -> string, l: List, c: string) {
    exists i :: 0 <= i < |l.terms| && Speaks(skel, l.mode, l.terms[i], c)
  }

  predicate Speaks(skel: string -> string, mode: Mode, term: string, c: string) {
    if mode.Whole? then c == skel(term) else Contains(c, skel(term))
  }

  /** Terms the engine accepts: comparable, and no two the same to it. */
  ghost predicate TermsOk(skel: string -> string, raws: seq<string>) {
    && (forall i :: 0 <= i < |raws| ==> skel(raws[i]) != "")
    && (forall i, j :: 0 <= i < j < |raws| ==> skel(raws[i]) != skel(raws[j]))
  }

  ghost predicate ListsOk(skel: string -> string, lists: seq<List>) {
    && (forall i :: 0 <= i < |lists| ==>
          lists[i].name != "" && !lists[i].mode.Unset? && TermsOk(skel, lists[i].terms))
    && (forall i, j :: 0 <= i < j < |lists| ==> lists[i].name != lists[j].name)
  }

  ghost predicate Exempt(skel: string -> string, allow: seq<string>, sk: string) {
    exists i :: 0 <= i < |allow| && skel(allow[i]) == sk
  }

  ghost predicate Expandable(sk: string) {
    var ps := Positions(sk, AMBIGUOUS, |sk|);
    |ps| <= MAX_AMBIGUOUS && Ways(sk, AMBIGUOUS, ps) <= MAX_CANDIDATES
  }

  /** No reading of the skeleton is an administrator term, is a reserved word or holds
      a forbidden fragment. */
  ghost predicate NoReadingRefused(skel: string -> string, lists: seq<List>, extra: seq<string>, sk: string) {
    forall c :: IsReading(sk, c, AMBIGUOUS) ==> Spared(skel, lists, extra, c)
  }

  /** No term of any list speaks to this reading. */
  ghost predicate Spared(skel: string -> string, lists: seq<List>, extra: seq<string>, c: string) {
    !Exempt(skel, extra, c) && forall l :: l in lists ==> !Refuses(skel, l, c)
  }

  /** The verdict, without an algorithm. */
  ghost predicate Permitted(skel: string -> string, lists: seq<List>, extra: seq<string>, allow: seq<string>, input: string) {
    && Utf8Length(input) <= MAX_INPUT_BYTES
    && skel(input) != ""
    && (Exempt(skel, allow, skel(input))
        || (Expandable(skel(input)) && NoReadingRefused(skel, lists, extra, skel(input))))
  }

  /** The order lists are given in decides what is reported, never what is allowed. */
  lemma {:induction false} OrderDoesNotDecide(
    skel: string -> string, lists: seq<List>, shuffled: seq<List>, extra: seq<string>, allow: seq<string>, input: string)
    requires multiset(lists) == multiset(shuffled)
    ensures Permitted(skel, lists, extra, allow, input) <==> Permitted(skel, shuffled, extra, allow, input)
  {
    assert forall l :: l in lists <==> l in multiset(lists);
    assert forall l :: l in shuffled <==> l in multiset(shuffled);
    forall c
      ensures Spared(skel, lists, extra, c) <==> Spared(skel, shuffled, extra, c)
    {
    }
  }

  /** A term of an accepted list is itself refused, unless exempted. */
  lemma {:induction false} TermIsRefused(
    skel: string -> string, lists: seq<List>, extra: seq<string>, allow: seq<string>, l: List, i: nat)
    requires l in lists && i < |l.terms| && !Exempt(skel, allow, skel(l.terms[i]))
    ensures !Permitted(skel, lists, extra, allow, l.terms[i])
  {
    SameSkeletonIsRefused(skel, lists, extra, allow, l, i, l.terms[i]);
  }

  /** So is everything with the skeleton of such a term. */
  lemma {:induction false} SameSkeletonIsRefused(
    skel: string -> string, lists: seq<List>, extra: seq<string>, allow: seq<string>, l: List, i: nat, input: string)
    requires l in lists && i < |l.terms| && skel(input) == skel(l.terms[i]) && !Exempt(skel, allow, skel(input))
    ensures !Permitted(skel, lists, extra, allow, input)
  {
    var sk := skel(input);
    ReadsAsItself(sk);
    assert OccursAt(sk, sk, 0);
    assert Speaks(skel, l.mode, l.terms[i], sk);
    assert Refuses(skel, l, sk);
    assert !Spared(skel, lists, extra, sk);
  }

  lemma {:induction false} ExtraTermIsRefused(
    skel: string -> string, lists: seq<List>, extra: seq<string>, allow: seq<string>, i: nat)
    requires i < |extra| && !Exempt(skel, allow, skel(extra[i]))
    ensures !Permitted(skel, lists, extra, allow, extra[i])
  {
    ReadsAsItself(skel(extra[i]));
    assert Exempt(skel, extra, skel(extra[i]));
    assert !Spared(skel, lists, extra, skel(extra[i]));
  }

  lemma {:induction false} ReadsAsItself(sk: string)
    ensures IsReading(sk, sk, AMBIGUOUS)
  {
  }

  /** A forbidden fragment is refused in every surrounding and in every reading: any
      identifier some piece of which reads as the term is refused, unless exempted. */
  lemma {:induction false} FragmentIsRefusedAnywhere(
    skel: string -> string, lists: seq<List>, extra: seq<string>, allow: seq<string>, l: List, i: nat,
    before: string, piece: string, after: string)
    requires Additive(skel) && l in lists && l.mode.Substring? && i < |l.terms|
    requires IsReading(skel(piece), skel(l.terms[i]), AMBIGUOUS)
    requires !Exempt(skel, allow, skel(before + piece + after))
    ensures !Permitted(skel, lists, extra, allow, before + piece + after)
  {
    var sk := skel(before + piece + after);
    assert sk == skel(before) + skel(piece) + skel(after);
    var t := skel(l.terms[i]);
    var c := skel(before) + t + skel(after);
    assert IsReading(sk, c, AMBIGUOUS);
    assert c[|skel(before)|..|skel(before)| + |t|] == t;
    assert OccursAt(c, t, |skel(before)|);
    assert Contains(c, t);
    assert Speaks(skel, l.mode, l.terms[i], c);
    assert Refuses(skel, l, c);
    assert !Spared(skel, lists, extra, c);
  }

  /** An exemption opens exactly the identifiers of its own skeleton. */
  lemma {:induction false} ExemptionIsExact(
    skel: string -> string, lists: seq<List>, extra: seq<string>, allow: seq<string>, entry: string, input: string)
    ensures Permitted(skel, lists, extra, allow + [entry], input) <==>
            || Permitted(skel, lists, extra, allow, input)
            || (skel(input) == skel(entry) && skel(input) != "" && Utf8Length(input) <= MAX_INPUT_BYTES)
  {
    var sk := skel(input);
    if skel(entry) == sk {
      assert skel((allow + [entry])[|allow|]) == sk;
    }
    if Exempt(skel, allow, sk) {
      var i :| 0 <= i < |allow| && skel(allow[i]) == sk;
      assert skel((allow + [entry])[i]) == sk;
    }
    if Exempt(skel, allow + [entry], sk) && skel(entry) != sk {
      var i :| 0 <= i < |allow + [entry]| && skel((allow + [entry])[i]) == sk;
      assert skel(allow[i]) == sk;
    }
  }

  /** The verdict in full, without a name for any part of it: short enough, comparable, and
      either exempt by an entry of the same skeleton, or with at most twelve strokes and no
      reading that is an administrator term, is a whole-word term or holds a fragment. */
  lemma {:induction false} VerdictInFull(skel: string -> string, lists: seq<List>, extra: seq<string>, allow: seq<string>, input: string)
    requires forall l :: l in lists ==> !l.mode.Unset?
    ensures Permitted(skel, lists, extra, allow, input) <==>
              && Utf8Length(input) <= 256 && skel(input) != ""
              && (|| (exists i :: 0 <= i < |allow| && skel(allow[i]) == skel(input))
                  || (&& |Positions(skel(input), AMBIGUOUS, |skel(input)|)| <= 12
                      && forall c :: IsReading(skel(input), c, AMBIGUOUS) ==>
                           && (forall i :: 0 <= i < |extra| ==> skel(extra[i]) != c)
                           && (forall l, i :: l in lists && 0 <= i < |l.terms| && l.mode.Whole? ==> c != skel(l.terms[i]))
                           && (forall l, i, a, b :: l in lists && 0 <= i < |l.terms| && l.mode.Substring? ==> c != a + skel(l.terms[i]) + b)))
  {
    TwelveStrokes(skel(input));
    forall c
      ensures Spared(skel, lists, extra, c) <==> SparedInFull(skel, lists, extra, c)
    {
      SparedMeans(skel, lists, extra, c);
    }
  }

  ghost predicate SparedInFull(skel: string -> string, lists: seq<List>, extra: seq<string>, c: string) {
    && (forall i :: 0 <= i < |extra| ==> skel(extra[i]) != c)
    && (forall l, i :: l in lists && 0 <= i < |l.terms| && l.mode.Whole? ==> c != skel(l.terms[i]))
    && (forall l, i, a, b :: l in lists && 0 <= i < |l.terms| && l.mode.Substring? ==> c != a + skel(l.terms[i]) + b)
  }

  lemma {:induction false} SparedMeans(skel: string -> string, lists: seq<List>, extra: seq<string>, c: string)
    requires forall l :: l in lists ==> !l.mode.Unset?
    ensures Spared(skel, lists, extra, c) <==> SparedInFull(skel, lists, extra, c)
  {
    forall l | l in lists
      ensures Refuses(skel, l, c) <==> exists i :: 0 <= i < |l.terms| && SpeaksInFull(skel(l.terms[i]), l.mode, c)
    {
      forall i | 0 <= i < |l.terms|
        ensures Speaks(skel, l.mode, l.terms[i], c) <==> SpeaksInFull(skel(l.terms[i]), l.mode, c)
      {
        ContainsMeans(c, skel(l.terms[i]));
      }
    }
  }

  ghost predicate SpeaksInFull(sk: string, mode: Mode, c: string) {
    if mode.Whole? then c == sk else exists a, b :: c == a + sk + b
  }

  lemma {:induction false} ContainsMeans(hay: string, needle: string)
    ensures Contains(hay, needle) <==> exists a, b :: hay == a + needle + b
  {
    if Contains(hay, needle) {
      var k :| 0 <= k <= |hay| && OccursAt(hay, needle, k);
      assert hay == hay[..k] + needle + hay[k + |needle|..];
    }
    if a, b :| hay == a + needle + b {
      assert hay[|a|..|a| + |needle|] == needle;
      assert OccursAt(hay, needle, |a|);
    }
  }

  // ---------------------------------------------------------------------
  // Compilation
  // ---------------------------------------------------------------------

  /** The index holds each term under its skeleton and nothing else. */
  ghost predicate Indexes(skel: string -> string, raws: seq<string>, m: map<string, Term>) {
    && (forall k :: k in m ==> m[k] == Term(k, m[k].raw) && skel(m[k].raw) == k && m[k].raw in raws)
    && (forall i :: 0 <= i < |raws| ==> skel(raws[i]) in m && m[skel(raws[i])].raw == raws[i])
  }

  ghost predicate InOrder(skel: string -> string, raws: seq<string>, terms: seq<Term>) {
    |terms| == |raws| && forall i :: 0 <= i < |raws| ==> terms[i] == Term(skel(raws[i]), raws[i])
  }

  ghost predicate CompiledFrom(skel: string -> string, l: List, cl: Compiled) {
    && cl.name == l.name && cl.mode == l.mode
    && (l.mode.Whole? ==> Indexes(skel, l.terms, cl.whole))
    && (l.mode.Substring? ==> InOrder(skel, l.terms, cl.substrings))
  }

  ghost predicate AllCompiledFrom(skel: string -> string, lists: seq<List>, compiled: seq<Compiled>) {
    |compiled| == |lists| && forall i :: 0 <= i < |lists| ==> CompiledFrom(skel, lists[i], compiled[i])
  }

  /** Skeletonize terms, refusing an empty skeleton and a repeated one. */
  method CompileTerms(skel: string -> string, raws: seq<string>) returns (r: Option<(seq<Term>, map<string, Term>)>)
    ensures r.Some? <==> TermsOk(skel, raws)
    ensures r.Some? ==> InOrder(skel, raws, r.value.0) && Indexes(skel, raws, r.value.1)
  {
    var terms: seq<Term>, index: map<string, Term> := [], map[];
    for i := 0 to |raws|
      invariant TermsOk(skel, raws[..i])
      invariant InOrder(skel, raws[..i], terms) && Indexes(skel, raws[..i], index)
    {
      var sk := skel(raws[i]);
      if sk == "" {
        assert !TermsOk(skel, raws);
        return None;
      }
      if sk in index {
        SharedSkeleton(skel, raws, i, index);
        return None;
      }
      IndexGrows(skel, raws, i, index);
      TermsGrow(skel, raws, i, terms);
      terms := terms + [Term(sk, raws[i])];
      index := index[sk := Term(sk, raws[i])];
    }
    assert raws[..|raws|] == raws;
    return Some((terms, index));
  }

  lemma {:induction false} SharedSkeleton(skel: string -> string, raws: seq<string>, i: nat, index: map<string, Term>)
    requires i < |raws| && Indexes(skel, raws[..i], index) && skel(raws[i]) in index
    ensures !TermsOk(skel, raws)
  {
    var prev := index[skel(raws[i])].raw;
    var k :| 0 <= k < i && raws[..i][k] == prev;
    assert skel(raws[k]) == skel(raws[i]);
  }

  lemma {:induction false} TermsGrow(skel: string -> string, raws: seq<string>, i: nat, terms: seq<Term>)
    requires i < |raws| && TermsOk(skel, raws[..i]) && InOrder(skel, raws[..i], terms) && skel(raws[i]) != ""
    requires forall k :: 0 <= k < i ==> skel(raws[k]) != skel(raws[i])
    ensures TermsOk(skel, raws[..i + 1]) && InOrder(skel, raws[..i + 1], terms + [Term(skel(raws[i]), raws[i])])
  {
    assert raws[..i + 1] == raws[..i] + [raws[i]];
    assert forall k :: 0 <= k < i ==> raws[..i][k] == raws[k];
  }

  lemma {:induction false} IndexGrows(skel: string -> string, raws: seq<string>, i: nat, index: map<string, Term>)
    requires i < |raws| && Indexes(skel, raws[..i], index) && skel(raws[i]) !in index
    ensures Indexes(skel, raws[..i + 1], index[skel(raws[i]) := Term(skel(raws[i]), raws[i])])
    ensures forall k :: 0 <= k < i ==> skel(raws[k]) != skel(raws[i])
  {
    var more := index[skel(raws[i]) := Term(skel(raws[i]), raws[i])];
    assert raws[..i + 1] == raws[..i] + [raws[i]];
    forall k | 0 <= k < i
      ensures skel(raws[k]) != skel(raws[i]) && skel(raws[k]) in more && more[skel(raws[k])].raw == raws[k]
    {
      assert raws[..i][k] == raws[k];
    }
  }

  function PickLists(lists: seq<List>, mode: Mode): seq<List> {
    if lists == [] then []
    else PickLists(lists[..|lists| - 1], mode) +
         (if lists[|lists| - 1].mode == mode then [lists[|lists| - 1]] else [])
  }

  /** Whole-skeleton lists before substring lists, each in the caller's order. */
  function Precedence(lists: seq<List>): seq<List> {
    PickLists(lists, Whole) + PickLists(lists, Substring)
  }

  /** A stable selection of the compiled lists of one mode. */
  method PickCompiled(skel: string -> string, ghost lists: seq<List>, compiled: seq<Compiled>, mode: Mode)
    returns (picked: seq<Compiled>)
    requires AllCompiledFrom(skel, lists, compiled)
    ensures AllCompiledFrom(skel, PickLists(lists, mode), picked)
  {
    picked := [];
    for i := 0 to |compiled|
      invariant AllCompiledFrom(skel, PickLists(lists[..i], mode), picked)
    {
      assert lists[..i + 1][..i] == lists[..i];
      if compiled[i].mode == mode {
        picked := picked + [compiled[i]];
      }
    }
    assert lists[..|lists|] == lists;
  }

  /** Compile lists, or refuse all of them: an unnamed list, a repeated name, an unset
      mode, an empty skeleton or a repeated one. */
  method CompileLists(skel: string -> string, lists: seq<List>) returns (r: Option<seq<Compiled>>)
    ensures r.Some? <==> ListsOk(skel, lists)
    ensures r.Some? ==> AllCompiledFrom(skel, Precedence(lists), r.value)
  {
    var compiled: seq<Compiled>, names: set<string> := [], {};
    for i := 0 to |lists|
      invariant ListsOk(skel, lists[..i]) && AllCompiledFrom(skel, lists[..i], compiled)
      invariant forall n :: n in names <==> exists k :: 0 <= k < i && lists[k].name == n
    {
      var l := lists[i];
      if l.name == "" || l.name in names || l.mode.Unset? {
        return None;
      }
      names := names + {l.name};
      var terms := CompileTerms(skel, l.terms);
      if terms.None? {
        return None;
      }
      compiled := compiled + [
        if l.mode.Whole? then Compiled(l.name, l.mode, terms.value.1, [])
        else Compiled(l.name, l.mode, map[], terms.value.0)];
    }
    assert lists[..|lists|] == lists;
    var first := PickCompiled(skel, lists, compiled, Whole);
    var second := PickCompiled(skel, lists, compiled, Substring);
    return Some(first + second);
  }

  // ---------------------------------------------------------------------
  // Search
  // ---------------------------------------------------------------------

  /** A compiled list catches a candidate. */
  predicate Catches(cl: Compiled, c: string) {
    if cl.mode.Whole? then c in cl.whole
    else exists i :: 0 <= i < |cl.substrings| && Contains(c, cl.substrings[i].skeleton)
  }

  /** The term a list reports for a candidate: the index's answer, or the first
      declared fragment. */
  ghost predicate Reports(cl: Compiled, c: string, t: Term) {
    if cl.mode.Whole? then c in cl.whole && t == cl.whole[c]
    else exists i :: 0 <= i < |cl.substrings| && FirstFragment(cl.substrings, c, i) && t == cl.substrings[i]
  }

  predicate FirstFragment(terms: seq<Term>, c: string, i: nat)
    requires i < |terms|
  {
    Contains(c, terms[i].skeleton) && forall j :: 0 <= j < i ==> !Contains(c, terms[j].skeleton)
  }

  ghost predicate NoneCaught(order: seq<Compiled>, cs: seq<string>) {
    forall l, c :: 0 <= l < |order| && 0 <= c < |cs| ==> !Catches(order[l], cs[c])
  }

  datatype Hit = Hit(list: nat, candidate: nat, term: Term)

  predicate Earlier(l: int, c: int, h: Hit) {
    l < h.list || (l == h.list && c < h.candidate)
  }

  /** The first catch in list order, then candidate order, then term order. */
  ghost predicate IsFirstHit(order: seq<Compiled>, cs: seq<string>, h: Hit) {
    && h.list < |order| && h.candidate < |cs|
    && Reports(order[h.list], cs[h.candidate], h.term)
    && (forall l, c :: 0 <= l < |order| && 0 <= c < |cs| && Earlier(l, c, h) ==> !Catches(order[l], cs[c]))
  }

  /** There is only one first hit: the report is a function of the lists and the input. */
  lemma {:induction false} FirstHitIsUnique(order: seq<Compiled>, cs: seq<string>, g: Hit, h: Hit)
    requires IsFirstHit(order, cs, g) && IsFirstHit(order, cs, h)
    ensures g == h
  {
    assert Catches(order[g.list], cs[g.candidate]) && Catches(order[h.list], cs[h.candidate]);
    assert !Earlier(g.list, g.candidate, h) && !Earlier(h.list, h.candidate, g);
    var cl, c := order[g.list], cs[g.candidate];
    if !cl.mode.Whole? {
      var i :| 0 <= i < |cl.substrings| && FirstFragment(cl.substrings, c, i) && g.term == cl.substrings[i];
      var j :| 0 <= j < |cl.substrings| && FirstFragment(cl.substrings, c, j) && h.term == cl.substrings[j];
      assert i == j;
    }
  }

  /** One list against one candidate. */
  method Lookup(cl: Compiled, c: string) returns (t: Option<Term>)
    ensures t.Some? <==> Catches(cl, c)
    ensures t.Some? ==> Reports(cl, c, t.value)
  {
    if cl.mode.Whole? {
      return if c in cl.whole then Some(cl.whole[c]) else None;
    }
    for i := 0 to |cl.substrings|
      invariant forall j :: 0 <= j < i ==> !Contains(c, cl.substrings[j].skeleton)
    {
      if Contains(c, cl.substrings[i].skeleton) {
        assert FirstFragment(cl.substrings, c, i);
        return Some(cl.substrings[i]);
      }
    }
    return None;
  }

  method FindHit(order: seq<Compiled>, cs: seq<string>) returns (h: Option<Hit>)
    ensures h.None? ==> NoneCaught(order, cs)
    ensures h.Some? ==> IsFirstHit(order, cs, h.value)
  {
    for l := 0 to |order|
      invariant forall k, c :: 0 <= k < l && 0 <= c < |cs| ==> !Catches(order[k], cs[c])
    {
      for c := 0 to |cs|
        invariant forall d :: 0 <= d < c ==> !Catches(order[l], cs[d])
      {
        var t := Lookup(order[l], cs[c]);
        if t.Some? {
          return Some(Hit(l, c, t.value));
        }
      }
    }
    return None;
  }

  /** Compilation keeps what a list means. */
  lemma {:induction false} CatchesIffRefuses(skel: string -> string, l: List, cl: Compiled, c: string)
    requires CompiledFrom(skel, l, cl) && !l.mode.Unset?
    ensures Catches(cl, c) <==> Refuses(skel, l, c)
  {
    if Refuses(skel, l, c) {
      var i :| 0 <= i < |l.terms| && Speaks(skel, l.mode, l.terms[i], c);
      if l.mode.Substring? {
        assert cl.substrings[i].skeleton == skel(l.terms[i]);
      }
    }
    if Catches(cl, c) {
      if l.mode.Whole? {
        var i :| 0 <= i < |l.terms| && l.terms[i] == cl.whole[c].raw;
        assert Speaks(skel, l.mode, l.terms[i], c);
      } else {
        var i :| 0 <= i < |cl.substrings| && Contains(c, cl.substrings[i].skeleton);
        assert Speaks(skel, l.mode, l.terms[i], c);
      }
    }
  }

  lemma {:induction false} PickedMembers(lists: seq<List>, mode: Mode)
    ensures forall l :: l in PickLists(lists, mode) <==> l in lists && l.mode == mode
  {
    if lists != [] {
      PickedMembers(lists[..|lists| - 1], mode);
      assert lists == lists[..|lists| - 1] + [lists[|lists| - 1]];
    }
  }

  lemma {:induction false} PrecedenceMembers(lists: seq<List>)
    requires forall l :: l in lists ==> !l.mode.Unset?
    ensures forall l :: l in Precedence(lists) <==> l in lists
  {
    PickedMembers(lists, Whole);
    PickedMembers(lists, Substring);
  }

  /** The search over compiled lists finds nothing exactly when no list refuses any
      candidate. */
  lemma {:induction false} NothingCaughtIff(skel: string -> string, lists: seq<List>, compiled: seq<Compiled>, cs: seq<string>)
    requires ListsOk(skel, lists) && AllCompiledFrom(skel, Precedence(lists), compiled)
    ensures NoneCaught(compiled, cs) <==>
            (forall c :: c in cs ==> forall l :: l in lists ==> !Refuses(skel, l, c))
  {
    PrecedenceMembers(lists);
    var order := Precedence(lists);
    forall l, c | 0 <= l < |compiled| && 0 <= c < |cs|
      ensures Catches(compiled[l], cs[c]) <==> Refuses(skel, order[l], cs[c])
    {
      assert order[l] in lists;
      CatchesIffRefuses(skel, order[l], compiled[l], cs[c]);
    }
    forall l, c | l in lists && c in cs && Refuses(skel, l, c)
      ensures exists k, d :: 0 <= k < |compiled| && 0 <= d < |cs| && Catches(compiled[k], cs[d])
    {
      assert l in order;
      var k :| 0 <= k < |order| && order[k] == l;
      var d :| 0 <= d < |cs| && cs[d] == c;
      assert Catches(compiled[k], cs[d]);
    }
  }

  // ---------------------------------------------------------------------
  // The matcher
  // ---------------------------------------------------------------------

  class Matcher {
    const skel: string -> string
    var ready: bool
    var lists: seq<Compiled>
    var allow: Option<map<string, Term>>
    var extra: Option<Compiled>
    /** What was handed in: the lists, the administrator terms, the allowlist. */
    ghost var source: seq<List>
    ghost var terms: seq<string>
    ghost var entries: seq<string>

    ghost predicate Valid()
      reads this
    {
      ready ==>
        && ListsOk(skel, source) && AllCompiledFrom(skel, Precedence(source), lists)
        && (allow.None? ==> entries == []) && (allow.Some? ==> Indexes(skel, entries, allow.value))
        && (extra.None? ==> terms == [])
        && (extra.Some? ==> extra.value == Compiled(EXTRA_LIST_NAME, Whole, extra.value.whole, []) && Indexes(skel, terms, extra.value.whole))
    }

    /** The lists in the order Check walks them. */
    function Order(): seq<Compiled>
      reads this
    {
      (if extra.Some? then [extra.value] else []) + lists
    }

    /** A matcher built from lists, or an unbuilt one when they are refused. */
    constructor (skel: string -> string, given: seq<List>)
      ensures Valid() && this.skel == skel
      ensures ready <==> ListsOk(skel, given)
      ensures ready ==> source == given && terms == [] && entries == []
    {
      var r := CompileLists(skel, given);
      this.skel := skel;
      ready := r.Some?;
      lists := if r.Some? then r.value else [];
      allow, extra := None, None;
      source, terms, entries := given, [], [];
    }

    /** All or nothing. */
    method SetAllowlist(raws: seq<string>) returns (ok: bool)
      requires Valid()
      modifies this`allow, this`entries
      ensures Valid()
      ensures ok <==> ready && TermsOk(skel, raws)
      ensures entries == if ok then raws else old(entries)
      ensures !ok ==> allow == old(allow)
    {
      if !ready {
        return false;
      }
      var r := CompileTerms(skel, raws);
      if r.None? {
        return false;
      }
      allow, entries := Some(r.value.1), raws;
      return true;
    }

    method SetExtraTerms(raws: seq<string>) returns (ok: bool)
      requires Valid()
      modifies this`extra, this`terms
      ensures Valid()
      ensures ok <==> ready && TermsOk(skel, raws)
      ensures terms == if ok then raws else old(terms)
      ensures !ok ==> extra == old(extra)
    {
      if !ready {
        return false;
      }
      var r := CompileTerms(skel, raws);
      if r.None? {
        return false;
      }
      extra, terms := Some(Compiled(EXTRA_LIST_NAME, Whole, r.value.1, [])), raws;
      return true;
    }

    /** The verdict: allowed exactly when permitted, with the reason, and for a blocked
        term the first hit in order. */
    method Check(input: string) returns (v: Verdict)
      requires Valid()
      ensures v.allowed <==> ready && Permitted(skel, source, terms, entries, input)
      ensures v.allowed <==> v.reason.Allowed? || v.reason.Allowlisted?
      ensures v.reason.EngineUnavailable? <==> !ready
      ensures ready ==>
                var sk := skel(input);
                && (v.reason.TooLong? <==> Utf8Length(input) > MAX_INPUT_BYTES)
                && (v.reason.EmptySkeleton? <==> Utf8Length(input) <= MAX_INPUT_BYTES && sk == "")
                && (v.reason.Allowlisted? <==> Utf8Length(input) <= MAX_INPUT_BYTES && sk != "" && Exempt(skel, entries, sk))
                && (v.reason.Allowlisted? ==> v.list == ALLOWLIST_NAME && v.term in entries && skel(v.term) == sk)
                && (v.reason.TooAmbiguous? <==>
                      Utf8Length(input) <= MAX_INPUT_BYTES && sk != "" && !Exempt(skel, entries, sk) && !Expandable(sk))
                && (v.reason.BlockedTerm? ==>
                      Expandable(sk) && Blames(Order(), Expansion(sk, AMBIGUOUS, Positions(sk, AMBIGUOUS, |sk|)), v))
                && (v.reason.BlockedTerm? && (exists c :: IsReading(sk, c, AMBIGUOUS) && Exempt(skel, terms, c)) ==>
                      v.list == EXTRA_LIST_NAME)
                && (v.reason.BlockedTerm?
                    && (exists l, c :: l in source && l.mode.Whole? && IsReading(sk, c, AMBIGUOUS) && Refuses(skel, l, c)) ==>
                      v.mode.Whole?)
    {
      if !ready {
        return Bare(false, EngineUnavailable);
      }
      if Utf8Length(input) > MAX_INPUT_BYTES {
        return Bare(false, TooLong);
      }
      var sk := skel(input);
      if sk == "" {
        return Bare(false, EmptySkeleton);
      }
      IndexedIffExempt();
      if allow.Some? && sk in allow.value {
        return Verdict(true, Allowlisted, ALLOWLIST_NAME, allow.value[sk].raw, Unset);
      }
      var candidates := ExpandCandidates(sk, AMBIGUOUS);
      if candidates.None? {
        return Bare(false, TooAmbiguous);
      }
      var h := FindHit(Order(), candidates.value);
      NothingFoundIff(candidates.value);
      if h.Some? {
        var cl := Order()[h.value.list];
        HitIsCatch(Order(), candidates.value, h.value);
        ReportedInOrder(candidates.value, h.value);
        return Verdict(false, BlockedTerm, cl.name, h.value.term.raw, cl.mode);
      }
      return Bare(true, Allowed);
    }

    lemma {:induction false} IndexedIffExempt()
      requires Valid() && ready
      ensures forall sk :: allow.Some? && sk in allow.value <==> Exempt(skel, entries, sk)
      ensures forall sk :: extra.Some? && sk in extra.value.whole <==> Exempt(skel, terms, sk)
    {
      if allow.Some? {
        IndexMeansExempt(skel, entries, allow.value);
      }
      if extra.Some? {
        IndexMeansExempt(skel, terms, extra.value.whole);
      }
    }

    /** An administrator term is reported before any curated one, and a whole word before
        any fragment. */
    lemma {:induction false} ReportedInOrder(cs: seq<string>, h: Hit)
      requires Valid() && ready && IsFirstHit(Order(), cs, h)
      ensures (exists c :: c in cs && Exempt(skel, terms, c)) ==> Order()[h.list].name == EXTRA_LIST_NAME
      ensures (exists l, c :: l in source && l.mode.Whole? && c in cs && Refuses(skel, l, c)) ==> Order()[h.list].mode.Whole?
    {
      IndexedIffExempt();
      if c :| c in cs && Exempt(skel, terms, c) {
        FirstListFirst(Order(), cs, h, c);
      }
      if l, c :| l in source && l.mode.Whole? && c in cs && Refuses(skel, l, c) {
        WholeListFirst(skel, source, lists, extra, cs, h, l, c);
      }
    }

    lemma {:induction false} NothingFoundIff(cs: seq<string>)
      requires Valid() && ready
      ensures NoneCaught(Order(), cs) <==> forall c :: c in cs ==> Spared(skel, source, terms, c)
    {
      IndexedIffExempt();
      NothingCaughtIff(skel, source, lists, cs);
      ExtraFirst(extra, lists, cs);
      assert (forall c :: c in cs ==> Spared(skel, source, terms, c)) <==>
        && (forall c :: c in cs ==> forall l :: l in source ==> !Refuses(skel, l, c))
        && (forall c :: c in cs ==> !Exempt(skel, terms, c));
    }
  }

  lemma {:induction false} FirstListFirst(order: seq<Compiled>, cs: seq<string>, h: Hit, c: string)
    requires IsFirstHit(order, cs, h) && c in cs && order != [] && Catches(order[0], c)
    ensures h.list == 0
  {
    var d :| 0 <= d < |cs| && cs[d] == c;
    assert !Earlier(0, d, h);
  }

  lemma {:induction false} PickedModes(lists: seq<List>, mode: Mode)
    ensures forall i :: 0 <= i < |PickLists(lists, mode)| ==> PickLists(lists, mode)[i].mode == mode
    decreases |lists|
  {
    if lists != [] {
      PickedModes(lists[..|lists| - 1], mode);
    }
  }

  /** Lists of one mode keep the caller's order: of two, the one given earlier is the one
      consulted earlier. */
  lemma {:induction false} PickedKeepOrder(lists: seq<List>, mode: Mode, i: nat, j: nat)
    requires i < j < |lists| && lists[i].mode == mode && lists[j].mode == mode
    ensures exists p, q :: 0 <= p < q < |PickLists(lists, mode)| && PickLists(lists, mode)[p] == lists[i] && PickLists(lists, mode)[q] == lists[j]
    decreases |lists|
  {
    var front, picked := lists[..|lists| - 1], PickLists(lists, mode);
    if j < |front| {
      PickedKeepOrder(front, mode, i, j);
      var p, q :| 0 <= p < q < |PickLists(front, mode)| && PickLists(front, mode)[p] == front[i] && PickLists(front, mode)[q] == front[j];
      assert picked[p] == lists[i] && picked[q] == lists[j];
    } else {
      PickedMembers(front, mode);
      assert front[i] == lists[i] && lists[i] in front;
      var p :| 0 <= p < |PickLists(front, mode)| && PickLists(front, mode)[p] == lists[i];
      assert picked[p] == lists[i] && picked[|picked| - 1] == lists[j];
    }
  }

  /** The whole-word lists come first in the order, each where it was picked. */
  lemma {:induction false} WholeListsLead(skel: string -> string, source: seq<List>, lists: seq<Compiled>, l: List, c: string)
    returns (k: nat)
    requires AllCompiledFrom(skel, Precedence(source), lists) && l in source && l.mode.Whole? && Refuses(skel, l, c)
    ensures k < |lists| && Catches(lists[k], c)
    ensures forall j :: 0 <= j <= k ==> lists[j].mode.Whole?
  {
    PickedMembers(source, Whole);
    PickedModes(source, Whole);
    k :| 0 <= k < |PickLists(source, Whole)| && PickLists(source, Whole)[k] == l;
    assert Precedence(source)[k] == l && CompiledFrom(skel, l, lists[k]);
    CatchesIffRefuses(skel, l, lists[k], c);
    forall j | 0 <= j <= k
      ensures lists[j].mode.Whole?
    {
      assert Precedence(source)[j] == PickLists(source, Whole)[j];
    }
  }

  lemma {:induction false} WholeListFirst(
    skel: string -> string, source: seq<List>, lists: seq<Compiled>, extra: Option<Compiled>, cs: seq<string>, h: Hit, l: List, c: string)
    requires AllCompiledFrom(skel, Precedence(source), lists) && (extra.Some? ==> extra.value.mode.Whole?)
    requires var order := (if extra.Some? then [extra.value] else []) + lists; IsFirstHit(order, cs, h)
    requires l in source && l.mode.Whole? && c in cs && Refuses(skel, l, c)
    ensures var order := (if extra.Some? then [extra.value] else []) + lists; order[h.list].mode.Whole?
  {
    var k := WholeListsLead(skel, source, lists, l, c);
    LeadIsReported(extra, lists, cs, h, k, c);
  }

  lemma {:induction false} LeadIsReported(extra: Option<Compiled>, lists: seq<Compiled>, cs: seq<string>, h: Hit, k: nat, c: string)
    requires extra.Some? ==> extra.value.mode.Whole?
    requires k < |lists| && c in cs && Catches(lists[k], c) && forall j :: 0 <= j <= k ==> lists[j].mode.Whole?
    requires var order := (if extra.Some? then [extra.value] else []) + lists; IsFirstHit(order, cs, h)
    ensures var order := (if extra.Some? then [extra.value] else []) + lists; order[h.list].mode.Whole?
  {
    var order := (if extra.Some? then [extra.value] else []) + lists;
    var n := |order| - |lists|;
    var d :| 0 <= d < |cs| && cs[d] == c;
    assert order[k + n] == lists[k] && !Earlier(k + n, d, h);
    assert h.list >= n ==> order[h.list] == lists[h.list - n];
  }

  lemma {:induction false} IndexMeansExempt(skel: string -> string, raws: seq<string>, m: map<string, Term>)
    requires Indexes(skel, raws, m)
    ensures forall sk :: sk in m <==> Exempt(skel, raws, sk)
  {
    forall sk | sk in m
      ensures Exempt(skel, raws, sk)
    {
      var i :| 0 <= i < |raws| && raws[i] == m[sk].raw;
      assert skel(raws[i]) == sk;
    }
  }

  lemma {:induction false} ExtraFirst(extra: Option<Compiled>, lists: seq<Compiled>, cs: seq<string>)
    requires extra.Some? ==> extra.value.mode.Whole?
    ensures var order := (if extra.Some? then [extra.value] else []) + lists;
            NoneCaught(order, cs) <==>
            && NoneCaught(lists, cs)
            && (extra.Some? ==> forall c :: c in cs ==> c !in extra.value.whole)
  {
    var order := (if extra.Some? then [extra.value] else []) + lists;
    var n := |order| - |lists|;
    assert forall l :: 0 <= l < |lists| ==> order[l + n] == lists[l];
    if extra.Some? {
      assert order[0] == extra.value;
      forall c | c in cs && c in extra.value.whole
        ensures exists d :: 0 <= d < |cs| && Catches(order[0], cs[d])
      {
        var d :| 0 <= d < |cs| && cs[d] == c;
        assert Catches(order[0], cs[d]);
      }
    }
  }

  lemma {:induction false} HitIsCatch(order: seq<Compiled>, cs: seq<string>, h: Hit)
    requires IsFirstHit(order, cs, h)
    ensures Catches(order[h.list], cs[h.candidate])
  {
  }

  /** The verdict names the list, the spelling and the mode of the first hit. */
  ghost predicate Blames(order: seq<Compiled>, cs: seq<string>, v: Verdict) {
    exists h :: IsFirstHit(order, cs, h) &&
      v == Verdict(false, BlockedTerm, order[h.list].name, h.term.raw, order[h.list].mode)
  }
}
