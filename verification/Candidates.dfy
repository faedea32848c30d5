/** Ambiguous readings of a finished skeleton and their bounded expansion. */
module Candidates {
  import opened Common

  const MAX_AMBIGUOUS := 12
  const MAX_CANDIDATES := 4096

  /** A rune of a skeleton and the readings the fold discarded to produce it. */
  type Readings = map<char, seq<char>>

  /** The one table in force: a stroke folded to i may have been an l. */
  const AMBIGUOUS: Readings := map['i' := ['l']]

  /** c re-reads sk: position by position it keeps the rune or takes one of its
      discarded readings. */
  predicate IsReading(sk: string, c: string, table: Readings) {
    ReadsUpTo(sk, c, table, |sk|)
  }

  /** The same, with nothing re-read from position n on. */
  predicate ReadsUpTo(sk: string, c: string, table: Readings, n: nat) {
    && |c| == |sk|
    && (forall i :: 0 <= i < |sk| ==> c[i] == sk[i] || (i < n && sk[i] in table && c[i] in table[sk[i]]))
  }

  /** The ambiguous positions among the first n, ascending. */
  function Positions(sk: string, table: Readings, n: nat): (ps: seq<nat>)
    requires n <= |sk|
    ensures Within(sk, table, ps)
    ensures forall k :: 0 <= k < |ps| ==> ps[k] < n
  {
    if n == 0 then []
    else Positions(sk, table, n - 1) + (if sk[n - 1] in table then [n - 1] else [])
  }

  /** Ambiguous positions of the skeleton. */
  predicate Within(sk: string, table: Readings, ps: seq<nat>) {
    forall k :: 0 <= k < |ps| ==> ps[k] < |sk| && sk[ps[k]] in table
  }

  predicate Reaches(cs: seq<string>, pos: nat) {
    forall k :: 0 <= k < |cs| ==> pos < |cs[k]|
  }

  predicate Fixed(cs: seq<string>, pos: nat, was: char) {
    forall k :: 0 <= k < |cs| ==> pos < |cs[k]| && cs[k][pos] == was
  }

  /** How many ways the given positions can be read. */
  function Ways(sk: string, table: Readings, ps: seq<nat>): (w: nat)
    requires Within(sk, table, ps)
    ensures w >= 1
  {
    if ps == [] then 1
    else Grown(Ways(sk, table, ps[..|ps| - 1]), |table[sk[ps[|ps| - 1]]]|)
  }

  function Grown(ways: nat, readings: nat): (w: nat)
    ensures w >= ways && w == ways + readings * ways
  {
    ways * (1 + readings)
  }

  /** Each candidate with one position re-read. */
  function Reread(cs: seq<string>, pos: nat, x: char): (r: seq<string>)
    requires Reaches(cs, pos)
    ensures |r| == |cs| && forall k :: 0 <= k < |r| ==> r[k] == cs[k][pos := x]
  {
    seq(|cs|, k requires 0 <= k < |cs| => cs[k][pos := x])
  }

  /** The rereadings of a position, reading by reading in declared order. */
  function RereadAll(cs: seq<string>, pos: nat, xs: seq<char>): seq<string>
    requires Reaches(cs, pos)
  {
    if xs == [] then [] else RereadAll(cs, pos, xs[..|xs| - 1]) + Reread(cs, pos, xs[|xs| - 1])
  }

  /** The candidates in the order the engine walks them. */
  function Expansion(sk: string, table: Readings, ps: seq<nat>): (cs: seq<string>)
    requires Within(sk, table, ps)
    ensures |cs| > 0 && cs[0] == sk
    ensures forall k :: 0 <= k < |cs| ==> |cs[k]| == |sk|
  {
    if ps == [] then [sk]
    else
      var pos := ps[|ps| - 1];
      var cs := Expansion(sk, table, ps[..|ps| - 1]);
      RereadAllLength(cs, pos, table[sk[pos]], |sk|);
      cs + RereadAll(cs, pos, table[sk[pos]])
  }

  lemma {:induction false} RereadAllLength(cs: seq<string>, pos: nat, xs: seq<char>, n: nat)
    requires Reaches(cs, pos) && forall k :: 0 <= k < |cs| ==> |cs[k]| == n
    ensures forall k :: 0 <= k < |RereadAll(cs, pos, xs)| ==> |RereadAll(cs, pos, xs)[k]| == n
    decreases |xs|
  {
    if xs != [] {
      RereadAllLength(cs, pos, xs[..|xs| - 1], n);
    }
  }

  lemma {:induction false} RereadAllMembers(cs: seq<string>, pos: nat, xs: seq<char>)
    requires Reaches(cs, pos)
    ensures |RereadAll(cs, pos, xs)| == |xs| * |cs|
    ensures forall c :: c in RereadAll(cs, pos, xs) <==> IsRereadOf(c, cs, pos, xs)
    decreases |xs|
  {
    if xs != [] {
      var front, x := xs[..|xs| - 1], xs[|xs| - 1];
      RereadAllMembers(cs, pos, front);
      assert |xs| * |cs| == |front| * |cs| + |cs|;
      forall c
        ensures c in RereadAll(cs, pos, xs) <==> IsRereadOf(c, cs, pos, xs)
      {
        LastReading(c, cs, pos, xs);
      }
    }
  }

  /** c is some candidate with the position re-read. */
  predicate IsRereadOf(c: string, cs: seq<string>, pos: nat, xs: seq<char>)
    requires Reaches(cs, pos)
  {
    exists k :: 0 <= k < |cs| && RereadsOne(c, cs[k], pos, xs)
  }

  predicate RereadsOne(c: string, d: string, pos: nat, xs: seq<char>)
    requires pos < |d|
  {
    |c| == |d| && c[pos] in xs && c == d[pos := c[pos]]
  }

  lemma {:induction false} LastReading(c: string, cs: seq<string>, pos: nat, xs: seq<char>)
    requires xs != [] && Reaches(cs, pos)
    ensures IsRereadOf(c, cs, pos, xs) <==>
            IsRereadOf(c, cs, pos, xs[..|xs| - 1]) || c in Reread(cs, pos, xs[|xs| - 1])
  {
    var front, x := xs[..|xs| - 1], xs[|xs| - 1];
    assert xs == front + [x];
    if c in Reread(cs, pos, x) {
      var k :| 0 <= k < |cs| && Reread(cs, pos, x)[k] == c;
      assert RereadsOne(c, cs[k], pos, xs);
    }
    if IsRereadOf(c, cs, pos, front) {
      var k :| 0 <= k < |cs| && RereadsOne(c, cs[k], pos, front);
      assert RereadsOne(c, cs[k], pos, xs);
    }
    if IsRereadOf(c, cs, pos, xs) {
      var k :| 0 <= k < |cs| && RereadsOne(c, cs[k], pos, xs);
      if c[pos] == x {
        assert Reread(cs, pos, x)[k] == c;
      } else {
        assert RereadsOne(c, cs[k], pos, front);
      }
    }
  }

  /** Expanding the positions below n yields exactly the strings re-read below n, as
      many as the product of the choices. */
  lemma {:induction false} ExpansionMembers(sk: string, table: Readings, n: nat)
    requires n <= |sk|
    ensures var ps := Positions(sk, table, n);
            && |Expansion(sk, table, ps)| == Ways(sk, table, ps)
            && (forall c :: c in Expansion(sk, table, ps) <==> ReadsUpTo(sk, c, table, n))
  {
    var ps := Positions(sk, table, n);
    if n > 0 {
      ExpansionMembers(sk, table, n - 1);
      var front := Positions(sk, table, n - 1);
      if sk[n - 1] in table {
        var xs := table[sk[n - 1]];
        assert ps == front + [n - 1] && ps[..|ps| - 1] == front;
        var cs := Expansion(sk, table, front);
        RereadAllMembers(cs, n - 1, xs);
        assert Expansion(sk, table, ps) == cs + RereadAll(cs, n - 1, xs);
        assert Ways(sk, table, ps) == Grown(Ways(sk, table, front), |xs|);
        forall c
          ensures c in Expansion(sk, table, ps) <==> ReadsUpTo(sk, c, table, n)
        {
          OneMorePosition(sk, table, n, cs, c);
        }
      } else {
        assert ps == front;
        forall c
          ensures ReadsUpTo(sk, c, table, n) <==> ReadsUpTo(sk, c, table, n - 1)
        {
        }
      }
    } else {
      forall c
        ensures c in Expansion(sk, table, ps) <==> ReadsUpTo(sk, c, table, 0)
      {
        assert ReadsUpTo(sk, c, table, 0) <==> c == sk;
      }
    }
  }

  lemma {:induction false} OneMorePosition(sk: string, table: Readings, n: nat, cs: seq<string>, c: string)
    requires 0 < n <= |sk| && sk[n - 1] in table
    requires Reaches(cs, n - 1) && forall d :: d in cs <==> ReadsUpTo(sk, d, table, n - 1)
    ensures ReadsUpTo(sk, c, table, n) <==> c in cs || IsRereadOf(c, cs, n - 1, table[sk[n - 1]])
  {
    var pos, xs := n - 1, table[sk[n - 1]];
    if IsRereadOf(c, cs, pos, xs) {
      var k :| 0 <= k < |cs| && RereadsOne(c, cs[k], pos, xs);
      assert cs[k] in cs;
      assert ReadsUpTo(sk, cs[k], table, n - 1);
    }
    if ReadsUpTo(sk, c, table, n) && c[pos] != sk[pos] {
      var d := c[pos := sk[pos]];
      assert ReadsUpTo(sk, d, table, n - 1);
      assert d in cs;
      var k :| 0 <= k < |cs| && cs[k] == d;
      assert c == d[pos := c[pos]];
      assert RereadsOne(c, cs[k], pos, xs);
    }
  }

  /** No candidate is produced twice when no rune lists itself or lists a reading twice. */
  lemma {:induction false} ExpansionDistinct(sk: string, table: Readings, n: nat)
    requires n <= |sk|
    requires forall k :: k in table ==> k !in table[k] && Distinct(table[k])
    ensures Distinct(Expansion(sk, table, Positions(sk, table, n)))
  {
    if n > 0 {
      ExpansionDistinct(sk, table, n - 1);
      var front, ps := Positions(sk, table, n - 1), Positions(sk, table, n);
      if sk[n - 1] in table {
        assert ps == front + [n - 1] && ps[..|ps| - 1] == front;
        NotYetReread(sk, table, n);
        RereadAllDistinct(Expansion(sk, table, front), n - 1, table[sk[n - 1]], sk[n - 1]);
      } else {
        assert ps == front;
      }
    }
  }

  /** The candidates of the positions below n - 1 all keep that position. */
  lemma {:induction false} NotYetReread(sk: string, table: Readings, n: nat)
    requires 0 < n <= |sk|
    ensures Fixed(Expansion(sk, table, Positions(sk, table, n - 1)), n - 1, sk[n - 1])
  {
    ExpansionMembers(sk, table, n - 1);
    var cs := Expansion(sk, table, Positions(sk, table, n - 1));
    forall k | 0 <= k < |cs|
      ensures cs[k][n - 1] == sk[n - 1]
    {
      assert cs[k] in cs;
      assert ReadsUpTo(sk, cs[k], table, n - 1);
    }
  }

  /** Every string has one of the runes at the position. */
  predicate Among(cs: seq<string>, pos: nat, xs: seq<char>) {
    forall k :: 0 <= k < |cs| ==> pos < |cs[k]| && cs[k][pos] in xs
  }

  lemma {:induction false} RereadAllDistinct(cs: seq<string>, pos: nat, xs: seq<char>, was: char)
    requires Distinct(cs) && Distinct(xs) && was !in xs && Fixed(cs, pos, was) && Reaches(cs, pos)
    ensures Distinct(cs + RereadAll(cs, pos, xs))
    ensures Among(RereadAll(cs, pos, xs), pos, xs)
    decreases |xs|
  {
    if xs == [] {
      assert cs + RereadAll(cs, pos, xs) == cs;
    } else {
      var front, x := xs[..|xs| - 1], xs[|xs| - 1];
      assert xs == front + [x] && x !in front && was !in front;
      RereadAllDistinct(cs, pos, front, was);
      RereadDistinct(cs, pos, x, was);
      var older, last := RereadAll(cs, pos, front), Reread(cs, pos, x);
      assert Among(cs + older, pos, [was] + front);
      Apart(cs + older, last, pos, [was] + front, x);
      assert cs + RereadAll(cs, pos, xs) == (cs + older) + last;
    }
  }

  lemma {:induction false} Apart(a: seq<string>, b: seq<string>, pos: nat, xs: seq<char>, x: char)
    requires Distinct(a) && Distinct(b) && Among(a, pos, xs) && Fixed(b, pos, x) && x !in xs
    ensures Distinct(a + b)
  {
    forall i, j | 0 <= i < |a| && 0 <= j < |b|
      ensures a[i] != b[j]
    {
      assert a[i][pos] != b[j][pos];
    }
  }

  lemma {:induction false} RereadDistinct(cs: seq<string>, pos: nat, x: char, was: char)
    requires Distinct(cs) && Fixed(cs, pos, was) && Reaches(cs, pos)
    ensures Distinct(Reread(cs, pos, x)) && Fixed(Reread(cs, pos, x), pos, x)
  {
    var r := Reread(cs, pos, x);
    forall i, j | 0 <= i < j < |r|
      ensures r[i] != r[j]
    {
      assert cs[i] == r[i][pos := was] && cs[j] == r[j][pos := was];
    }
  }

  /** With the table in force the ceiling is exactly twelve strokes: the second bound
      never fires first. */
  lemma {:induction false} TwelveStrokes(sk: string)
    ensures var ps := Positions(sk, AMBIGUOUS, |sk|);
            (|ps| > MAX_AMBIGUOUS || Ways(sk, AMBIGUOUS, ps) > MAX_CANDIDATES) <==> |ps| > MAX_AMBIGUOUS
  {
    var ps := Positions(sk, AMBIGUOUS, |sk|);
    if |ps| <= MAX_AMBIGUOUS {
      StrokesDouble(sk, ps, MAX_AMBIGUOUS);
      assert Pow2(12) == 64 * Pow2(6) && Pow2(6) == 64;
    }
  }

  lemma {:induction false} StrokesDouble(sk: string, ps: seq<nat>, n: nat)
    requires Within(sk, AMBIGUOUS, ps) && |ps| <= n
    ensures Ways(sk, AMBIGUOUS, ps) <= Pow2(n)
    decreases |ps|, n
  {
    if ps != [] {
      StrokesDouble(sk, ps[..|ps| - 1], n - 1);
    } else if n > 0 {
      StrokesDouble(sk, ps, n - 1);
    }
  }

  /** With the table in force a reading keeps every rune, or takes an l for an i. */
  lemma {:induction false} StrokeReadings(sk: string, c: string)
    ensures IsReading(sk, c, AMBIGUOUS) <==>
              |c| == |sk| && forall i :: 0 <= i < |sk| ==> c[i] == sk[i] || (sk[i] == 'i' && c[i] == 'l')
  {
  }

  /** The ambiguous positions, or nothing past the twelfth. */
  method FindPositions(sk: string, table: Readings) returns (r: Option<seq<nat>>)
    ensures var ps := Positions(sk, table, |sk|);
            r == if |ps| > MAX_AMBIGUOUS then None else Some(ps)
  {
    var positions: seq<nat> := [];
    for i := 0 to |sk|
      invariant positions == Positions(sk, table, i) && |positions| <= MAX_AMBIGUOUS
    {
      if sk[i] in table {
        if |positions| == MAX_AMBIGUOUS {
          PositionsGrow(sk, table, i + 1, |sk|);
          return None;
        }
        positions := positions + [i];
      }
    }
    return Some(positions);
  }

  /** Whether the set stays under its ceiling, found before anything is built. */
  method FitsCeiling(sk: string, table: Readings, positions: seq<nat>) returns (fits: bool)
    requires Within(sk, table, positions)
    ensures fits <==> Ways(sk, table, positions) <= MAX_CANDIDATES
  {
    var total := 1;
    for i := 0 to |positions|
      invariant total == Ways(sk, table, positions[..i]) && total <= MAX_CANDIDATES
    {
      assert positions[..i + 1][..i] == positions[..i];
      total := Grown(total, |table[sk[positions[i]]]|);
      if total > MAX_CANDIDATES {
        WaysGrow(sk, table, positions, i + 1);
        return false;
      }
    }
    assert positions[..|positions|] == positions;
    return true;
  }

  method GrowAll(sk: string, table: Readings, positions: seq<nat>) returns (candidates: seq<string>)
    requires Within(sk, table, positions)
    ensures candidates == Expansion(sk, table, positions)
  {
    candidates := [sk];
    for i := 0 to |positions|
      invariant candidates == Expansion(sk, table, positions[..i])
    {
      assert positions[..i + 1][..i] == positions[..i];
      candidates := Grow(candidates, positions[i], table[sk[positions[i]]]);
    }
    assert positions[..|positions|] == positions;
  }

  /** Expand, or refuse: more than twelve ambiguous positions, or more than 4096
      candidates. Nothing is ever truncated. */
  method ExpandCandidates(sk: string, table: Readings) returns (r: Option<seq<string>>)
    ensures var ps := Positions(sk, table, |sk|);
            && (r.None? <==> |ps| > MAX_AMBIGUOUS || Ways(sk, table, ps) > MAX_CANDIDATES)
            && (r.Some? ==> r.value == Expansion(sk, table, ps))
    ensures r.Some? ==> r.value != [] && r.value[0] == sk && |r.value| <= MAX_CANDIDATES
    ensures r.Some? ==> forall c :: c in r.value <==> IsReading(sk, c, table)
  {
    var found := FindPositions(sk, table);
    if found.None? {
      return None;
    }
    var positions := found.value;
    var fits := FitsCeiling(sk, table, positions);
    if !fits {
      return None;
    }
    var candidates := GrowAll(sk, table, positions);
    ExpansionMembers(sk, table, |sk|);
    return Some(candidates);
  }

  /** The unmodified set first, then each reading of one position. */
  method Grow(candidates: seq<string>, pos: nat, readings: seq<char>) returns (grown: seq<string>)
    requires Reaches(candidates, pos)
    ensures grown == candidates + RereadAll(candidates, pos, readings)
  {
    grown := candidates;
    for j := 0 to |readings|
      invariant grown == candidates + RereadAll(candidates, pos, readings[..j])
    {
      assert readings[..j + 1][..j] == readings[..j];
      var reread := Substitute(candidates, pos, readings[j]);
      grown := grown + reread;
    }
    assert readings[..|readings|] == readings;
  }

  method Substitute(cs: seq<string>, pos: nat, x: char) returns (r: seq<string>)
    requires Reaches(cs, pos)
    ensures r == Reread(cs, pos, x)
  {
    r := [];
    for k := 0 to |cs|
      invariant |r| == k && forall i :: 0 <= i < k ==> r[i] == cs[i][pos := x]
    {
      r := r + [cs[k][pos := x]];
    }
  }

  lemma {:induction false} PositionsGrow(sk: string, table: Readings, m: nat, n: nat)
    requires m <= n <= |sk|
    ensures |Positions(sk, table, m)| <= |Positions(sk, table, n)|
    decreases n
  {
    if m < n {
      PositionsGrow(sk, table, m, n - 1);
    }
  }

  lemma {:induction false} WaysGrow(sk: string, table: Readings, ps: seq<nat>, i: nat)
    requires i <= |ps| && Within(sk, table, ps)
    ensures Ways(sk, table, ps[..i]) <= Ways(sk, table, ps)
    decreases |ps|
  {
    if i == |ps| {
      assert ps[..i] == ps;
    } else {
      var front := ps[..|ps| - 1];
      assert front[..i] == ps[..i];
      WaysGrow(sk, table, front, i);
    }
  }
}
