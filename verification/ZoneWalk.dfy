/** DigitalOcean: finding the account domain that holds a record name, and the record's
    name relative to it. */
module ZoneWalk {
  import opened Common
  import opened DnsText

  const MAX_ZONE_LABELS := 32

  /** The account's answer for a domain name. */
  datatype Lookup = Found(name: string) | NotFound | Failed

  datatype WalkError = NoDomain | Malformed | LookupFailed | DifferentDomain

  function TrimDot(s: string): string {
    if s != "" && s[|s| - 1] == '.' then s[..|s| - 1] else s
  }

  /** The position of the first dot, or -1. */
  function FirstDot(s: string): (r: int)
    ensures -1 <= r < |s|
    ensures r < 0 <==> '.' !in s
    ensures r >= 0 ==> s[r] == '.' && forall j :: 0 <= j < r ==> s[j] != '.'
  {
    if s == "" then -1
    else if s[0] == '.' then 0
    else
      var r := FirstDot(s[1..]);
      if r < 0 then -1 else r + 1
  }

  function Dots(s: string): nat {
    if s == "" then 0 else Dots(s[..|s| - 1]) + (if s[|s| - 1] == '.' then 1 else 0)
  }

  predicate DomainChar(c: char) {
    '0' <= c <= '9' || 'a' <= c <= 'z' || 'A' <= c <= 'Z' || c == '-' || c == '.' || c == '_'
  }

  predicate ValidDomainName(s: string) {
    0 < |s| <= 253 && forall i :: 0 <= i < |s| ==> DomainChar(s[i])
  }

  /** A plain name cannot leave the path segment it is put in. */
  lemma {:induction false} PlainNameStaysInPath(s: string)
    requires ValidDomainName(s)
    ensures s != "" && '/' !in s && '?' !in s && '#' !in s && '%' !in s && '\\' !in s && ' ' !in s && ':' !in s && '@' !in s
  {
  }

  method CheckDomainName(s: string) returns (ok: bool)
    ensures ok <==> ValidDomainName(s)
  {
    if s == "" || |s| > 253 {
      return false;
    }
    for i := 0 to |s|
      invariant forall k :: 0 <= k < i ==> DomainChar(s[k])
    {
      if !DomainChar(s[i]) {
        return false;
      }
    }
    return true;
  }

  /** A parent of the name: what follows a prefix and a dot. */
  predicate Splits(name: string, prefix: string, rest: string) {
    name == prefix + "." + rest
  }

  /** A parent worth asking for: more than one label, at most 32 cuts away. */
  predicate Candidate(name: string, prefix: string, rest: string) {
    Splits(name, prefix, rest) && '.' in rest && Dots(prefix) < 32
  }

  /** What asking for one parent settles; nothing when the account does not hold it. */
  function Settles(d: string, lookup: string -> Lookup): Option<Result<string, WalkError>> {
    if !ValidDomainName(d) then Some(Err(Malformed))
    else
      match lookup(d)
      case NotFound => None
      case Failed => Some(Err(LookupFailed))
      case Found(held) => Some(if EqualFold(TrimDot(held), d) then Ok(d) else Err(DifferentDomain))
  }

  /** No candidate longer than n settles the walk. */
  ghost predicate NoneLonger(name: string, n: int, lookup: string -> Lookup) {
    forall p, d :: Candidate(name, p, d) && |d| > n ==> Settles(d, lookup) == None
  }

  /** The answer is that of the longest candidate that settles the walk. */
  ghost predicate IsAnswer(name: string, r: Result<string, WalkError>, lookup: string -> Lookup) {
    exists p, d :: Candidate(name, p, d) && Settles(d, lookup) == Some(r) && NoneLonger(name, |d|, lookup)
  }

  /** Ask for one parent. A name that is no plain domain name is never asked for. */
  method Ask(d: string, lookup: string -> Lookup) returns (r: Option<Result<string, WalkError>>)
    ensures r == Settles(d, lookup)
  {
    var valid := CheckDomainName(d);
    if !valid {
      return Some(Err(Malformed));
    }
    match lookup(d) {
      case NotFound =>
        return None;
      case Failed =>
        return Some(Err(LookupFailed));
      case Found(held) =>
        if !EqualFold(TrimDot(held), d) {
          return Some(Err(DifferentDomain));
        }
        return Some(Ok(d));
    }
  }

  /** The longest candidate that is not simply a plain name the account does not hold. */
  ghost predicate FirstObstacle(name: string, prefix: string, d: string, lookup: string -> Lookup) {
    && Candidate(name, prefix, d) && !(ValidDomainName(d) && lookup(d) == NotFound)
    && forall q, e :: Candidate(name, q, e) && |e| > |d| ==> ValidDomainName(e) && lookup(e) == NotFound
  }

  /** The walk, in terms of the lookups alone. It gives up exactly when every candidate is
      a plain name the account does not hold. Otherwise the longest other candidate
      decides: a malformed name, a failed lookup and an answer for another domain are
      each that error, and never skipped for a shorter candidate; a domain is returned
      exactly when that candidate is held under its own name. */
  method DomainFor(recordName: string, lookup: string -> Lookup) returns (r: Result<string, WalkError>)
    ensures var name := TrimDot(recordName);
            && (r == Err(NoDomain) <==> forall p, d :: Candidate(name, p, d) ==> ValidDomainName(d) && lookup(d) == NotFound)
            && (r == Err(Malformed) <==> exists p, d :: FirstObstacle(name, p, d, lookup) && !ValidDomainName(d))
            && (r == Err(LookupFailed) <==>
                  exists p, d :: FirstObstacle(name, p, d, lookup) && ValidDomainName(d) && lookup(d) == Failed)
            && (r == Err(DifferentDomain) <==>
                  exists p, d :: FirstObstacle(name, p, d, lookup) && ValidDomainName(d) && lookup(d).Found?
                                 && !EqualFold(TrimDot(lookup(d).name), d))
            && (r.Ok? <==>
                  exists p, d :: FirstObstacle(name, p, d, lookup) && ValidDomainName(d) && lookup(d).Found?
                                 && EqualFold(TrimDot(lookup(d).name), d))
            && (r.Ok? ==> exists p :: FirstObstacle(name, p, r.value, lookup))
  {
    r := Walk(recordName, lookup);
    if r == Err(NoDomain) {
      NothingInTheWay(TrimDot(recordName), lookup);
    } else {
      AnswerMeans(TrimDot(recordName), r, lookup);
    }
  }

  lemma {:induction false} NothingInTheWay(name: string, lookup: string -> Lookup)
    requires NoneLonger(name, -1, lookup)
    ensures forall p, d :: Candidate(name, p, d) ==> ValidDomainName(d) && lookup(d) == NotFound
  {
    forall p, d | Candidate(name, p, d)
      ensures ValidDomainName(d) && lookup(d) == NotFound
    {
      assert Settles(d, lookup) == None;
    }
  }

  /** There is one first obstacle, and it decides. */
  lemma {:induction false} AnswerMeans(name: string, r: Result<string, WalkError>, lookup: string -> Lookup)
    requires IsAnswer(name, r, lookup)
    ensures exists p, d :: FirstObstacle(name, p, d, lookup) && Settles(d, lookup) == Some(r)
    ensures forall p, d :: FirstObstacle(name, p, d, lookup) ==> Settles(d, lookup) == Some(r)
  {
    var p, d :| Candidate(name, p, d) && Settles(d, lookup) == Some(r) && NoneLonger(name, |d|, lookup);
    forall q, e | Candidate(name, q, e) && |e| > |d|
      ensures ValidDomainName(e) && lookup(e) == NotFound
    {
      assert Settles(e, lookup) == None;
    }
    assert FirstObstacle(name, p, d, lookup);
    OnlyThisLength(name, p, d);
    forall q, e | FirstObstacle(name, q, e, lookup)
      ensures e == d
    {
      assert |e| == |d|;
    }
  }

  /** The loop: the longest candidate that settles anything answers. */
  method Walk(recordName: string, lookup: string -> Lookup) returns (r: Result<string, WalkError>)
    ensures if r == Err(NoDomain) then NoneLonger(TrimDot(recordName), -1, lookup)
            else IsAnswer(TrimDot(recordName), r, lookup)
  {
    var name := TrimDot(recordName);
    var rest := name;
    ghost var prefix := "";
    for i := 0 to MAX_ZONE_LABELS
      invariant Walked(name, prefix, rest, i, lookup)
    {
      var idx := FirstDot(rest);
      if idx < 0 {
        NoMoreDots(name, prefix, rest, i > 0, lookup);
        return Err(NoDomain);
      }
      ghost var cut := if i == 0 then rest[..idx] else prefix + "." + rest[..idx];
      OneCut(name, prefix, rest, idx, i, cut, lookup);
      rest, prefix := rest[idx + 1..], cut;
      if '.' !in rest {
        SingleLabel(name, prefix, rest, lookup);
        return Err(NoDomain);
      }
      var settled := Ask(rest, lookup);
      if settled.Some? {
        AnswerFound(name, prefix, rest, i, settled.value, lookup);
        return settled.value;
      }
      StillNone(name, prefix, rest, lookup);
    }
    TooManyLabels(name, prefix, rest);
    return Err(NoDomain);
  }

  /** The walk has cut i labels and nothing so far settled it. */
  ghost predicate Walked(name: string, prefix: string, rest: string, i: nat, lookup: string -> Lookup) {
    if i == 0 then rest == name
    else Splits(name, prefix, rest) && Dots(prefix) == i - 1 && NoneLonger(name, |rest| - 1, lookup)
  }

  lemma {:induction false} AnswerFound(name: string, prefix: string, rest: string, i: nat, r: Result<string, WalkError>, lookup: string -> Lookup)
    requires Splits(name, prefix, rest) && '.' in rest && Dots(prefix) == i < MAX_ZONE_LABELS
    requires NoneLonger(name, |rest|, lookup) && Settles(rest, lookup) == Some(r)
    ensures IsAnswer(name, r, lookup) && r != Err(NoDomain)
  {
    assert Candidate(name, prefix, rest);
  }

  lemma {:induction false} StillNone(name: string, prefix: string, rest: string, lookup: string -> Lookup)
    requires Splits(name, prefix, rest) && NoneLonger(name, |rest|, lookup) && Settles(rest, lookup) == None
    ensures NoneLonger(name, |rest| - 1, lookup)
  {
    OnlyThisLength(name, prefix, rest);
  }

  lemma {:induction false} DotsAppend(a: string, b: string)
    ensures Dots(a + b) == Dots(a) + Dots(b)
    decreases |b|
  {
    if b == "" {
      assert a + b == a;
    } else {
      assert (a + b)[..|a + b| - 1] == a + b[..|b| - 1];
      DotsAppend(a, b[..|b| - 1]);
    }
  }

  lemma {:induction false} NoDots(s: string)
    requires '.' !in s
    ensures Dots(s) == 0
  {
    if s != "" {
      NoDots(s[..|s| - 1]);
    }
  }

  /** A parent shorter than another follows a dot of it, further along. */
  lemma {:induction false} ShorterParent(name: string, p: string, d: string, q: string, e: string)
    requires Splits(name, p, d) && Splits(name, q, e) && |e| < |d|
    ensures d[|d| - |e| - 1] == '.' && Dots(q) > Dots(p)
  {
    var n := |d| - |e| - 1;
    assert d == name[|p| + 1..];
    assert name[|q|] == '.';
    assert q == (p + ".") + d[..n];
    DotsAppend(p + ".", d[..n]);
    DotsAppend(p, ".");
    assert "."[..0] == "";
  }

  lemma {:induction false} ShorterParents(name: string, p: string, d: string)
    requires Splits(name, p, d)
    ensures forall q, e :: Splits(name, q, e) && |e| < |d| ==> d[|d| - |e| - 1] == '.' && Dots(q) > Dots(p)
  {
    forall q, e | Splits(name, q, e) && |e| < |d|
      ensures d[|d| - |e| - 1] == '.' && Dots(q) > Dots(p)
    {
      ShorterParent(name, p, d, q, e);
    }
  }

  /** Every parent follows a dot of the name. */
  lemma {:induction false} ParentsFollowDots(name: string)
    ensures forall q, e :: Splits(name, q, e) ==> |e| < |name| && name[|name| - |e| - 1] == '.'
  {
  }

  /** Cutting at the first dot yields the next shorter parent. */
  lemma {:induction false} OneCut(name: string, prefix: string, rest: string, idx: int, i: nat, cut: string, lookup: string -> Lookup)
    requires 0 <= idx < |rest| && rest[idx] == '.' && forall j :: 0 <= j < idx ==> rest[j] != '.'
    requires i == 0 ==> rest == name
    requires i > 0 ==> Splits(name, prefix, rest) && Dots(prefix) == i - 1
    requires i > 0 ==> NoneLonger(name, |rest| - 1, lookup)
    requires cut == if i == 0 then rest[..idx] else prefix + "." + rest[..idx]
    ensures Splits(name, cut, rest[idx + 1..]) && Dots(cut) == i
    ensures NoneLonger(name, |rest[idx + 1..]|, lookup)
  {
    CutSplits(name, prefix, rest, idx, i, cut);
    CutSkipsNothing(name, prefix, rest, idx, i > 0);
  }

  lemma {:induction false} CutSplits(name: string, prefix: string, rest: string, idx: int, i: nat, cut: string)
    requires 0 <= idx < |rest| && rest[idx] == '.' && forall j :: 0 <= j < idx ==> rest[j] != '.'
    requires i == 0 ==> rest == name
    requires i > 0 ==> Splits(name, prefix, rest) && Dots(prefix) == i - 1
    requires cut == if i == 0 then rest[..idx] else prefix + "." + rest[..idx]
    ensures Splits(name, cut, rest[idx + 1..]) && Dots(cut) == i
  {
    var first, next := rest[..idx], rest[idx + 1..];
    assert rest == first + "." + next;
    NoDots(first);
    if i > 0 {
      DotsAppend(prefix + ".", first);
      DotsAppend(prefix, ".");
      assert "."[..0] == "";
      assert name == cut + "." + next;
    }
  }

  lemma {:induction false} CutSkipsNothing(name: string, prefix: string, rest: string, idx: int, cut: bool)
    requires 0 <= idx < |rest| && forall j :: 0 <= j < idx ==> rest[j] != '.'
    requires !cut ==> rest == name
    requires cut ==> Splits(name, prefix, rest)
    ensures forall p, d :: Splits(name, p, d) && |d| < |rest| ==> |d| <= |rest| - idx - 1
    ensures !cut ==> forall p, d :: Splits(name, p, d) ==> |d| < |rest|
  {
    ParentsFollowDots(name);
    if cut {
      ShorterParents(name, prefix, rest);
    }
  }

  /** Nothing shorter than a parent without dots is a candidate. */
  lemma {:induction false} NoMoreDots(name: string, prefix: string, rest: string, cut: bool, lookup: string -> Lookup)
    requires '.' !in rest
    requires !cut ==> rest == name
    requires cut ==> Splits(name, prefix, rest)
    requires cut ==> NoneLonger(name, |rest| - 1, lookup)
    ensures NoneLonger(name, -1, lookup)
  {
    ParentsFollowDots(name);
    if cut {
      ShorterParents(name, prefix, rest);
    }
    assert forall p, d :: Splits(name, p, d) ==> |d| >= |rest|;
  }

  lemma {:induction false} SingleLabel(name: string, prefix: string, rest: string, lookup: string -> Lookup)
    requires '.' !in rest && Splits(name, prefix, rest)
    requires NoneLonger(name, |rest|, lookup)
    ensures NoneLonger(name, -1, lookup)
  {
    ShorterParents(name, prefix, rest);
    OnlyThisLength(name, prefix, rest);
    assert forall p, d :: Candidate(name, p, d) ==> |d| > |rest|;
  }

  /** A name has one parent of each length. */
  lemma {:induction false} OnlyThisLength(name: string, prefix: string, rest: string)
    requires Splits(name, prefix, rest)
    ensures forall p, d :: Splits(name, p, d) && |d| == |rest| ==> d == rest
  {
    forall p, d | Splits(name, p, d) && |d| == |rest|
      ensures d == rest
    {
      assert d == name[|name| - |rest|..] == rest;
    }
  }

  /** After 32 cuts every shorter parent is out of reach. */
  lemma {:induction false} TooManyLabels(name: string, prefix: string, rest: string)
    requires Splits(name, prefix, rest) && Dots(prefix) == MAX_ZONE_LABELS - 1
    ensures forall p, d :: Candidate(name, p, d) ==> |d| >= |rest|
  {
    ShorterParents(name, prefix, rest);
  }

  // ---------------------------------------------------------------------
  // Relative names
  // ---------------------------------------------------------------------

  function RelativeRecordName(fqdn: string, domain: string): Option<string> {
    var name, d := TrimDot(fqdn), TrimDot(domain);
    if EqualFold(name, d) then Some("@")
    else if |name| <= |d| + 1 || !EqualFold(name[|name| - |d|..], d) || name[|name| - |d| - 1] != '.' then None
    else Some(name[..|name| - |d| - 1])
  }

  /** For a parent of the name, the relative name and the parent rebuild it exactly when
      the name does not start with the parent's dot and the parent does not end in one:
      always, when no label is empty. */
  lemma {:induction false} RebuildsIff(fqdn: string, prefix: string, domain: string)
    requires Splits(TrimDot(fqdn), prefix, domain) && domain != ""
    ensures RelativeRecordName(fqdn, domain) == Some(prefix) <==> prefix != "" && domain[|domain| - 1] != '.'
  {
    var name, d := TrimDot(fqdn), TrimDot(domain);
    assert |name| == |prefix| + 1 + |domain|;
    if domain[|domain| - 1] != '.' {
      assert name[|name| - |d|..] == d;
      assert name[..|name| - |d| - 1] == prefix;
      FoldsToItself(d);
    }
  }

  lemma {:induction false} FoldsToItself(s: string)
    ensures EqualFold(s, s)
  {
  }

  /** A relative name is refused exactly when the name is neither the domain nor inside it
      at a label boundary, under some spelling of the domain. */
  lemma {:induction false} RelativeIff(fqdn: string, domain: string)
    ensures RelativeRecordName(fqdn, domain).Some? <==>
              || EqualFold(TrimDot(fqdn), TrimDot(domain))
              || exists rel, d :: rel != "" && Splits(TrimDot(fqdn), rel, d) && EqualFold(d, TrimDot(domain))
    ensures EqualFold(TrimDot(fqdn), TrimDot(domain)) ==> RelativeRecordName(fqdn, domain) == Some("@")
  {
    var name, d := TrimDot(fqdn), TrimDot(domain);
    if rel, e :| rel != "" && Splits(name, rel, e) && EqualFold(e, d) {
      assert name[|name| - |d|..] == e && name[|name| - |d| - 1] == '.';
    }
    if RelativeRecordName(fqdn, domain).Some? && !EqualFold(name, d) {
      RelativeIsInside(fqdn, domain);
    }
  }

  /** Whatever is returned names the record: under some spelling of the domain. */
  lemma {:induction false} RelativeIsInside(fqdn: string, domain: string)
    requires RelativeRecordName(fqdn, domain).Some? && !EqualFold(TrimDot(fqdn), TrimDot(domain))
    ensures var rel := RelativeRecordName(fqdn, domain).value;
            rel != "" && exists d :: Splits(TrimDot(fqdn), rel, d) && EqualFold(d, TrimDot(domain))
  {
    var name, d := TrimDot(fqdn), TrimDot(domain);
    var rel, tail := RelativeRecordName(fqdn, domain).value, name[|name| - |d|..];
    assert name == rel + "." + tail;
    assert Splits(name, rel, tail);
  }
}
