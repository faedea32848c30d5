/** The propagation gate: which TXT values every authoritative nameserver serves. */
module Propagation {
  import opened Common

  /** The answers of the addresses of each nameserver; None is an address that did not
      answer. */
  type Answers = seq<seq<Option<seq<string>>>>

  predicate Observed(addrs: seq<Option<seq<string>>>) {
    exists j :: 0 <= j < |addrs| && addrs[j].Some?
  }

  /** Every address that answers serves the value. */
  predicate Serves(addrs: seq<Option<seq<string>>>, v: string) {
    forall j :: 0 <= j < |addrs| && addrs[j].Some? ==> v in addrs[j].value
  }

  /** Every nameserver is observed at some address and serves the value at all of them,
      and there is a nameserver. */
  predicate Propagated(servers: Answers, v: string) {
    servers != [] && forall i :: 0 <= i < |servers| ==> Observed(servers[i]) && Serves(servers[i], v)
  }

  /** Narrow a running set; no set yet means the first answer seeds it. */
  method Intersect(current: Option<set<string>>, next: seq<string>) returns (r: set<string>)
    ensures forall v :: v in r <==> v in next && (current.None? || v in current.value)
  {
    var seen: set<string> := {};
    for i := 0 to |next|
      invariant forall v :: v in seen <==> v in next[..i]
    {
      seen := seen + {next[i]};
    }
    if current.None? {
      return seen;
    }
    r := current.value;
    var left := current.value;
    while left != {}
      invariant left <= current.value
      invariant forall v :: v in r <==> v in current.value && (v in left || v in seen)
      decreases |left|
    {
      var v :| v in left;
      left := left - {v};
      if v !in seen {
        r := r - {v};
      }
    }
  }

  /** The members of a set, in whatever order they come. */
  method Keys(s: set<string>) returns (out: seq<string>)
    ensures Distinct(out) && forall v :: v in out <==> v in s
  {
    out := [];
    var left := s;
    while left != {}
      invariant left <= s && Distinct(out)
      invariant forall v :: v in out <==> v in s && v !in left
      decreases |left|
    {
      var v :| v in left;
      DistinctAppend(out, v);
      left, out := left - {v}, out + [v];
    }
  }

  /** What one nameserver is seen to serve, or that it is not seen at all. */
  method Answered(addrs: seq<Option<seq<string>>>) returns (r: Option<set<string>>)
    ensures r.Some? <==> Observed(addrs)
    ensures r.Some? ==> forall v :: v in r.value <==> Serves(addrs, v)
  {
    r := None;
    for j := 0 to |addrs|
      invariant r.Some? <==> Observed(addrs[..j])
      invariant r.Some? ==> forall v :: v in r.value <==> Serves(addrs[..j], v)
    {
      ObservedNext(addrs, j);
      if addrs[j].None? {
        continue;
      }
      var narrowed := Intersect(r, addrs[j].value);
      r := Some(narrowed);
    }
    assert addrs[..|addrs|] == addrs;
  }

  lemma {:induction false} ObservedNext(addrs: seq<Option<seq<string>>>, j: nat)
    requires j < |addrs|
    ensures Observed(addrs[..j + 1]) <==> Observed(addrs[..j]) || addrs[j].Some?
    ensures forall v :: Serves(addrs[..j + 1], v) <==>
                        Serves(addrs[..j], v) && (addrs[j].Some? ==> v in addrs[j].value)
    ensures !Observed(addrs[..j]) ==> forall v :: Serves(addrs[..j], v)
  {
    assert addrs[..j + 1] == addrs[..j] + [addrs[j]];
    if Observed(addrs[..j]) {
      var k :| 0 <= k < j && addrs[..j][k].Some?;
      assert addrs[..j + 1][k].Some?;
    }
    if addrs[j].Some? {
      assert addrs[..j + 1][j].Some?;
    }
    forall v
      ensures Serves(addrs[..j + 1], v) <==>
              Serves(addrs[..j], v) && (addrs[j].Some? ==> v in addrs[j].value)
    {
      assert forall k :: 0 <= k < j ==> addrs[..j + 1][k] == addrs[..j][k];
      assert addrs[..j + 1][j] == addrs[j];
    }
  }

  lemma {:induction false} PropagatedNext(servers: Answers, i: nat)
    requires i < |servers|
    ensures forall v :: Propagated(servers[..i + 1], v) <==>
                        (i == 0 || Propagated(servers[..i], v)) && Observed(servers[i]) && Serves(servers[i], v)
  {
    forall v
      ensures Propagated(servers[..i + 1], v) <==>
              (i == 0 || Propagated(servers[..i], v)) && Observed(servers[i]) && Serves(servers[i], v)
    {
      assert servers[..i + 1][i] == servers[i];
      assert forall k :: 0 <= k < i ==> servers[..i + 1][k] == servers[..i][k];
    }
  }

  /** Exactly the propagated values, whichever exit is taken. */
  method CommonTXT(servers: Answers) returns (values: seq<string>)
    ensures forall v :: v in values <==> Propagated(servers, v)
    ensures Distinct(values)
  {
    var common: Option<set<string>> := None;
    for i := 0 to |servers|
      invariant common.None? <==> i == 0
      invariant common.Some? ==> forall v :: v in common.value <==> Propagated(servers[..i], v)
    {
      PropagatedNext(servers, i);
      var answered := Answered(servers[i]);
      if answered.None? {
        return [];
      }
      var members := Keys(answered.value);
      var narrowed := Intersect(common, members);
      if narrowed == {} {
        NeverAgain(servers, i + 1);
        return [];
      }
      common := Some(narrowed);
    }
    assert servers[..|servers|] == servers;
    if common.None? {
      return [];
    }
    values := Keys(common.value);
  }

  /** A value missing from the first nameservers is missing from all of them. */
  lemma {:induction false} NeverAgain(servers: Answers, n: nat)
    requires 0 < n <= |servers|
    ensures forall v :: Propagated(servers, v) ==> Propagated(servers[..n], v)
  {
  }

  /** An unobserved authority is never "assume yes", and one more answer never adds a
      value. */
  lemma {:induction false} MoreAnswersNeverAdd(servers: Answers, addrs: seq<Option<seq<string>>>, v: string)
    requires Propagated(servers + [addrs], v) && servers != []
    ensures Propagated(servers, v) && Observed(addrs)
  {
    forall i | 0 <= i < |servers|
      ensures Observed(servers[i]) && Serves(servers[i], v)
    {
      assert (servers + [addrs])[i] == servers[i];
    }
    assert (servers + [addrs])[|servers|] == addrs;
  }
}
