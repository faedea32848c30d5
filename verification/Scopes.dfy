/** Scope sets: which sets may be granted, and what a granted set permits. */
module Scopes {
  import opened Common

  /** UnknownKind stands for a kind written by another version. */
  datatype ScopeKind = FullOwner | ReadOnly | SingleSet | SingleDevice | UnknownKind(name: string)

  datatype Scope = Scope(kind: ScopeKind, resource: string)

  const MAX_SCOPES := 32

  predicate Binding(k: ScopeKind) {
    k == SingleSet || k == SingleDevice
  }

  /** A known kind, carrying a resource id exactly when the kind binds one. */
  predicate WellFormed(s: Scope) {
    !s.kind.UnknownKind? && (Binding(s.kind) <==> s.resource != "")
  }

  ghost predicate Holds(scopes: seq<Scope>, k: ScopeKind) {
    exists i :: 0 <= i < |scopes| && scopes[i].kind == k
  }

  /** The grantable sets: non-empty, bounded, well formed, free of duplicates,
      full-owner only alone, and at most one resource binding. */
  ghost predicate Grantable(scopes: seq<Scope>) {
    && 0 < |scopes| <= MAX_SCOPES
    && (forall i :: 0 <= i < |scopes| ==> WellFormed(scopes[i]))
    && Distinct(scopes)
    && (Holds(scopes, FullOwner) ==> |scopes| == 1)
    && (forall i, j :: 0 <= i < j < |scopes| ==> !(Binding(scopes[i].kind) && Binding(scopes[j].kind)))
  }

  /** The grant of everything an owner may do. */
  const FULL_GRANT := [Scope(FullOwner, "")]

  lemma {:induction false} FullGrantIsGrantable()
    ensures Grantable(FULL_GRANT)
  {
    assert FULL_GRANT[0].kind == FullOwner;
  }

  /** The validation loop accepts exactly the grantable sets. */
  method ValidateScopes(scopes: seq<Scope>) returns (ok: bool)
    ensures ok <==> Grantable(scopes)
  {
    if |scopes| == 0 || |scopes| > MAX_SCOPES {
      return false;
    }
    var seen: set<Scope> := {};
    var bindings := 0;
    // The positions of the first two bindings met.
    ghost var p, q := 0, 0;
    for i := 0 to |scopes|
      invariant forall x :: x in seen <==> x in scopes[..i]
      invariant forall k :: 0 <= k < i ==> WellFormed(scopes[k])
      invariant Distinct(scopes[..i])
      invariant |scopes| > 1 ==> forall k :: 0 <= k < i ==> scopes[k].kind != FullOwner
      invariant bindings >= 0
      invariant bindings == 0 ==> forall k :: 0 <= k < i ==> !Binding(scopes[k].kind)
      invariant bindings == 1 ==> 0 <= p < i && forall k :: 0 <= k < i ==> (Binding(scopes[k].kind) <==> k == p)
      invariant bindings > 1 ==> 0 <= p < q < i && Binding(scopes[p].kind) && Binding(scopes[q].kind)
    {
      var s := scopes[i];
      assert scopes[..i + 1] == scopes[..i] + [s];
      if !WellFormed(s) {
        return false;
      }
      if s in seen {
        RepeatedIsNotGrantable(scopes, i);
        return false;
      }
      DistinctAppend(scopes[..i], s);
      seen := seen + {s};
      if s.kind == FullOwner && |scopes| > 1 {
        FullOwnerStandsAlone(scopes, i);
        return false;
      }
      if Binding(s.kind) {
        if bindings == 0 {
          p := i;
        } else if bindings == 1 {
          q := i;
        }
        bindings := bindings + 1;
      }
    }
    assert scopes[..|scopes|] == scopes;
    BindingsDecide(scopes, bindings, p, q);
    return bindings <= 1;
  }

  /** With everything else in order, the number of bindings decides. */
  lemma {:induction false} BindingsDecide(scopes: seq<Scope>, bindings: int, p: int, q: int)
    requires 0 < |scopes| <= MAX_SCOPES && Distinct(scopes) && bindings >= 0
    requires forall k :: 0 <= k < |scopes| ==> WellFormed(scopes[k])
    requires |scopes| > 1 ==> forall k :: 0 <= k < |scopes| ==> scopes[k].kind != FullOwner
    requires bindings == 0 ==> forall k :: 0 <= k < |scopes| ==> !Binding(scopes[k].kind)
    requires bindings == 1 ==> 0 <= p < |scopes| && forall k :: 0 <= k < |scopes| ==> (Binding(scopes[k].kind) <==> k == p)
    requires bindings > 1 ==> 0 <= p < q < |scopes| && Binding(scopes[p].kind) && Binding(scopes[q].kind)
    ensures bindings <= 1 <==> Grantable(scopes)
  {
  }

  lemma {:induction false} RepeatedIsNotGrantable(scopes: seq<Scope>, i: nat)
    requires i < |scopes| && scopes[i] in scopes[..i]
    ensures !Grantable(scopes)
  {
    var k :| 0 <= k < i && scopes[..i][k] == scopes[i];
    assert scopes[k] == scopes[i];
  }

  lemma {:induction false} FullOwnerStandsAlone(scopes: seq<Scope>, i: nat)
    requires i < |scopes| && |scopes| > 1 && scopes[i].kind == FullOwner
    ensures !Grantable(scopes)
  {
    assert Holds(scopes, FullOwner);
  }

  datatype ResourceKind = NoResource | KeySet | Device

  datatype Access = Access(resource: ResourceKind, resourceId: string, mutating: bool)

  /** A resource-bound scope covers exactly the one resource it names. */
  predicate BoundPermits(s: Scope, acc: Access, want: ResourceKind) {
    acc.resource == want && acc.resourceId != "" && s.resource != "" && s.resource == acc.resourceId
  }

  predicate ScopePermits(s: Scope, acc: Access) {
    match s.kind
    case FullOwner => true
    case SingleSet => BoundPermits(s, acc, KeySet)
    case SingleDevice => BoundPermits(s, acc, Device)
    case ReadOnly => false
    case UnknownKind(_) => false
  }

  /** What the two-pass evaluation decides on any set, grantable or not. */
  ghost predicate Permits(scopes: seq<Scope>, acc: Access) {
    && !(Holds(scopes, ReadOnly) && acc.mutating)
    && ((|scopes| > 0 && forall i :: 0 <= i < |scopes| ==> scopes[i].kind == ReadOnly)
        || exists i :: 0 <= i < |scopes| && ScopePermits(scopes[i], acc))
  }

  method PermitsAccess(scopes: seq<Scope>, acc: Access) returns (ok: bool)
    ensures ok <==> Permits(scopes, acc)
  {
    var readOnly := false;
    var grants := 0;
    for i := 0 to |scopes|
      invariant readOnly <==> exists k :: 0 <= k < i && scopes[k].kind == ReadOnly
      invariant grants >= 0
      invariant grants == 0 <==> forall k :: 0 <= k < i ==> scopes[k].kind == ReadOnly
    {
      if scopes[i].kind == ReadOnly {
        readOnly := true;
      } else {
        grants := grants + 1;
      }
    }
    assert |scopes| > 0 && grants == 0 ==> scopes[0].kind == ReadOnly;
    if readOnly && acc.mutating {
      return false;
    }
    if readOnly && grants == 0 {
      return true;
    }
    for i := 0 to |scopes|
      invariant forall k :: 0 <= k < i ==> !ScopePermits(scopes[k], acc)
    {
      if scopes[i].kind != ReadOnly && ScopePermits(scopes[i], acc) {
        return true;
      }
    }
    return false;
  }

  /** The scope names the resource the request addresses. */
  predicate Names(s: Scope, acc: Access) {
    || (s.kind == SingleSet && acc.resource == KeySet && s.resource == acc.resourceId)
    || (s.kind == SingleDevice && acc.resource == Device && s.resource == acc.resourceId)
  }

  /** A binding to one named resource. */
  predicate Binds(s: Scope) {
    (s.kind == SingleSet || s.kind == SingleDevice) && s.resource != ""
  }

  /** The grantable sets, one by one: everything, read-only, one binding, and one binding
      with read-only in either order. */
  lemma {:induction false} GrantableIff(scopes: seq<Scope>)
    ensures Grantable(scopes) <==>
              || scopes == [Scope(FullOwner, "")]
              || scopes == [Scope(ReadOnly, "")]
              || (|scopes| == 1 && Binds(scopes[0]))
              || (|scopes| == 2 && Binds(scopes[0]) && scopes[1] == Scope(ReadOnly, ""))
              || (|scopes| == 2 && scopes[0] == Scope(ReadOnly, "") && Binds(scopes[1]))
  {
    if Grantable(scopes) {
      AtMostTwo(scopes);
      assert WellFormed(scopes[0]);
      if |scopes| == 2 {
        assert WellFormed(scopes[1]) && scopes[0] != scopes[1];
        assert scopes[0].kind == FullOwner || scopes[1].kind == FullOwner ==> Holds(scopes, FullOwner);
      }
    }
  }

  predicate BindsAt(scopes: seq<Scope>, i: int) {
    0 <= i < |scopes| && Binding(scopes[i].kind)
  }

  /** Of two members of a grantable set exactly one is a binding. */
  lemma {:induction false} OneOfTwoBinds(scopes: seq<Scope>, i: int, j: int)
    requires Grantable(scopes) && 0 <= i < j < |scopes|
    ensures BindsAt(scopes, i) != BindsAt(scopes, j)
  {
    assert WellFormed(scopes[i]) && WellFormed(scopes[j]) && scopes[i] != scopes[j];
    assert scopes[i].kind == FullOwner || scopes[j].kind == FullOwner ==> Holds(scopes, FullOwner);
  }

  lemma {:induction false} AtMostTwo(scopes: seq<Scope>)
    requires Grantable(scopes)
    ensures |scopes| <= 2
  {
    forall i, j | 0 <= i < j < |scopes|
      ensures BindsAt(scopes, i) != BindsAt(scopes, j)
    {
      OneOfTwoBinds(scopes, i, j);
    }
    var first, second, third := BindsAt(scopes, 0), BindsAt(scopes, 1), BindsAt(scopes, 2);
  }

  /** What each of them permits. */
  lemma {:induction false} AuthorityTable(id: string, acc: Access)
    requires id != ""
    ensures Permits([Scope(FullOwner, "")], acc)
    ensures Permits([Scope(ReadOnly, "")], acc) <==> !acc.mutating
    ensures Permits([Scope(SingleSet, id)], acc) <==> acc.resource == KeySet && acc.resourceId == id
    ensures Permits([Scope(SingleDevice, id)], acc) <==> acc.resource == Device && acc.resourceId == id
    ensures Permits([Scope(SingleSet, id), Scope(ReadOnly, "")], acc) <==>
              acc.resource == KeySet && acc.resourceId == id && !acc.mutating
    ensures Permits([Scope(SingleDevice, id), Scope(ReadOnly, "")], acc) <==>
              acc.resource == Device && acc.resourceId == id && !acc.mutating
    ensures !Permits([], acc)
  {
    FullGrantPermits(acc);
    OnePermits(Scope(ReadOnly, ""), acc);
    OnePermits(Scope(SingleSet, id), acc);
    OnePermits(Scope(SingleDevice, id), acc);
    ReadOnlyNarrows(Scope(SingleSet, id), acc);
    ReadOnlyNarrows(Scope(SingleDevice, id), acc);
  }

  lemma {:induction false} OnePermits(s: Scope, acc: Access)
    ensures Permits([s], acc) <==> (if s.kind == ReadOnly then !acc.mutating else ScopePermits(s, acc))
  {
    assert [s][0] == s;
    if s.kind == ReadOnly {
      assert Holds([s], ReadOnly);
    }
  }

  /** A kind this version does not know grants nothing by itself. */
  lemma {:induction false} UnknownGrantsNothing(name: string, resource: string, acc: Access)
    ensures !Permits([Scope(UnknownKind(name), resource)], acc) && !Grantable([Scope(UnknownKind(name), resource)])
  {
    OnePermits(Scope(UnknownKind(name), resource), acc);
    assert [Scope(UnknownKind(name), resource)][0].kind.UnknownKind?;
  }

  /** The scope algebra: on a grantable set the evaluation says "read-only forbids
      mutation, and the grant is full-owner, read-only alone, or the one binding". */
  lemma {:induction false} GrantableAuthority(scopes: seq<Scope>, acc: Access)
    requires Grantable(scopes)
    ensures Permits(scopes, acc) <==>
              && (Holds(scopes, ReadOnly) ==> !acc.mutating)
              && (|| scopes == [Scope(FullOwner, "")]
                  || scopes == [Scope(ReadOnly, "")]
                  || exists s :: s in scopes && Names(s, acc))
  {
    if Permits(scopes, acc) {
      if i :| 0 <= i < |scopes| && ScopePermits(scopes[i], acc) {
        if scopes[i].kind == FullOwner {
          assert Holds(scopes, FullOwner);
        } else {
          assert scopes[i] in scopes && Names(scopes[i], acc);
        }
      } else {
        OnlyReadOnly(scopes);
      }
    } else if s :| s in scopes && Names(s, acc) {
      var i :| 0 <= i < |scopes| && scopes[i] == s;
      assert WellFormed(scopes[i]) && ScopePermits(scopes[i], acc);
    }
    FullGrantPermits(acc);
  }

  lemma {:induction false} FullGrantPermits(acc: Access)
    ensures Permits(FULL_GRANT, acc)
  {
    assert ScopePermits(FULL_GRANT[0], acc) && FULL_GRANT[0].kind != ReadOnly;
  }

  lemma {:induction false} FirstTwoDiffer<T>(s: seq<T>)
    requires Distinct(s)
    ensures |s| > 1 ==> s[0] != s[1]
  {
  }

  lemma {:induction false} OnlyReadOnly(scopes: seq<Scope>)
    requires Grantable(scopes)
    requires forall i :: 0 <= i < |scopes| ==> scopes[i].kind == ReadOnly
    ensures scopes == [Scope(ReadOnly, "")]
  {
    forall i | 0 <= i < |scopes|
      ensures scopes[i] == Scope(ReadOnly, "")
    {
      assert WellFormed(scopes[i]);
    }
    FirstTwoDiffer(scopes);
  }

  /** Authority depends on the members of the set, never on their order. */
  lemma {:induction false} OrderIndependent(a: seq<Scope>, b: seq<Scope>, acc: Access)
    requires multiset(a) == multiset(b)
    ensures Permits(a, acc) <==> Permits(b, acc)
  {
    assert |a| == |multiset(a)| == |b|;
    SameMembers(a, b);
    SameMembers(b, a);
  }

  lemma {:induction false} SameMembers(a: seq<Scope>, b: seq<Scope>)
    requires multiset(a) == multiset(b)
    ensures forall i :: 0 <= i < |a| ==> exists j :: 0 <= j < |b| && b[j] == a[i]
  {
    forall i | 0 <= i < |a|
      ensures exists j :: 0 <= j < |b| && b[j] == a[i]
    {
      assert a[i] in multiset(a);
      assert a[i] in multiset(b);
      var j :| 0 <= j < |b| && b[j] == a[i];
    }
  }

  /** Adding read-only to a binding removes exactly the mutations. */
  lemma {:induction false} ReadOnlyNarrows(binding: Scope, acc: Access)
    requires Binding(binding.kind)
    ensures Permits([binding, Scope(ReadOnly, "")], acc) <==> Permits([binding], acc) && !acc.mutating
  {
    var narrowed := [binding, Scope(ReadOnly, "")];
    assert narrowed[1].kind == ReadOnly;
    assert narrowed[0] == [binding][0];
  }

  /** A grantable set holding a binding reaches at most one resource. */
  lemma {:induction false} OneResource(scopes: seq<Scope>, a: Access, b: Access)
    requires Grantable(scopes)
    requires exists s :: s in scopes && Binding(s.kind)
    requires Permits(scopes, a) && Permits(scopes, b)
    ensures a.resource == b.resource && a.resourceId == b.resourceId && a.resource != NoResource
  {
    var s :| s in scopes && Binding(s.kind);
    GrantableAuthority(scopes, a);
    GrantableAuthority(scopes, b);
    var x :| x in scopes && Names(x, a);
    var y :| y in scopes && Names(y, b);
    var i :| 0 <= i < |scopes| && scopes[i] == x;
    var j :| 0 <= j < |scopes| && scopes[j] == y;
    assert i == j;
  }
}
