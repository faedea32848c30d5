/** Publishing and withdrawing single values in a record set that can only be read and
    replaced as a whole. */
module RecordSets {

  /** How a provider recognizes a published value among the stored records, the record
      it stores for one, and what replacing the set does to each record. */
  datatype Api<!T, !V> = Api(matches: (T, V) -> bool, record: V -> T, fill: T -> T)

  /** Recognition survives a rewrite, rewriting twice is rewriting once, a stored record
      is recognized, and no record is two of our values. */
  ghost predicate Sane<T(!new), V(!new)>(api: Api<T, V>, ours: set<V>) {
    && (forall x, v :: api.matches(api.fill(x), v) == api.matches(x, v))
    && (forall x :: api.fill(api.fill(x)) == api.fill(x))
    && (forall v :: v in ours ==> api.matches(api.record(v), v))
    && (forall x, v, w :: v in ours && w in ours && api.matches(x, v) && api.matches(x, w) ==> v == w)
  }

  predicate FoundAt<T, V>(api: Api<T, V>, xs: seq<T>, v: V, i: int) {
    0 <= i < |xs| && api.matches(xs[i], v)
  }

  ghost predicate Holds<T, V>(api: Api<T, V>, xs: seq<T>, v: V) {
    exists i :: FoundAt(api, xs, v, i)
  }

  /** The position of the first record recognized as the value, or -1. */
  function Find<T, V>(api: Api<T, V>, xs: seq<T>, v: V): (r: int)
    ensures r == -1 || (FoundAt(api, xs, v, r) && forall j :: 0 <= j < r ==> !FoundAt(api, xs, v, j))
    ensures r == -1 <==> !Holds(api, xs, v)
  {
    if xs == [] then -1
    else
      var r := Find(api, xs[..|xs| - 1], v);
      FindLast(api, xs, v);
      if r >= 0 then r else if api.matches(xs[|xs| - 1], v) then |xs| - 1 else -1
  }

  lemma {:induction false} FindLast<T, V>(api: Api<T, V>, xs: seq<T>, v: V)
    requires xs != []
    ensures Holds(api, xs, v) <==> Holds(api, xs[..|xs| - 1], v) || api.matches(xs[|xs| - 1], v)
    ensures forall j :: 0 <= j < |xs| - 1 ==> (FoundAt(api, xs, v, j) <==> FoundAt(api, xs[..|xs| - 1], v, j))
  {
    if Holds(api, xs[..|xs| - 1], v) {
      var i :| FoundAt(api, xs[..|xs| - 1], v, i);
      assert FoundAt(api, xs, v, i);
    }
    if api.matches(xs[|xs| - 1], v) {
      assert FoundAt(api, xs, v, |xs| - 1);
    }
    if Holds(api, xs, v) {
      var i :| FoundAt(api, xs, v, i);
      assert i == |xs| - 1 || FoundAt(api, xs[..|xs| - 1], v, i);
    }
  }

  method IndexOf<T, V>(api: Api<T, V>, xs: seq<T>, v: V) returns (r: int)
    ensures r == Find(api, xs, v)
  {
    for i := 0 to |xs|
      invariant forall j :: 0 <= j < i ==> !FoundAt(api, xs, v, j)
    {
      if api.matches(xs[i], v) {
        assert FoundAt(api, xs, v, i);
        return i;
      }
    }
    return -1;
  }

  /** What a replace stores. */
  function Filled<T, V>(api: Api<T, V>, xs: seq<T>): (r: seq<T>)
    ensures |r| == |xs| && forall i :: 0 <= i < |xs| ==> r[i] == api.fill(xs[i])
  {
    seq(|xs|, i requires 0 <= i < |xs| => api.fill(xs[i]))
  }

  function Added<T, V>(api: Api<T, V>, xs: seq<T>, v: V): seq<T> {
    if Find(api, xs, v) < 0 then xs + [api.record(v)] else xs
  }

  function Dropped<T, V>(api: Api<T, V>, xs: seq<T>, v: V): seq<T> {
    var i := Find(api, xs, v);
    if i < 0 then xs else xs[..i] + xs[i + 1..]
  }

  /** A value that was not there goes after everything that was, and a value that was
      changes nothing; what is dropped is the first record of the value, and only it. */
  lemma {:induction false} PlaceOfOurs<T, V>(api: Api<T, V>, xs: seq<T>, v: V)
    ensures !Holds(api, xs, v) ==> Added(api, xs, v) == xs + [api.record(v)] && Dropped(api, xs, v) == xs
    ensures Holds(api, xs, v) ==>
              && Added(api, xs, v) == xs
              && exists i :: FoundAt(api, xs, v, i) && (forall j :: 0 <= j < i ==> !FoundAt(api, xs, v, j))
                             && Dropped(api, xs, v) == xs[..i] + xs[i + 1..]
  {
    var i := Find(api, xs, v);
    if i >= 0 {
      assert FoundAt(api, xs, v, i);
    }
  }

  /** The set after a publish that applied. */
  function Presented<T, V>(api: Api<T, V>, xs: seq<T>, v: V): seq<T> {
    Filled(api, Added(api, xs, v))
  }

  /** The set after a cleanup that applied; an absent value issues no write. */
  function Withdrawn<T, V>(api: Api<T, V>, xs: seq<T>, v: V): seq<T> {
    if Find(api, xs, v) < 0 then xs else Filled(api, Dropped(api, xs, v))
  }

  /** One call. A write that reports failure may have applied or not. */
  datatype Op<V> = Present(value: V, applied: bool) | Cleanup(value: V, applied: bool)

  function After<T, V>(api: Api<T, V>, xs: seq<T>, op: Op<V>): seq<T> {
    if !op.applied then xs
    else if op.Present? then Presented(api, xs, op.value)
    else Withdrawn(api, xs, op.value)
  }

  function Exec<T, V>(api: Api<T, V>, xs: seq<T>, ops: seq<Op<V>>): seq<T> {
    if ops == [] then xs else After(api, Exec(api, xs, ops[..|ops| - 1]), ops[|ops| - 1])
  }

  ghost predicate Ours<V>(ops: seq<Op<V>>, ours: set<V>) {
    forall i :: 0 <= i < |ops| ==> ops[i].value in ours
  }

  // ---------------------------------------------------------------------
  // Foreign records
  // ---------------------------------------------------------------------

  ghost predicate Owned<T, V>(api: Api<T, V>, ours: set<V>, x: T) {
    exists v :: v in ours && api.matches(x, v)
  }

  /** The records that are none of our values, in order. */
  ghost function Foreign<T, V>(api: Api<T, V>, ours: set<V>, xs: seq<T>): seq<T> {
    if xs == [] then []
    else Foreign(api, ours, xs[..|xs| - 1]) + (if Owned(api, ours, xs[|xs| - 1]) then [] else [xs[|xs| - 1]])
  }

  lemma {:induction false} ForeignMembers<T, V>(api: Api<T, V>, ours: set<V>, xs: seq<T>, x: T)
    ensures x in Foreign(api, ours, xs) <==> x in xs && !Owned(api, ours, x)
    decreases |xs|
  {
    if xs != [] {
      ForeignMembers(api, ours, xs[..|xs| - 1], x);
      assert xs == xs[..|xs| - 1] + [xs[|xs| - 1]];
    }
  }

  lemma {:induction false} ForeignAppend<T, V>(api: Api<T, V>, ours: set<V>, a: seq<T>, b: seq<T>)
    ensures Foreign(api, ours, a + b) == Foreign(api, ours, a) + Foreign(api, ours, b)
    decreases |b|
  {
    if b == [] {
      assert a + b == a;
    } else {
      var front := b[..|b| - 1];
      assert (a + b)[..|a + b| - 1] == a + front;
      ForeignAppend(api, ours, a, front);
    }
  }

  lemma {:induction false} ForeignFilled<T(!new), V(!new)>(api: Api<T, V>, ours: set<V>, xs: seq<T>)
    requires Sane(api, ours)
    ensures Foreign(api, ours, Filled(api, xs)) == Filled(api, Foreign(api, ours, xs))
  {
    if xs != [] {
      var front, x := xs[..|xs| - 1], xs[|xs| - 1];
      ForeignFilled(api, ours, front);
      assert Filled(api, xs)[..|xs| - 1] == Filled(api, front);
      assert Owned(api, ours, api.fill(x)) <==> Owned(api, ours, x);
    }
  }

  lemma {:induction false} ForeignSingle<T, V>(api: Api<T, V>, ours: set<V>, x: T)
    requires Owned(api, ours, x)
    ensures Foreign(api, ours, [x]) == []
  {
    assert [x][..0] == [];
  }

  lemma {:induction false} ForeignAdded<T(!new), V(!new)>(api: Api<T, V>, ours: set<V>, xs: seq<T>, v: V)
    requires Sane(api, ours) && v in ours
    ensures Foreign(api, ours, Added(api, xs, v)) == Foreign(api, ours, xs)
  {
    ForeignAppend(api, ours, xs, [api.record(v)]);
    ForeignSingle(api, ours, api.record(v));
  }

  lemma {:induction false} ForeignDropped<T(!new), V(!new)>(api: Api<T, V>, ours: set<V>, xs: seq<T>, v: V)
    requires v in ours
    ensures Foreign(api, ours, Dropped(api, xs, v)) == Foreign(api, ours, xs)
  {
    var i := Find(api, xs, v);
    if i >= 0 {
      OwnedOmitted(api, ours, xs[..i], xs[i], xs[i + 1..]);
      assert xs == xs[..i] + ([xs[i]] + xs[i + 1..]);
    }
  }

  lemma {:induction false} OwnedOmitted<T, V>(api: Api<T, V>, ours: set<V>, a: seq<T>, x: T, b: seq<T>)
    requires Owned(api, ours, x)
    ensures Foreign(api, ours, a + ([x] + b)) == Foreign(api, ours, a + b)
  {
    ForeignAppend(api, ours, a, [x] + b);
    ForeignAppend(api, ours, [x], b);
    ForeignAppend(api, ours, a, b);
    ForeignSingle(api, ours, x);
    assert [] + Foreign(api, ours, b) == Foreign(api, ours, b);
  }

  /** The record lists a rewrite may turn a list into. */
  predicate UpToFilling<T(==), V>(api: Api<T, V>, was: seq<T>, now: seq<T>) {
    now == was || now == Filled(api, was)
  }

  lemma {:induction false} AfterKeepsForeign<T(!new), V(!new)>(api: Api<T, V>, ours: set<V>, xs: seq<T>, op: Op<V>)
    requires Sane(api, ours) && op.value in ours
    ensures UpToFilling(api, Foreign(api, ours, xs), Foreign(api, ours, After(api, xs, op)))
  {
    ForeignAdded(api, ours, xs, op.value);
    ForeignDropped(api, ours, xs, op.value);
    ForeignFilled(api, ours, Added(api, xs, op.value));
    ForeignFilled(api, ours, Dropped(api, xs, op.value));
  }

  /** Any run of publishes and cleanups, applied or lost, keeps every foreign record and
      their order; a record changes at most by what a rewrite fills in. */
  lemma {:induction false} RunKeepsForeign<T(!new), V(!new)>(api: Api<T, V>, ours: set<V>, xs: seq<T>, ops: seq<Op<V>>)
    requires Sane(api, ours) && Ours(ops, ours)
    ensures UpToFilling(api, Foreign(api, ours, xs), Foreign(api, ours, Exec(api, xs, ops)))
    decreases |ops|
  {
    if ops != [] {
      var front := ops[..|ops| - 1];
      RunKeepsForeign(api, ours, xs, front);
      AfterKeepsForeign(api, ours, Exec(api, xs, front), ops[|ops| - 1]);
      FilledTwice(api, ours, Foreign(api, ours, xs));
    }
  }

  lemma {:induction false} FilledTwice<T(!new), V(!new)>(api: Api<T, V>, ours: set<V>, xs: seq<T>)
    requires Sane(api, ours)
    ensures Filled(api, Filled(api, xs)) == Filled(api, xs)
  {
  }

  // ---------------------------------------------------------------------
  // Our records
  // ---------------------------------------------------------------------

  /** The set holds at most one record of the value. */
  ghost predicate AtMostOne<T, V>(api: Api<T, V>, xs: seq<T>, v: V) {
    forall i, j :: FoundAt(api, xs, v, i) && FoundAt(api, xs, v, j) ==> i == j
  }

  lemma {:induction false} FilledFinds<T(!new), V(!new)>(api: Api<T, V>, ours: set<V>, xs: seq<T>, v: V)
    requires Sane(api, ours)
    ensures forall i :: FoundAt(api, Filled(api, xs), v, i) <==> FoundAt(api, xs, v, i)
    ensures Holds(api, Filled(api, xs), v) <==> Holds(api, xs, v)
    ensures AtMostOne(api, Filled(api, xs), v) <==> AtMostOne(api, xs, v)
  {
    forall i
      ensures FoundAt(api, Filled(api, xs), v, i) <==> FoundAt(api, xs, v, i)
    {
    }
  }

  lemma {:induction false} AddedFinds<T(!new), V(!new)>(api: Api<T, V>, ours: set<V>, xs: seq<T>, v: V, w: V)
    requires Sane(api, ours) && v in ours && w in ours && AtMostOne(api, xs, w)
    ensures var r := Added(api, xs, v);
            AtMostOne(api, r, w) && (Holds(api, r, w) <==> w == v || Holds(api, xs, w))
  {
    var r := Added(api, xs, v);
    if Find(api, xs, v) < 0 {
      assert r == xs + [api.record(v)];
      assert forall i :: FoundAt(api, r, w, i) <==> FoundAt(api, xs, w, i) || (i == |xs| && w == v);
      if w == v {
        assert FoundAt(api, r, w, |xs|);
      }
      if Holds(api, xs, w) {
        var i :| FoundAt(api, xs, w, i);
        assert FoundAt(api, r, w, i);
      }
    }
  }

  lemma {:induction false} DroppedFinds<T(!new), V(!new)>(api: Api<T, V>, ours: set<V>, xs: seq<T>, v: V, w: V)
    requires Sane(api, ours) && v in ours && w in ours && AtMostOne(api, xs, w)
    ensures var r := Dropped(api, xs, v);
            AtMostOne(api, r, w) && (Holds(api, r, w) <==> w != v && Holds(api, xs, w))
  {
    var r, k := Dropped(api, xs, v), Find(api, xs, v);
    if k >= 0 {
      assert FoundAt(api, xs, v, k);
      assert forall i :: 0 <= i < |r| ==> r[i] == xs[if i < k then i else i + 1];
      assert forall i :: FoundAt(api, r, w, i) ==> FoundAt(api, xs, w, if i < k then i else i + 1);
      if Holds(api, xs, w) && w != v {
        var i :| FoundAt(api, xs, w, i);
        assert i != k;
        assert FoundAt(api, r, w, if i < k then i else i - 1);
      }
    }
  }

  lemma {:induction false} AfterFinds<T(!new), V(!new)>(api: Api<T, V>, ours: set<V>, xs: seq<T>, op: Op<V>, w: V)
    requires Sane(api, ours) && op.value in ours && w in ours && AtMostOne(api, xs, w)
    ensures var r := After(api, xs, op);
            && AtMostOne(api, r, w)
            && (Holds(api, r, w) <==>
                  if op.applied && op.value == w then op.Present? else Holds(api, xs, w))
  {
    var v := op.value;
    if op.applied {
      if op.Present? {
        AddedFinds(api, ours, xs, v, w);
        FilledFinds(api, ours, Added(api, xs, v), w);
      } else {
        DroppedFinds(api, ours, xs, v, w);
        FilledFinds(api, ours, Dropped(api, xs, v), w);
      }
    }
  }

  /** The last applied call for the value withdrew it, or none ever published it. */
  predicate Settled<V(==)>(ops: seq<Op<V>>, v: V) {
    if ops == [] then true
    else
      var last := ops[|ops| - 1];
      if last.applied && last.value == v then last.Cleanup? else Settled(ops[..|ops| - 1], v)
  }

  /** Starting without the value, the set ends without it exactly when it is settled. */
  lemma {:induction false} HeldIffUnsettled<T(!new), V(!new)>(api: Api<T, V>, ours: set<V>, xs: seq<T>, ops: seq<Op<V>>, v: V)
    requires Sane(api, ours) && Ours(ops, ours) && v in ours && !Holds(api, xs, v)
    ensures AtMostOne(api, Exec(api, xs, ops), v)
    ensures Holds(api, Exec(api, xs, ops), v) <==> !Settled(ops, v)
    decreases |ops|
  {
    if ops == [] {
      assert forall i :: !FoundAt(api, xs, v, i);
    } else {
      var front := ops[..|ops| - 1];
      HeldIffUnsettled(api, ours, xs, front, v);
      AfterFinds(api, ours, Exec(api, xs, front), ops[|ops| - 1], v);
    }
  }

  lemma {:induction false} AllForeign<T(!new), V(!new)>(api: Api<T, V>, ours: set<V>, xs: seq<T>)
    requires forall v :: v in ours ==> !Holds(api, xs, v)
    ensures Foreign(api, ours, xs) == xs
  {
    if xs != [] {
      var front, x := xs[..|xs| - 1], xs[|xs| - 1];
      forall v | v in ours
        ensures !Holds(api, front, v) && !api.matches(x, v)
      {
        FindLast(api, xs, v);
      }
      AllForeign(api, ours, front);
    }
  }

  /** Once every value's cleanup has applied after its publishes, in whatever order and
      with whatever lost and repeated calls, the original set is back, up to filling. */
  lemma {:induction false} CleanupsRestore<T(!new), V(!new)>(api: Api<T, V>, ours: set<V>, xs: seq<T>, ops: seq<Op<V>>)
    requires Sane(api, ours) && Ours(ops, ours)
    requires forall v :: v in ours ==> !Holds(api, xs, v) && Settled(ops, v)
    ensures UpToFilling(api, xs, Exec(api, xs, ops))
  {
    RunKeepsForeign(api, ours, xs, ops);
    forall v | v in ours
      ensures !Holds(api, Exec(api, xs, ops), v)
    {
      HeldIffUnsettled(api, ours, xs, ops, v);
    }
    AllForeign(api, ours, xs);
    AllForeign(api, ours, Exec(api, xs, ops));
  }

  /** A publish and its cleanup restore the set exactly when it held no record of the
      value to begin with: one that was already there is the one withdrawn. */
  lemma {:induction false} RestoresIff<T(!new), V(!new)>(api: Api<T, V>, xs: seq<T>, v: V)
    requires Sane(api, {v})
    ensures UpToFilling(api, xs, Withdrawn(api, Presented(api, xs, v), v)) <==> !Holds(api, xs, v)
  {
    if !Holds(api, xs, v) {
      var ops := [Present(v, true), Cleanup(v, true)];
      TwoCalls(api, xs, v);
      CleanupsRestore(api, {v}, xs, ops);
    } else {
      OneFewer(api, xs, v);
    }
  }

  lemma {:induction false} TwoCalls<T(!new), V(!new)>(api: Api<T, V>, xs: seq<T>, v: V)
    ensures var ops := [Present(v, true), Cleanup(v, true)];
            && Exec(api, xs, ops) == Withdrawn(api, Presented(api, xs, v), v)
            && Ours(ops, {v}) && Settled(ops, v)
  {
    var ops := [Present(v, true), Cleanup(v, true)];
    assert ops[..1] == [Present(v, true)] && ops[..1][..0] == [];
    assert Exec(api, xs, ops[..1]) == Presented(api, xs, v);
  }

  /** A value that was there is not added, and one record goes. */
  lemma {:induction false} OneFewer<T(!new), V(!new)>(api: Api<T, V>, xs: seq<T>, v: V)
    requires Sane(api, {v}) && Holds(api, xs, v)
    ensures |Withdrawn(api, Presented(api, xs, v), v)| == |xs| - 1
  {
    FilledFinds(api, {v}, xs, v);
  }
}
