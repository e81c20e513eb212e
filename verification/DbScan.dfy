/** Scanning a tree of buckets breadth first, and collecting the values it points to. */
module DbScan {
  import opened Wrappers
  import opened Bytes
  import opened ByteOrder
  import opened DbKeys
  import opened DbBuckets
  import opened DbStore
  import opened DbRuns

  /** A bucket waiting to be scanned, with the path that leads to it. */
  datatype Waiting = Waiting(prefix: seq<Name>, tree: Tree)

  /** A value found by the scan: where, and what is stored there. */
  datatype Found = Found(path: seq<Name>, ptr: Name)

  /** The values directly in a bucket, in key order. */
  ghost function Leaves(w: Waiting, ks: seq<Name>): seq<Found>
    requires forall k :: k in ks ==> k in w.tree
  {
    if ks == [] then []
    else
      (match w.tree[ks[0]]
       case Leaf(ptr) => [Found(w.prefix + [ks[0]], ptr)]
       case Bucket(_) => []) + Leaves(w, ks[1..])
  }

  /** The buckets directly in a bucket, in key order. */
  ghost function Nested(w: Waiting, ks: seq<Name>): seq<Waiting>
    requires forall k :: k in ks ==> k in w.tree
  {
    if ks == [] then []
    else
      (match w.tree[ks[0]]
       case Leaf(_) => []
       case Bucket(sub) => [Waiting(w.prefix + [ks[0]], sub)]) + Nested(w, ks[1..])
  }

  /** The number of entries of a node and everything below it. */
  ghost function Weight(n: Node): nat
    decreases n, 1, 0
  {
    match n
    case Leaf(_) => 1
    case Bucket(entries) => 1 + WeightOf(n, Sorted(entries.Keys))
  }

  ghost function WeightOf(n: Node, ks: seq<Name>): nat
    requires n.Bucket? && forall k :: k in ks ==> k in n.entries
    decreases n, 0, |ks|
  {
    if ks == [] then 0 else Weight(n.entries[ks[0]]) + WeightOf(n, ks[1..])
  }

  /** What is still to be scanned, as a termination measure. */
  ghost function QueueWeight(q: seq<Waiting>): nat {
    if q == [] then 0 else Weight(Bucket(q[0].tree)) + QueueWeight(q[1..])
  }

  lemma {:induction false} QueueWeightAppend(a: seq<Waiting>, b: seq<Waiting>)
    ensures QueueWeight(a + b) == QueueWeight(a) + QueueWeight(b)
  {
    if a == [] {
      assert a + b == b;
    } else {
      assert (a + b)[1..] == a[1..] + b;
      QueueWeightAppend(a[1..], b);
    }
  }

  lemma {:induction false} NestedWeight(w: Waiting, ks: seq<Name>)
    requires forall k :: k in ks ==> k in w.tree
    ensures QueueWeight(Nested(w, ks)) <= WeightOf(Bucket(w.tree), ks)
    decreases |ks|
  {
    if ks != [] {
      NestedWeight(w, ks[1..]);
      match w.tree[ks[0]]
      case Leaf(_) => assert Nested(w, ks) == Nested(w, ks[1..]);
      case Bucket(sub) =>
        var head := [Waiting(w.prefix + [ks[0]], sub)];
        assert head[1..] == [];
        QueueWeightAppend(head, Nested(w, ks[1..]));
    }
  }

  /** Scanning one bucket strictly reduces what is left. */
  lemma ScanStepWeight(q: seq<Waiting>)
    requires q != []
    ensures QueueWeight(q[1..] + Nested(q[0], Sorted(q[0].tree.Keys))) < QueueWeight(q)
  {
    hide Sorted;
    NestedWeight(q[0], Sorted(q[0].tree.Keys));
    QueueWeightAppend(q[1..], Nested(q[0], Sorted(q[0].tree.Keys)));
  }

  /** The whole scan: the first bucket's values, then the rest of the queue
      with the first bucket's buckets added at the end. */
  ghost function Scan(q: seq<Waiting>): seq<Found>
    decreases QueueWeight(q)
  {
    if q == [] then []
    else
      var ks := Sorted(q[0].tree.Keys);
      ScanStepWeight(q);
      Leaves(q[0], ks) + Scan(q[1..] + Nested(q[0], ks))
  }

  /** f is a value in some waiting bucket or below it. */
  ghost predicate Reachable(q: seq<Waiting>, f: Found) {
    exists i :: 0 <= i < |q| && Below(q[i], f)
  }

  ghost predicate Below(w: Waiting, f: Found) {
    w.prefix < f.path && LeafAt(w.tree, f.path[|w.prefix|..]) == Some(f.ptr)
  }

  lemma {:induction false} LeavesAre(w: Waiting, ks: seq<Name>, f: Found)
    requires forall k :: k in ks ==> k in w.tree
    ensures f in Leaves(w, ks) <==> exists k :: k in ks && w.tree[k] == Leaf(f.ptr) && f.path == w.prefix + [k]
    decreases |ks|
  {
    if ks != [] {
      LeavesAre(w, ks[1..], f);
      assert forall k :: k in ks <==> k == ks[0] || k in ks[1..];
    }
  }

  lemma {:induction false} NestedAre(w: Waiting, ks: seq<Name>, x: Waiting)
    requires forall k :: k in ks ==> k in w.tree
    ensures x in Nested(w, ks) <==> exists k :: k in ks && w.tree[k] == Bucket(x.tree) && x.prefix == w.prefix + [k]
    decreases |ks|
  {
    if ks != [] {
      NestedAre(w, ks[1..], x);
      assert forall k :: k in ks <==> k == ks[0] || k in ks[1..];
    }
  }

  lemma BelowSplitsForward(w: Waiting, f: Found, ks: seq<Name>)
    requires (forall k :: k in ks <==> k in w.tree) && Below(w, f)
    ensures f in Leaves(w, ks) || Reachable(Nested(w, ks), f)
  {
    LeavesAre(w, ks, f);
    var rest := f.path[|w.prefix|..];
    assert f.path == w.prefix + rest;
    if |rest| == 1 {
      assert rest == [rest[0]];
    } else {
      var x := Waiting(w.prefix + [rest[0]], w.tree[rest[0]].entries);
      NestedAre(w, ks, x);
      hide Nested, Leaves;
      assert x.prefix < f.path;
      assert f.path[|x.prefix|..] == rest[1..];
      assert Below(x, f);
    }
  }

  lemma BelowSplitsBack(w: Waiting, f: Found, ks: seq<Name>)
    requires (forall k :: k in ks <==> k in w.tree) && (f in Leaves(w, ks) || Reachable(Nested(w, ks), f))
    ensures Below(w, f)
  {
    if f in Leaves(w, ks) {
      LeavesAre(w, ks, f);
      var k :| k in ks && w.tree[k] == Leaf(f.ptr) && f.path == w.prefix + [k];
      assert f.path[|w.prefix|..] == [k];
    } else {
      var i :| 0 <= i < |Nested(w, ks)| && Below(Nested(w, ks)[i], f);
      var x := Nested(w, ks)[i];
      NestedAre(w, ks, x);
      hide Nested, Leaves;
      var k :| k in ks && w.tree[k] == Bucket(x.tree) && x.prefix == w.prefix + [k];
      assert f.path[|w.prefix|..][0] == k;
      assert f.path[|w.prefix|..][1..] == f.path[|x.prefix|..];
    }
  }

  /** What is below a bucket is in it, or below one of its buckets. */
  lemma BelowSplits(w: Waiting, f: Found)
    ensures var ks := Sorted(w.tree.Keys);
      Below(w, f) <==> f in Leaves(w, ks) || Reachable(Nested(w, ks), f)
  {
    var ks := Sorted(w.tree.Keys);
    hide Sorted, Leaves, Nested, Below, Reachable;
    if Below(w, f) {
      BelowSplitsForward(w, f, ks);
    }
    if f in Leaves(w, ks) || Reachable(Nested(w, ks), f) {
      BelowSplitsBack(w, f, ks);
    }
  }

  lemma ReachableAppend(a: seq<Waiting>, b: seq<Waiting>, f: Found)
    ensures Reachable(a + b, f) <==> Reachable(a, f) || Reachable(b, f)
  {
    hide Below;
    if Reachable(b, f) {
      var i :| 0 <= i < |b| && Below(b[i], f);
      assert (a + b)[|a| + i] == b[i];
    }
    if Reachable(a, f) {
      var i :| 0 <= i < |a| && Below(a[i], f);
      assert (a + b)[i] == a[i];
    }
  }

  /** The scan finds every value below the waiting buckets and nothing else. */
  lemma {:induction false} ScanFinds(q: seq<Waiting>, f: Found)
    ensures f in Scan(q) <==> Reachable(q, f)
    decreases QueueWeight(q)
  {
    if q != [] {
      var ks := Sorted(q[0].tree.Keys);
      ScanStepWeight(q);
      ScanFinds(q[1..] + Nested(q[0], ks), f);
      ReachableAppend(q[1..], Nested(q[0], ks), f);
      BelowSplits(q[0], f);
    }
  }

  /** No waiting bucket lies below another one. */
  ghost predicate Apart(q: seq<Waiting>) {
    forall i, j :: 0 <= i < |q| && 0 <= j < |q| && i != j ==> !(q[i].prefix <= q[j].prefix)
  }

  ghost predicate Distinct<T(!new)>(s: seq<T>) {
    forall i, j :: 0 <= i < j < |s| ==> s[i] != s[j]
  }

  lemma {:induction false} LeavesDistinct(w: Waiting, ks: seq<Name>)
    requires (forall k :: k in ks ==> k in w.tree) && Distinct(ks)
    ensures Distinct(Leaves(w, ks))
    decreases |ks|
  {
    if ks != [] {
      LeavesDistinct(w, ks[1..]);
      match w.tree[ks[0]]
      case Bucket(_) => assert Leaves(w, ks) == Leaves(w, ks[1..]);
      case Leaf(ptr) =>
        var f := Found(w.prefix + [ks[0]], ptr);
        LeavesAre(w, ks[1..], f);
        assert f.path[|w.prefix|] == ks[0];
        assert f !in Leaves(w, ks[1..]);
    }
  }

  lemma {:induction false} NestedPrefixes(w: Waiting, ks: seq<Name>, i: nat)
    requires (forall k :: k in ks ==> k in w.tree) && i < |Nested(w, ks)|
    ensures exists k :: k in ks && Nested(w, ks)[i].prefix == w.prefix + [k]
  {
    NestedAre(w, ks, Nested(w, ks)[i]);
  }

  lemma {:induction false} NestedApart(w: Waiting, ks: seq<Name>)
    requires (forall k :: k in ks ==> k in w.tree) && Distinct(ks)
    ensures forall i, j :: 0 <= i < j < |Nested(w, ks)| ==> Nested(w, ks)[i].prefix != Nested(w, ks)[j].prefix
    decreases |ks|
  {
    if ks != [] {
      NestedApart(w, ks[1..]);
      match w.tree[ks[0]]
      case Leaf(_) => assert Nested(w, ks) == Nested(w, ks[1..]);
      case Bucket(sub) =>
        forall j | 0 < j < |Nested(w, ks)| ensures Nested(w, ks)[0].prefix != Nested(w, ks)[j].prefix {
          NestedPrefixes(w, ks[1..], j - 1);
          var k :| k in ks[1..] && Nested(w, ks[1..])[j - 1].prefix == w.prefix + [k];
          assert (w.prefix + [k])[|w.prefix|] == k && (w.prefix + [ks[0]])[|w.prefix|] == ks[0];
        }
    }
  }

  lemma PrefixStep(a: seq<Name>, k: Name, b: seq<Name>)
    ensures a + [k] <= b ==> a <= b
    ensures b <= a + [k] ==> b <= a || b == a + [k]
  {
    if a + [k] <= b {
      assert b[..|a|] == (a + [k])[..|a|];
    }
    if b <= a + [k] && |b| == |a| + 1 {
      assert b == a + [k];
    }
  }

  lemma ScanStepApart(q: seq<Waiting>, ks: seq<Name>)
    requires q != [] && Apart(q) && (forall k :: k in ks ==> k in q[0].tree) && Distinct(ks)
    ensures Apart(q[1..] + Nested(q[0], ks))
  {
    var w, tail, kids := q[0], q[1..], Nested(q[0], ks);
    NestedApart(w, ks);
    hide Nested;
    var all := tail + kids;
    forall i, j | 0 <= i < |all| && 0 <= j < |all| && i != j ensures !(all[i].prefix <= all[j].prefix) {
      if i >= |tail| {
        NestedPrefixes(w, ks, i - |tail|);
        var k :| k in ks && all[i].prefix == w.prefix + [k];
        PrefixStep(w.prefix, k, all[j].prefix);
      }
      if j >= |tail| {
        NestedPrefixes(w, ks, j - |tail|);
        var k :| k in ks && all[j].prefix == w.prefix + [k];
        PrefixStep(w.prefix, k, all[i].prefix);
      }
      if i < |tail| {
        assert all[i] == q[i + 1];
      }
      if j < |tail| {
        assert all[j] == q[j + 1];
      }
    }
  }

  /** A value in the first bucket is not below any other waiting bucket, nor below its own buckets. */
  lemma LeafNotLater(q: seq<Waiting>, ks: seq<Name>, f: Found)
    requires q != [] && Apart(q) && (forall k :: k in ks ==> k in q[0].tree) && f in Leaves(q[0], ks)
    ensures !Reachable(q[1..] + Nested(q[0], ks), f)
  {
    var w := q[0];
    LeavesAre(w, ks, f);
    var k :| k in ks && w.tree[k] == Leaf(f.ptr) && f.path == w.prefix + [k];
    hide LeafAt, Leaves;
    ReachableAppend(q[1..], Nested(w, ks), f);
    forall i | 0 <= i < |q[1..]| ensures !Below(q[1..][i], f) {
      assert q[1..][i] == q[i + 1];
      PrefixStep(w.prefix, k, q[i + 1].prefix);
    }
    forall i | 0 <= i < |Nested(w, ks)| ensures !Below(Nested(w, ks)[i], f) {
      NestedPrefixes(w, ks, i);
    }
  }

  lemma DistinctConcat<T(!new)>(a: seq<T>, b: seq<T>)
    requires Distinct(a) && Distinct(b) && forall x :: x in a ==> x !in b
    ensures Distinct(a + b)
  {
    forall i, j | 0 <= i < j < |a + b| ensures (a + b)[i] != (a + b)[j] {
      if i < |a| <= j {
        assert a[i] in a && b[j - |a|] in b;
      }
    }
  }

  /** The scan finds every value once. */
  lemma {:induction false} ScanDistinct(q: seq<Waiting>)
    requires Apart(q)
    ensures Distinct(Scan(q))
    decreases QueueWeight(q)
  {
    if q != [] {
      var ks := Sorted(q[0].tree.Keys);
      var next := q[1..] + Nested(q[0], ks);
      SortedDistinct(q[0].tree.Keys);
      ScanStepWeight(q);
      ScanStepApart(q, ks);
      ScanDistinct(next);
      LeavesDistinct(q[0], ks);
      forall f | f in Leaves(q[0], ks) ensures f !in Scan(next) {
        LeafNotLater(q, ks, f);
        ScanFinds(next, f);
      }
      DistinctConcat(Leaves(q[0], ks), Scan(next));
    }
  }

  /** Scanning one bucket visits each value below it exactly once. */
  lemma ScanExactlyOnce(m: Tree, path: seq<Name>, ptr: Name)
    requires path != []
    ensures Distinct(Scan([Waiting([], m)]))
    ensures Found(path, ptr) in Scan([Waiting([], m)]) <==> LeafAt(m, path) == Some(ptr)
  {
    hide Scan, LeafAt;
    var q := [Waiting([], m)];
    ScanDistinct(q);
    ScanFinds(q, Found(path, ptr));
    assert path[0..] == path;
    assert Reachable(q, Found(path, ptr)) <==> Below(q[0], Found(path, ptr));
  }

  /** The tag of stored documents: "_bs" and the separator. */
  const DOC_TAG: Name := [0x5F, 0x62, 0x73, 0x1F]

  predicate IsDoc(b: Name) {
    |b| >= 4 && b[..4] == DOC_TAG
  }

  /** What the scan passes on of a stored value: pointers as they are, tagged
      documents without their tag, and nothing else. */
  function Passed(b: Name): seq<Name> {
    if IsPointer(b) then [b] else if IsDoc(b) then [b[4..]] else []
  }

  ghost function PassedOn(fs: seq<Found>): seq<Name> {
    if fs == [] then [] else Passed(fs[0].ptr) + PassedOn(fs[1..])
  }

  lemma {:induction false} PassedOnAppend(a: seq<Found>, b: seq<Found>)
    ensures PassedOn(a + b) == PassedOn(a) + PassedOn(b)
  {
    if a == [] {
      assert a + b == b;
    } else {
      assert (a + b)[1..] == a[1..] + b;
      PassedOnAppend(a[1..], b);
    }
  }

  /** Values for pointers, each pointer at most once; pointers to nothing are left out. */
  function Collect<P>(ptrs: seq<Name>, seen: set<Name>, vals: map<Name, Record<P>>): seq<Record<P>> {
    if ptrs == [] then []
    else if ptrs[0] in seen then Collect(ptrs[1..], seen, vals)
    else
      (if ptrs[0] in vals then [vals[ptrs[0]]] else []) + Collect(ptrs[1..], seen + {ptrs[0]}, vals)
  }

  /** The table's values in pointer order. */
  ghost function Listed<P>(vals: map<Name, Record<P>>, ks: seq<Name>): seq<Record<P>>
    requires forall k :: k in ks ==> k in vals
  {
    if ks == [] then [] else [vals[ks[0]]] + Listed(vals, ks[1..])
  }

  /** All: the whole table for the empty key, and otherwise the values that the
      bucket named by the whole key leads to. */
  ghost function All<P>(st: State<P>, key: K): seq<Record<P>> {
    if key == [] then Listed(st.vals, Sorted(st.vals.Keys))
    else
      match Find(st.idxs, Path(key))
      case None => []
      case Some(b) => Collect(PassedOn(Scan([Waiting([], b)])), {}, st.vals)
  }

  /** The queue without the paths, as the program keeps it. */
  ghost function Trees(q: seq<Waiting>): (ts: seq<Tree>)
    ensures |ts| == |q|
  {
    seq(|q|, i requires 0 <= i < |q| => q[i].tree)
  }

  lemma {:induction false} LeavesSnoc(w: Waiting, ks: seq<Name>, k: Name)
    requires k in w.tree && forall x :: x in ks ==> x in w.tree
    ensures Leaves(w, ks + [k]) == Leaves(w, ks) + Leaves(w, [k])
    ensures Nested(w, ks + [k]) == Nested(w, ks) + Nested(w, [k])
    decreases |ks|
  {
    if ks == [] {
      assert ks + [k] == [k];
    } else {
      assert (ks + [k])[1..] == ks[1..] + [k];
      LeavesSnoc(w, ks[1..], k);
    }
  }

  /** What the scan passes on for one entry of a bucket, and what it queues. */
  function PassedHere(n: Node): seq<Name> {
    match n
    case Leaf(v) => Passed(v)
    case Bucket(_) => []
  }

  function QueuedHere(n: Node): seq<Tree> {
    match n
    case Leaf(_) => []
    case Bucket(sub) => [sub]
  }

  lemma LeavesOne(w: Waiting, k: Name)
    requires k in w.tree
    ensures PassedOn(Leaves(w, [k])) == PassedHere(w.tree[k])
    ensures Trees(Nested(w, [k])) == QueuedHere(w.tree[k])
  {
    hide IsPointer, IsDoc;
    assert [k][1..] == [];
    match w.tree[k]
    case Leaf(v) =>
      var f := Found(w.prefix + [k], v);
      assert Leaves(w, [k]) == [f] && [f][1..] == [];
      assert PassedOn([f]) == Passed(v) + [];
    case Bucket(sub) =>
      assert Nested(w, [k]) == [Waiting(w.prefix + [k], sub)];
      assert Leaves(w, [k]) == [];
  }

  lemma EntryStep(w: Waiting, ks: seq<Name>, i: nat)
    requires i < |ks| && forall x :: x in ks ==> x in w.tree
    ensures PassedOn(Leaves(w, ks[..i + 1])) == PassedOn(Leaves(w, ks[..i])) + PassedHere(w.tree[ks[i]])
    ensures Trees(Nested(w, ks[..i + 1])) == Trees(Nested(w, ks[..i])) + QueuedHere(w.tree[ks[i]])
  {
    hide Leaves, Nested, PassedOn, Trees, PassedHere, QueuedHere;
    assert ks[..i + 1] == ks[..i] + [ks[i]];
    LeavesSnoc(w, ks[..i], ks[i]);
    PassedOnAppend(Leaves(w, ks[..i]), Leaves(w, [ks[i]]));
    TreesAppend(Nested(w, ks[..i]), Nested(w, [ks[i]]));
    LeavesOne(w, ks[i]);
  }

  /** The cursor loop over one bucket. */
  method ScanBucket(c: Tree, cs0: seq<Tree>, ptrs0: seq<Name>, ghost w: Waiting) returns (cs: seq<Tree>, ptrs: seq<Name>)
    requires w.tree == c
    ensures ptrs == ptrs0 + PassedOn(Leaves(w, Sorted(c.Keys)))
    ensures cs == cs0 + Trees(Nested(w, Sorted(c.Keys)))
  {
    hide *;
    var ks := CursorKeys(c.Keys);
    cs, ptrs := cs0, ptrs0;
    NothingYet(w, cs, ptrs, ks);
    for i := 0 to |ks|
      invariant ptrs == ptrs0 + PassedOn(Leaves(w, ks[..i]))
      invariant cs == cs0 + Trees(Nested(w, ks[..i]))
    {
      EntryStep(w, ks, i);
      var n := c[ks[i]];
      if n.Bucket? {
        QueueBucket(n);
        cs := cs + [n.entries];
      } else {
        QueueBucket(n);
        ptrs := ptrs + Passed(n.ptr);
      }
    }
    assert ks[..|ks|] == ks;
  }

  lemma QueueBucket(n: Node)
    ensures n.Bucket? ==> QueuedHere(n) == [n.entries] && PassedHere(n) == []
    ensures n.Leaf? ==> QueuedHere(n) == [] && PassedHere(n) == Passed(n.ptr)
  {
  }

  lemma NothingYet(w: Waiting, cs: seq<Tree>, ptrs: seq<Name>, ks: seq<Name>)
    ensures ptrs == ptrs + PassedOn(Leaves(w, ks[..0])) && cs == cs + Trees(Nested(w, ks[..0]))
  {
  }

  lemma TreesAppend(a: seq<Waiting>, b: seq<Waiting>)
    ensures Trees(a + b) == Trees(a) + Trees(b)
  {
  }

  lemma ScanUnfold(q: seq<Waiting>)
    requires q != []
    ensures var ks := Sorted(q[0].tree.Keys); Scan(q) == Leaves(q[0], ks) + Scan(q[1..] + Nested(q[0], ks))
  {
    ScanStepWeight(q);
  }

  /** One turn of the queue loop. */
  lemma ScanTurn(q: seq<Waiting>, ptrs: seq<Name>)
    requires q != []
    ensures var ks := Sorted(q[0].tree.Keys);
      && QueueWeight(q[1..] + Nested(q[0], ks)) < QueueWeight(q)
      && ptrs + PassedOn(Scan(q)) == ptrs + PassedOn(Leaves(q[0], ks)) + PassedOn(Scan(q[1..] + Nested(q[0], ks)))
  {
    hide Scan, Sorted, Leaves, Nested, QueueWeight, PassedOn;
    var ks := Sorted(q[0].tree.Keys);
    ScanStepWeight(q);
    ScanUnfold(q);
    PassedOnAppend(Leaves(q[0], ks), Scan(q[1..] + Nested(q[0], ks)));
  }

  /** scanTxT over index buckets: a queue of buckets, each gone through in key order. */
  method ScanBuckets(m: Tree) returns (ptrs: seq<Name>)
    ensures ptrs == PassedOn(Scan([Waiting([], m)]))
  {
    ghost var q := [Waiting([], m)];
    var cs: seq<Tree> := [m];
    assert cs == Trees(q);
    hide Scan, PassedOn, Sorted, Leaves, Nested, QueueWeight;
    ptrs := [];
    ghost var all := PassedOn(Scan(q));
    while |cs| > 0
      invariant cs == Trees(q) && all == ptrs + PassedOn(Scan(q))
      decreases QueueWeight(q)
    {
      ScanTurn(q, ptrs);
      assert cs[1..] == Trees(q[1..]);
      TreesAppend(q[1..], Nested(q[0], Sorted(q[0].tree.Keys)));
      cs, ptrs := ScanBucket(cs[0], cs[1..], ptrs, q[0]);
      q := q[1..] + Nested(q[0], Sorted(q[0].tree.Keys));
    }
    assert q == [];
  }

  /** scanIndexedAll. */
  method ScanIndexedAll<P>(b: Tree, vals: map<Name, Record<P>>) returns (r: seq<Record<P>>)
    ensures r == Collect(PassedOn(Scan([Waiting([], b)])), {}, vals)
  {
    var ptrs := ScanBuckets(b);
    hide Scan, PassedOn;
    r := [];
    var seen: set<Name> := {};
    for i := 0 to |ptrs|
      invariant r + Collect(ptrs[i..], seen, vals) == Collect(ptrs, {}, vals)
    {
      assert ptrs[i..][1..] == ptrs[i + 1..];
      if ptrs[i] in seen {
        continue;
      }
      seen := seen + {ptrs[i]};
      if ptrs[i] in vals {
        assert r + ([vals[ptrs[i]]] + Collect(ptrs[i + 1..], seen, vals))
            == r + [vals[ptrs[i]]] + Collect(ptrs[i + 1..], seen, vals);
        r := r + [vals[ptrs[i]]];
      } else {
        assert [] + Collect(ptrs[i + 1..], seen, vals) == Collect(ptrs[i + 1..], seen, vals);
      }
    }
    assert ptrs[|ptrs|..] == [];
  }
}
