/** The order in which lookups return their values. */
module DbOrder {
  import opened Wrappers
  import opened Bytes
  import opened ByteOrder
  import opened DbKeys
  import opened DbBuckets
  import opened DbStore
  import opened DbRuns
  import opened DbScan
  import opened DbAll

  /** The first names in which two paths differ are in byte order. */
  predicate PathLess(p: seq<Name>, q: seq<Name>)
    requires |p| == |q|
  {
    p != [] && (Less(p[0], q[0]) || (p[0] == q[0] && PathLess(p[1..], q[1..])))
  }

  /** Shorter paths come first, and paths of one length in byte order. */
  predicate Earlier(p: seq<Name>, q: seq<Name>) {
    |p| < |q| || (|p| == |q| && PathLess(p, q))
  }

  lemma {:induction false} PathTransitive(p: seq<Name>, q: seq<Name>, r: seq<Name>)
    requires |p| == |q| == |r| && PathLess(p, q) && PathLess(q, r)
    ensures PathLess(p, r)
  {
    hide Less;
    if Less(p[0], q[0]) && Less(q[0], r[0]) {
      Transitive(p[0], q[0], r[0]);
    } else if p[0] == q[0] && q[0] == r[0] {
      PathTransitive(p[1..], q[1..], r[1..]);
    }
  }

  lemma EarlierTransitive(p: seq<Name>, q: seq<Name>, r: seq<Name>)
    requires Earlier(p, q) && Earlier(q, r)
    ensures Earlier(p, r)
  {
    hide PathLess;
    if |p| == |r| {
      PathTransitive(p, q, r);
    }
  }

  /** Paths ordered at their beginnings are ordered. */
  lemma {:induction false} PathExtends(p: seq<Name>, a: Name, q: seq<Name>, b: Name)
    requires |p| == |q| && (PathLess(p, q) || (p == q && Less(a, b)))
    ensures PathLess(p + [a], q + [b])
    decreases |p|
  {
    hide Less;
    if p != [] {
      assert (p + [a])[1..] == p[1..] + [a] && (q + [b])[1..] == q[1..] + [b];
      if !Less(p[0], q[0]) {
        PathExtends(p[1..], a, q[1..], b);
      }
    }
  }

  /** The waiting buckets are in order, on two neighbouring levels at most, and
      those on the lower level are nested in buckets that come before the first. */
  ghost predicate InOrder(q: seq<Waiting>) {
    && (forall i, j :: 0 <= i < j < |q| ==> Earlier(q[i].prefix, q[j].prefix))
    && (forall i :: 0 <= i < |q| ==> NextLevel(q[0].prefix, q[i].prefix))
  }

  predicate NextLevel(p: seq<Name>, q: seq<Name>) {
    |q| == |p| || (|q| == |p| + 1 && PathLess(q[..|p|], p))
  }

  lemma {:induction false} LeavesOrdered(w: Waiting, ks: seq<Name>)
    requires (forall k :: k in ks ==> k in w.tree) && (forall i, j :: 0 <= i < j < |ks| ==> Less(ks[i], ks[j]))
    ensures forall i, j :: 0 <= i < j < |Leaves(w, ks)| ==> Earlier(Leaves(w, ks)[i].path, Leaves(w, ks)[j].path)
    decreases |ks|
  {
    hide PathLess, Less;
    if ks != [] {
      var rest := Leaves(w, ks[1..]);
      LeavesOrdered(w, ks[1..]);
      if w.tree[ks[0]].Leaf? {
        forall j | 0 <= j < |rest| ensures Earlier(w.prefix + [ks[0]], rest[j].path) {
          LeavesAre(w, ks[1..], rest[j]);
          var k :| k in ks[1..] && w.tree[k] == Leaf(rest[j].ptr) && rest[j].path == w.prefix + [k];
          PathExtends(w.prefix, ks[0], w.prefix, k);
        }
      }
    }
  }

  lemma {:induction false} NestedOrdered(w: Waiting, ks: seq<Name>)
    requires (forall k :: k in ks ==> k in w.tree) && (forall i, j :: 0 <= i < j < |ks| ==> Less(ks[i], ks[j]))
    ensures forall i, j :: 0 <= i < j < |Nested(w, ks)| ==> Earlier(Nested(w, ks)[i].prefix, Nested(w, ks)[j].prefix)
    decreases |ks|
  {
    hide PathLess, Less;
    if ks != [] {
      var rest := Nested(w, ks[1..]);
      NestedOrdered(w, ks[1..]);
      if w.tree[ks[0]].Bucket? {
        forall j | 0 <= j < |rest| ensures Earlier(w.prefix + [ks[0]], rest[j].prefix) {
          NestedPrefixes(w, ks[1..], j);
          var k :| k in ks[1..] && rest[j].prefix == w.prefix + [k];
          PathExtends(w.prefix, ks[0], w.prefix, k);
        }
      }
    }
  }

  /** A bucket that waits behind the first one also comes before the buckets in the first one. */
  lemma BeforeNested(p: seq<Name>, q: seq<Name>, k: Name)
    requires NextLevel(p, q)
    ensures Earlier(q, p + [k])
  {
    if |q| == |p| + 1 {
      assert q == q[..|p|] + [q[|p|]];
      PathExtends(q[..|p|], q[|p|], p, k);
    }
  }

  lemma NextLevelStep(p: seq<Name>, first: seq<Name>, q: seq<Name>)
    requires NextLevel(p, first) && NextLevel(p, q) && Earlier(p, first) && (first == q || Earlier(first, q))
    ensures NextLevel(first, q)
  {
    hide PathLess;
    if |q| == |p| + 1 && |first| == |p| {
      PathTransitive(q[..|p|], p, first);
    }
  }

  lemma StepEarlier(q: seq<Waiting>, ks: seq<Name>)
    requires q != [] && InOrder(q) && (forall k :: k in ks ==> k in q[0].tree)
    requires forall i, j :: 0 <= i < j < |ks| ==> Less(ks[i], ks[j])
    ensures var next := q[1..] + Nested(q[0], ks);
      forall i, j :: 0 <= i < j < |next| ==> Earlier(next[i].prefix, next[j].prefix)
  {
    var w, tail, kids := q[0], q[1..], Nested(q[0], ks);
    var next := tail + kids;
    NestedOrdered(w, ks);
    hide PathLess, Less, Nested, Earlier, NextLevel;
    forall i, j | 0 <= i < j < |next| ensures Earlier(next[i].prefix, next[j].prefix) {
      if i < |tail| <= j {
        assert next[i] == q[i + 1];
        NestedPrefixes(w, ks, j - |tail|);
        var k :| k in ks && kids[j - |tail|].prefix == w.prefix + [k];
        BeforeNested(w.prefix, q[i + 1].prefix, k);
      } else if j < |tail| {
        assert next[i] == q[i + 1] && next[j] == q[j + 1];
      }
    }
  }

  lemma StepLevel(q: seq<Waiting>, ks: seq<Name>, i: nat)
    requires q != [] && InOrder(q) && (forall k :: k in ks ==> k in q[0].tree)
    requires i < |q[1..] + Nested(q[0], ks)|
    ensures var next := q[1..] + Nested(q[0], ks); NextLevel(next[0].prefix, next[i].prefix)
  {
    var w, tail, kids := q[0], q[1..], Nested(q[0], ks);
    var next := tail + kids;
    hide PathLess, Less, Nested, Earlier, NextLevel;
    if i < |tail| {
      assert next[0] == q[1] && next[i] == q[i + 1];
      NextLevelStep(w.prefix, q[1].prefix, q[i + 1].prefix);
    } else {
      NestedPrefixes(w, ks, i - |tail|);
      var k :| k in ks && kids[i - |tail|].prefix == w.prefix + [k];
      if tail == [] {
        NestedPrefixes(w, ks, 0);
        var k0 :| k0 in ks && kids[0].prefix == w.prefix + [k0];
        SameLevel(w.prefix + [k0], w.prefix + [k]);
      } else {
        assert next[0] == q[1];
        KidLevel(w.prefix, q[1].prefix, k);
      }
    }
  }

  /** Scanning the first bucket keeps the waiting ones in order. */
  lemma StepInOrder(q: seq<Waiting>, ks: seq<Name>)
    requires q != [] && InOrder(q) && (forall k :: k in ks ==> k in q[0].tree)
    requires forall i, j :: 0 <= i < j < |ks| ==> Less(ks[i], ks[j])
    ensures InOrder(q[1..] + Nested(q[0], ks))
  {
    StepEarlier(q, ks);
    hide PathLess, Less, Nested, Earlier, NextLevel;
    var next := q[1..] + Nested(q[0], ks);
    forall i | 0 <= i < |next| ensures NextLevel(next[0].prefix, next[i].prefix) {
      StepLevel(q, ks, i);
    }
  }

  lemma SameLevel(p: seq<Name>, q: seq<Name>)
    requires |p| == |q|
    ensures NextLevel(p, q)
  {
  }

  lemma KidLevel(p: seq<Name>, first: seq<Name>, k: Name)
    requires NextLevel(p, first) && Earlier(p, first)
    ensures NextLevel(first, p + [k])
  {
    assert (p + [k])[..|p|] == p;
  }

  /** Whatever lies below a waiting bucket comes after the values directly in the first one. */
  lemma LeafBeforeBelow(q: seq<Waiting>, k: Name, i: nat, f: Found)
    requires InOrder(q) && 0 < i < |q| && Below(q[i], f)
    ensures Earlier(q[0].prefix + [k], f.path)
  {
    var p, w := q[0].prefix, q[i];
    hide LeafAt, Less;
    assert NextLevel(p, w.prefix) && Earlier(p, w.prefix);
    if |f.path| == |p| + 1 {
      assert f.path == w.prefix + [f.path[|p|]];
      PathExtends(p, k, w.prefix, f.path[|p|]);
    }
  }

  lemma LeafBeforeLater(q: seq<Waiting>, ks: seq<Name>, f: Found, g: Found)
    requires q != [] && InOrder(q) && (forall k :: k in ks ==> k in q[0].tree)
    requires f in Leaves(q[0], ks) && Reachable(q[1..] + Nested(q[0], ks), g)
    ensures Earlier(f.path, g.path)
  {
    var w := q[0];
    LeavesAre(w, ks, f);
    var k :| k in ks && w.tree[k] == Leaf(f.ptr) && f.path == w.prefix + [k];
    hide LeafAt, Leaves, PathLess, InOrder;
    ReachableAppend(q[1..], Nested(w, ks), g);
    if Reachable(q[1..], g) {
      var i :| 0 <= i < |q[1..]| && Below(q[1..][i], g);
      LeafBeforeBelow(q, k, i + 1, g);
    } else {
      var i :| 0 <= i < |Nested(w, ks)| && Below(Nested(w, ks)[i], g);
      NestedPrefixes(w, ks, i);
    }
  }

  ghost predicate Ordered(fs: seq<Found>) {
    forall i, j :: 0 <= i < j < |fs| ==> Earlier(fs[i].path, fs[j].path)
  }

  lemma OrderedConcat(a: seq<Found>, b: seq<Found>)
    requires Ordered(a) && Ordered(b) && forall f, g :: f in a && g in b ==> Earlier(f.path, g.path)
    ensures Ordered(a + b)
  {
    hide Earlier;
    forall i, j | 0 <= i < j < |a + b| ensures Earlier((a + b)[i].path, (a + b)[j].path) {
      if i < |a| <= j {
        assert a[i] in a && b[j - |a|] in b;
      }
    }
  }

  /** The scan visits values level by level, and on each level in byte order of their paths. */
  lemma {:induction false} ScanOrdered(q: seq<Waiting>)
    requires InOrder(q)
    ensures Ordered(Scan(q))
    decreases QueueWeight(q)
  {
    if q == [] {
    } else {
      hide InOrder, Earlier, Leaves, Nested, Less, Reachable;
      var ks := Sorted(q[0].tree.Keys);
      var next := q[1..] + Nested(q[0], ks);
      ScanStepWeight(q);
      StepInOrder(q, ks);
      ScanOrdered(next);
      LeavesOrdered(q[0], ks);
      forall f, g | f in Leaves(q[0], ks) && g in Scan(next) ensures Earlier(f.path, g.path) {
        ScanFinds(next, g);
        LeafBeforeLater(q, ks, f, g);
      }
      OrderedConcat(Leaves(q[0], ks), Scan(next));
    }
  }

  lemma OneInOrder(m: Tree)
    ensures InOrder([Waiting([], m)])
  {
  }

  lemma CollectedUnseen<P(!new)>(ptrs: seq<Name>, seen: set<Name>, vals: map<Name, Record<P>>, i: nat)
    requires OwnPointers(vals) && i < |Collect(ptrs, seen, vals)|
    ensures PtrOf(Collect(ptrs, seen, vals)[i]) !in seen
  {
    hide PtrOf, Collect;
    CollectIs(ptrs, seen, vals, Collect(ptrs, seen, vals)[i]);
  }

  /** Of two values that are collected, the first pointer to the one comes
      before all pointers to the other. */
  lemma {:induction false} CollectOrdered<P(!new)>(ptrs: seq<Name>, seen: set<Name>, vals: map<Name, Record<P>>, i: nat, j: nat)
                                                   returns (a: nat)
    requires OwnPointers(vals) && i < j < |Collect(ptrs, seen, vals)|
    ensures a < |ptrs| && ptrs[a] == PtrOf(Collect(ptrs, seen, vals)[i])
    ensures forall b :: 0 <= b < |ptrs| && ptrs[b] == PtrOf(Collect(ptrs, seen, vals)[j]) ==> a < b
    decreases |ptrs|
  {
    hide PtrOf;
    CollectedUnseen(ptrs, seen, vals, j);
    var a': nat := 0;
    if ptrs[0] in seen {
      a' := CollectOrdered(ptrs[1..], seen, vals, i, j);
      a := a' + 1;
    } else if ptrs[0] !in vals {
      a' := CollectOrdered(ptrs[1..], seen + {ptrs[0]}, vals, i, j);
      CollectedUnseen(ptrs[1..], seen + {ptrs[0]}, vals, j);
      a := a' + 1;
    } else {
      CollectedUnseen(ptrs[1..], seen + {ptrs[0]}, vals, j - 1);
      if i == 0 {
        a := 0;
      } else {
        a' := CollectOrdered(ptrs[1..], seen + {ptrs[0]}, vals, i - 1, j - 1);
        a := a' + 1;
      }
    }
    assert forall b :: 0 < b < |ptrs| ==> ptrs[b] == ptrs[1..][b - 1];
  }

  lemma {:induction false} PassedOnAt(fs: seq<Found>)
    requires forall f :: f in fs ==> IsPointer(f.ptr)
    ensures |PassedOn(fs)| == |fs| && forall i :: 0 <= i < |fs| ==> PassedOn(fs)[i] == fs[i].ptr
  {
    hide IsPointer, IsDoc;
    if fs != [] {
      assert fs[0] in fs;
      PassedOnAt(fs[1..]);
    }
  }

  /** In what All returns, a value comes before another one if its first entry
      below the key does: entries with fewer names first, and entries with as
      many names in byte order. */
  lemma AllInOrder<P(!new)>(st: State<P>, key: K, i: nat, j: nat) returns (path: seq<Name>)
    requires Sound(st) && key != [] && i < j < |All(st, key)|
    ensures path != [] && LeafAt(st.idxs, Path(key) + path) == Some(PtrOf(All(st, key)[i]))
    ensures forall other: seq<Name> ::
      other != [] && LeafAt(st.idxs, Path(key) + other) == Some(PtrOf(All(st, key)[j])) ==> Earlier(path, other)
  {
    hide LeafAt, Find, Scan, Collect, PassedOn, PtrOf, IsPointer, Earlier, InKeys, Path, Sound;
    var b := Find(st.idxs, Path(key)).value;
    var fs := Scan([Waiting([], b)]);
    forall f | f in fs ensures IsPointer(f.ptr) && f.path != [] && LeafAt(st.idxs, Path(key) + f.path) == Some(f.ptr) {
      ScanPathNonempty(b, f);
      ScanExactlyOnce(b, f.path, f.ptr);
      BucketHoldsPointers(st, Path(key), f.path);
    }
    PassedOnAt(fs);
    OwnPointersOf(st);
    var a := CollectOrdered(PassedOn(fs), {}, st.vals, i, j);
    path := fs[a].path;
    OneInOrder(b);
    ScanOrdered([Waiting([], b)]);
    forall other: seq<Name> | other != [] && LeafAt(st.idxs, Path(key) + other) == Some(PtrOf(All(st, key)[j]))
      ensures Earlier(path, other)
    {
      BucketHoldsPointers(st, Path(key), other);
      var g := Found(other, PtrOf(All(st, key)[j]));
      ScanExactlyOnce(b, other, g.ptr);
      assert g in fs;
      var c :| 0 <= c < |fs| && fs[c] == g;
      assert PassedOn(fs)[c] == g.ptr;
    }
  }

  lemma OwnPointersOf<P(!new)>(st: State<P>)
    requires Sound(st)
    ensures OwnPointers(st.vals)
  {
    hide LeafAt, InKeys, HasBucket, PtrOf;
  }

  lemma {:induction false} ListedInOrder<P>(vals: map<Name, Record<P>>, ks: seq<Name>, i: nat)
    requires (forall k :: k in ks ==> k in vals) && OwnPointers(vals)
    ensures |Listed(vals, ks)| == |ks|
    ensures i < |ks| ==> PtrOf(Listed(vals, ks)[i]) == ks[i]
    decreases |ks|
  {
    hide PtrOf;
    if ks != [] {
      ListedInOrder(vals, ks[1..], if i == 0 then 0 else i - 1);
    }
  }

  /** All of the empty key returns the values in the order of their ids. */
  lemma AllById<P(!new)>(st: State<P>, i: nat, j: nat)
    requires Sound(st) && i < j < |All(st, [])|
    ensures Less(All(st, [])[i].id, All(st, [])[j].id)
  {
    hide Less, LeafAt, Find;
    var ks := Sorted(st.vals.Keys);
    OwnPointersOf(st);
    ListedInOrder(st.vals, ks, i);
    ListedInOrder(st.vals, ks, j);
    var (v, w) := (All(st, [])[i], All(st, [])[j]);
    PointerOf(v);
    PointerOf(w);
    SamePrefix(ID_NAME + [USEP], v.id, w.id);
  }

  lemma PointerOf<P>(v: Record<P>)
    ensures PtrOf(v) == ID_NAME + [USEP] + v.id
  {
  }
}
