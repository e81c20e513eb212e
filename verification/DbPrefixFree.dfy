/** Index keys of which none extends another: then no operation ever fails on the index. */
module DbPrefixFree {
  import opened Wrappers
  import opened Bytes
  import opened ByteOrder
  import opened DbKeys
  import opened DbBuckets
  import opened DbStore
  import opened DbRuns

  type Paths = iset<seq<Name>>

  /** Storing at the end of a path works exactly when no name is empty, no value
      stands on the way and no bucket stands at the end. */
  lemma {:induction false} PutLeafIff(m: Tree, path: seq<Name>, ptr: Name)
    requires path != []
    ensures PutLeaf(m, path, ptr).Some? <==>
      (forall i :: 0 <= i < |path| ==> path[i] != [] && (i > 0 ==> LeafAt(m, path[..i]) == None)) && Find(m, path) == None
    decreases |path|
  {
    var k, rest := path[0], path[1..];
    if |path| > 1 {
      var sub := if k in m && m[k].Bucket? then m[k].entries else map[];
      PutLeafIff(sub, rest, ptr);
      assert LeafAt(m, path[..1]) == if k in m && m[k].Leaf? then Some(m[k].ptr) else None;
      forall i | 0 < i < |rest| ensures k in m && m[k].Bucket? ==> LeafAt(m, path[..i + 1]) == LeafAt(sub, rest[..i]) {
        assert path[..i + 1][0] == k && path[..i + 1][1..] == rest[..i];
      }
      if k !in m {
        NothingInEmpty(rest);
      }
      OnTheWay(m, path);
    } else {
      assert path == [k];
    }
  }

  /** The conditions on a path, seen from its second name. */
  lemma OnTheWay(m: Tree, path: seq<Name>)
    requires |path| > 1
    ensures (forall i :: 0 <= i < |path| ==> path[i] != [] && (i > 0 ==> LeafAt(m, path[..i]) == None)) <==>
      path[0] != [] && LeafAt(m, path[..1]) == None
      && (forall i :: 0 <= i < |path[1..]| ==> path[1..][i] != [] && (i > 0 ==> LeafAt(m, path[..i + 1]) == None))
  {
    hide LeafAt;
    var rest := path[1..];
    if path[0] != [] && LeafAt(m, path[..1]) == None
       && (forall i :: 0 <= i < |rest| ==> rest[i] != [] && (i > 0 ==> LeafAt(m, path[..i + 1]) == None)) {
      forall i | 0 <= i < |path| ensures path[i] != [] && (i > 0 ==> LeafAt(m, path[..i]) == None) {
        if i > 0 {
          var j := i - 1;
          assert rest[j] == path[i] && (j > 0 ==> LeafAt(m, path[..j + 1]) == None);
        }
      }
    }
    if forall i :: 0 <= i < |path| ==> path[i] != [] && (i > 0 ==> LeafAt(m, path[..i]) == None) {
      forall i | 0 <= i < |rest| ensures rest[i] != [] && (i > 0 ==> LeafAt(m, path[..i + 1]) == None) {
        var j := i + 1;
        assert rest[i] == path[j] && LeafAt(m, path[..j]) == None;
      }
    }
  }

  lemma NothingInEmpty(path: seq<Name>)
    requires path != []
    ensures Find(map[], path) == None && forall q: seq<Name> :: q != [] ==> LeafAt(map[], q) == None
  {
  }

  /** All values are stored at the given paths, and all buckets are on the way to them. */
  ghost predicate Fits(m: Tree, u: Paths) {
    && (forall p: seq<Name> :: p != [] && LeafAt(m, p).Some? ==> p in u)
    && (forall e: seq<Name> :: e != [] && Find(m, e).Some? ==> exists p :: p in u && e < p)
  }

  ghost predicate PrefixFree(u: Paths) {
    forall p, q :: p in u && q in u ==> !(p < q)
  }

  /** The bytes of an element are never empty. */
  lemma PathNames(k: K, i: nat)
    requires i < |k|
    ensures Path(k)[i] != []
  {
  }

  lemma PutFits(m: Tree, u: Paths, k: K, ptr: Name)
    requires Fits(m, u) && PrefixFree(u) && k != [] && Path(k) in u
    ensures PutLeaf(m, Path(k), ptr).Some? && Fits(PutLeaf(m, Path(k), ptr).value, u)
  {
    hide PutLeaf, LeafAt, Find, Path;
    var p := Path(k);
    forall i | 0 <= i < |p| ensures p[i] != [] && (i > 0 ==> LeafAt(m, p[..i]) == None) {
      PathNames(k, i);
      if i > 0 {
        assert p[..i] < p;
      }
    }
    PutLeafIff(m, p, ptr);
    var m' := PutLeaf(m, p, ptr).value;
    forall q: seq<Name> | q != [] && LeafAt(m', q).Some? ensures q in u {
      PutLeafAt(m, p, ptr, q);
    }
    forall e: seq<Name> | e != [] && Find(m', e).Some? ensures exists q :: q in u && e < q {
      BucketsAfterPut(m, p, ptr, e);
      if e < p {
        assert p in u;
      }
    }
  }

  lemma {:induction false} BucketsAfterPut(m: Tree, path: seq<Name>, ptr: Name, e: seq<Name>)
    requires path != [] && e != [] && PutLeaf(m, path, ptr).Some? && Find(PutLeaf(m, path, ptr).value, e).Some?
    ensures Find(m, e).Some? || e < path
    decreases |path|
  {
    var k := path[0];
    if |path| > 1 && e[0] == k {
      var sub := if k in m then m[k].entries else map[];
      assert path == [k] + path[1..] && e == [k] + e[1..];
      if |e| > 1 {
        BucketsAfterPut(sub, path[1..], ptr, e[1..]);
        NothingInEmpty(e[1..]);
      }
    }
  }

  lemma {:induction false} FindLonger(m: Tree, elems: seq<Name>, last: Name)
    requires Find(m, elems).Some?
    ensures Find(m, elems + [last]).Some? <==> last in Find(m, elems).value && Find(m, elems).value[last].Bucket?
    decreases |elems|
  {
    if elems == [] {
      assert elems + [last] == [last];
    } else {
      assert (elems + [last])[1..] == elems[1..] + [last];
      FindLonger(m[elems[0]].entries, elems[1..], last);
    }
  }

  lemma DelFits(m: Tree, u: Paths, p: seq<Name>)
    requires Fits(m, u) && PrefixFree(u) && p != [] && p in u && Find(m, p[..|p| - 1]).Some?
    ensures DelLeaf(m, p).Some? && Fits(DelLeaf(m, p).value, u)
  {
    hide LeafAt, Find, SetBucket;
    var elems, last := p[..|p| - 1], p[|p| - 1];
    assert p == elems + [last];
    FindLonger(m, elems, last);
    var m' := DelLeaf(m, p).value;
    forall q: seq<Name> | q != [] && LeafAt(m', q).Some? ensures q in u {
      DelLeafAt(m, p, q);
    }
    forall e: seq<Name> | e != [] && Find(m', e).Some? ensures exists q :: q in u && e < q {
      BucketsAfterSet(m, elems, Find(m, elems).value - {last}, e);
    }
  }

  /** All keys are non-empty and of the given paths. */
  ghost predicate KeysFrom(keys: seq<K>, u: Paths) {
    forall j :: 0 <= j < |keys| ==> keys[j] != [] && Path(keys[j]) in u
  }

  lemma {:induction false} PutIndexFits(m: Tree, u: Paths, keys: seq<K>, ptr: Name)
    requires Fits(m, u) && PrefixFree(u) && KeysFrom(keys, u)
    ensures PutIndex(m, keys, ptr).Some? && Fits(PutIndex(m, keys, ptr).value, u)
    decreases |keys|
  {
    hide Fits, PrefixFree, Path, PutLeaf;
    if keys != [] {
      PutFits(m, u, keys[0], ptr);
      PutIndexFits(PutLeaf(m, Path(keys[0]), ptr).value, u, keys[1..], ptr);
    }
  }

  lemma {:induction false} DelIndexFits(m: Tree, u: Paths, keys: seq<K>)
    requires Fits(m, u) && PrefixFree(u) && KeysFrom(keys, u)
    ensures DelIndex(m, keys).Some? && Fits(DelIndex(m, keys).value, u)
    decreases |keys|
  {
    hide Fits, PrefixFree, Path, DelLeaf, Find;
    if keys != [] {
      var p := Path(keys[0]);
      if Find(m, p[..|p| - 1]).Some? {
        DelFits(m, u, p);
        DelIndexFits(DelLeaf(m, p).value, u, keys[1..]);
      }
    }
  }

  /** A store whose index and values keep to the given paths. */
  ghost predicate Keeps<P(!new)>(st: State<P>, u: Paths) {
    Fits(st.idxs, u) && forall ptr :: ptr in st.vals ==> KeysFrom(st.vals[ptr].keys, u)
  }

  lemma PutTxFits<P(!new)>(st: State<P>, u: Paths, v: Record<P>)
    requires Keeps(st, u) && PrefixFree(u) && KeysFrom(v.keys, u)
    ensures PutTx(st, v).Some? && Keeps(PutTx(st, v).value, u)
  {
    hide Fits, PrefixFree, KeysFrom, PutIndex, DelIndex, PtrOf;
    var ptr := PtrOf(v);
    if ptr in st.vals {
      DelIndexFits(st.idxs, u, st.vals[ptr].keys);
      PutIndexFits(DelIndex(st.idxs, st.vals[ptr].keys).value, u, v.keys, ptr);
    } else {
      PutIndexFits(st.idxs, u, v.keys, ptr);
    }
  }

  lemma {:induction false} PutAllFits<P(!new)>(st: State<P>, u: Paths, vs: seq<Record<P>>)
    requires Keeps(st, u) && PrefixFree(u) && forall j :: 0 <= j < |vs| ==> KeysFrom(vs[j].keys, u)
    ensures PutAll(st, vs).Some? && Keeps(PutAll(st, vs).value, u)
    decreases |vs|
  {
    hide Keeps, PrefixFree, KeysFrom, PutTx;
    if vs != [] {
      PutTxFits(st, u, vs[0]);
      PutAllFits(PutTx(st, vs[0]).value, u, vs[1..]);
    }
  }

  ghost predicate OpFrom<P(!new)>(op: Op<P>, u: Paths) {
    match op
    case DoPut(v) => KeysFrom(v.keys, u)
    case DoBatch(vs) => forall j :: 0 <= j < |vs| ==> KeysFrom(vs[j].keys, u)
    case DoDel(v) => KeysFrom(v.keys, u)
  }

  /** The checks an operation makes before it touches the store. */
  predicate Checked<P>(op: Op<P>) {
    match op
    case DoPut(v) => ValidKeys(v.keys) && |v.id| == 12
    case DoBatch(vs) => forall j :: 0 <= j < |vs| ==> ValidKeys(vs[j].keys) && Storable(vs[j])
    case DoDel(v) => ValidKeys(v.keys)
  }

  predicate Succeeds<P>(st: State<P>, op: Op<P>) {
    match op
    case DoPut(v) => Put(st, v).Some?
    case DoBatch(vs) => BatchPut(st, vs).Some?
    case DoDel(v) => Del(st, v).Some?
  }

  /** With keys none of which extends another, an operation fails only by its checks. */
  lemma SucceedsIff<P(!new)>(st: State<P>, u: Paths, op: Op<P>)
    requires Keeps(st, u) && PrefixFree(u) && OpFrom(op, u)
    ensures Succeeds(st, op) <==> Checked(op)
    ensures Keeps(Apply(st, op), u)
  {
    hide Fits, PrefixFree, KeysFrom, PutTx, PutAll, DelIndex, ValidKeys, PtrOf;
    match op
    case DoPut(v) => PutTxFits(st, u, v);
    case DoBatch(vs) => PutAllFits(st, u, vs);
    case DoDel(v) => DelIndexFits(st.idxs, u, v.keys);
  }

  lemma {:induction false} RunKeeps<P(!new)>(st: State<P>, u: Paths, ops: seq<Op<P>>)
    requires Keeps(st, u) && PrefixFree(u) && forall j :: 0 <= j < |ops| ==> OpFrom(ops[j], u)
    ensures Keeps(Run(st, ops), u)
    decreases |ops|
  {
    hide Keeps, PrefixFree, OpFrom, Apply;
    if ops != [] {
      SucceedsIff(st, u, ops[0]);
      RunKeeps(Apply(st, ops[0]), u, ops[1..]);
    }
  }

  /** Over every run from an empty store: each operation succeeds just when its checks pass. */
  lemma RunNeverFails<P(!new)>(u: Paths, ops: seq<Op<P>>, i: nat)
    requires PrefixFree(u) && i < |ops| && forall j :: 0 <= j < |ops| ==> OpFrom(ops[j], u)
    ensures Succeeds(Run(Empty<P>(), ops[..i]), ops[i]) <==> Checked(ops[i])
  {
    hide Succeeds, Checked, PrefixFree, OpFrom, Run;
    RunKeeps(Empty<P>(), u, ops[..i]);
    SucceedsIff(Run(Empty<P>(), ops[..i]), u, ops[i]);
  }

  /** A key that extends another one of the same value makes every put fail. */
  lemma ExtendedKeyFails<P(!new)>(st: State<P>, id: Name, k: K, e: Elem, body: P, omitsId: bool)
    requires k != [] && Pointer(id) !in st.vals
    ensures Put(st, Record(id, [k, k + [e]], body, omitsId)) == None
  {
    var keys := [k, k + [e]];
    var ptr := Pointer(id);
    hide Pointer, ValidKeys, Find;
    assert keys[1..] == [k + [e]];
    hide Path, LeafAt, PutLeaf;
    if PutLeaf(st.idxs, Path(k), ptr).Some? {
      var m := PutLeaf(st.idxs, Path(k), ptr).value;
      PutLeafAt(st.idxs, Path(k), ptr, Path(k));
      PathExtends(k, e);
      PutLeafIff(m, Path(k + [e]), ptr);
      assert LeafAt(m, Path(k + [e])[..|k|]).Some?;
      PutIndexTwo(m, k + [e], ptr);
    }
  }

  lemma PathExtends(k: K, e: Elem)
    ensures |Path(k + [e])| == |k| + 1 && Path(k + [e])[..|k|] == Path(k)
  {
  }

  lemma PutIndexTwo(m: Tree, k: K, ptr: Name)
    requires k != [] && PutLeaf(m, Path(k), ptr) == None
    ensures PutIndex(m, [k], ptr) == None
  {
    hide PutLeaf, Path;
  }
}
