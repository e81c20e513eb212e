/** Prefix lookups agree with a linear scan of the value table. */
module DbAll {
  import opened Wrappers
  import opened Bytes
  import opened ByteOrder
  import opened DbKeys
  import opened DbBuckets
  import opened DbStore
  import opened DbRuns
  import opened DbScan

  /** v is listed under a key that strictly extends the given one. */
  ghost predicate ListedUnder<P>(v: Record<P>, key: K) {
    exists j :: 0 <= j < |v.keys| && Path(key) < Path(v.keys[j])
  }

  /** Every pointer of the collection is collected once, in the order of its first occurrence. */
  lemma {:induction false} CollectIs<P(!new)>(ptrs: seq<Name>, seen: set<Name>, vals: map<Name, Record<P>>, v: Record<P>)
    ensures v in Collect(ptrs, seen, vals) <==> exists p :: p in ptrs && p !in seen && p in vals && vals[p] == v
    decreases |ptrs|
  {
    if ptrs != [] {
      assert forall p :: p in ptrs <==> p == ptrs[0] || p in ptrs[1..];
      if ptrs[0] in seen {
        CollectIs(ptrs[1..], seen, vals, v);
      } else {
        CollectIs(ptrs[1..], seen + {ptrs[0]}, vals, v);
      }
    }
  }

  /** Values under their own pointers. */
  predicate OwnPointers<P(==)>(vals: map<Name, Record<P>>) {
    forall p :: p in vals ==> p == PtrOf(vals[p])
  }

  ghost predicate DistinctIds<P(!new)>(vs: seq<Record<P>>) {
    forall i, j :: 0 <= i < j < |vs| ==> vs[i].id != vs[j].id
  }

  lemma {:induction false} CollectDistinct<P(!new)>(ptrs: seq<Name>, seen: set<Name>, vals: map<Name, Record<P>>)
    requires OwnPointers(vals)
    ensures DistinctIds(Collect(ptrs, seen, vals))
    decreases |ptrs|
  {
    if ptrs != [] {
      if ptrs[0] in seen {
        CollectDistinct(ptrs[1..], seen, vals);
      } else {
        var rest := Collect(ptrs[1..], seen + {ptrs[0]}, vals);
        CollectDistinct(ptrs[1..], seen + {ptrs[0]}, vals);
        if ptrs[0] in vals {
          forall v | v in rest ensures v.id != vals[ptrs[0]].id {
            CollectIs(ptrs[1..], seen + {ptrs[0]}, vals, v);
          }
        }
      }
    }
  }

  lemma {:induction false} PassedOnAll(fs: seq<Found>, p: Name)
    requires forall f :: f in fs ==> IsPointer(f.ptr)
    ensures p in PassedOn(fs) <==> exists f :: f in fs && f.ptr == p
    decreases |fs|
  {
    hide IsPointer, IsDoc;
    if fs != [] {
      assert fs[0] in fs;
      PassedOnAll(fs[1..], p);
      assert forall f :: f in fs <==> f == fs[0] || f in fs[1..];
    }
  }

  /** Below a bucket of a sound index there are only pointers to live values. */
  lemma BucketHoldsPointers<P(!new)>(st: State<P>, elems: seq<Name>, path: seq<Name>)
    requires Sound(st) && Find(st.idxs, elems).Some? && path != []
    ensures var b := Find(st.idxs, elems).value;
      && LeafAt(b, path) == LeafAt(st.idxs, elems + path)
      && (LeafAt(b, path).Some? ==> LeafAt(b, path).value in st.vals && IsPointer(LeafAt(b, path).value)
                                    && Lists(st.vals[LeafAt(b, path).value], elems + path))
  {
    hide LeafAt, IsPointer, InKeys, Find, Pointer;
    LeafBelow(st.idxs, elems, elems + path);
    assert (elems + path)[|elems|..] == path;
    if LeafAt(st.idxs, elems + path).Some? {
      PointerIsPointer(st.vals[LeafAt(st.idxs, elems + path).value].id);
    }
  }

  /** The bucket above a listed key exists. */
  lemma {:induction false} FindPrefix(m: Tree, elems: seq<Name>, more: seq<Name>)
    requires Find(m, elems + more).Some?
    ensures Find(m, elems).Some?
    decreases |elems|
  {
    if elems != [] {
      assert (elems + more)[1..] == elems[1..] + more;
      FindPrefix(m[elems[0]].entries, elems[1..], more);
    }
  }

  lemma BucketOfListed<P(!new)>(st: State<P>, key: K, v: Record<P>)
    requires Sound(st) && PtrOf(v) in st.vals && st.vals[PtrOf(v)] == v && ListedUnder(v, key)
    ensures Find(st.idxs, Path(key)).Some?
  {
    var j :| 0 <= j < |v.keys| && Path(key) < Path(v.keys[j]);
    hide Find, Path;
    assert HasBucket(st.idxs, v.keys[j]);
    var full := Path(v.keys[j]);
    var more := full[|Path(key)|..|full| - 1];
    UpTo(Path(key), full);
    FindPrefix(st.idxs, Path(key), more);
  }

  /** All but the last name of a longer path. */
  lemma UpTo(p: seq<Name>, full: seq<Name>)
    requires p < full
    ensures full[..|full| - 1] == p + full[|p|..|full| - 1]
  {
  }

  /** Below a bucket of a sound index the scan passes on what the entries there point to. */
  lemma ScanPassesEntries<P(!new)>(st: State<P>, elems: seq<Name>, p: Name)
    requires Sound(st) && Find(st.idxs, elems).Some?
    ensures p in PassedOn(Scan([Waiting([], Find(st.idxs, elems).value)])) <==>
      exists path: seq<Name> :: path != [] && LeafAt(st.idxs, elems + path) == Some(p)
  {
    hide LeafAt, Find, Scan, IsPointer, InKeys, Sound;
    var b := Find(st.idxs, elems).value;
    var fs := Scan([Waiting([], b)]);
    forall f | f in fs ensures f.path != [] && LeafAt(st.idxs, elems + f.path) == Some(f.ptr) && IsPointer(f.ptr) {
      ScanPathNonempty(b, f);
      ScanExactlyOnce(b, f.path, f.ptr);
      BucketHoldsPointers(st, elems, f.path);
    }
    PassedOnAll(fs, p);
    if path: seq<Name> :| path != [] && LeafAt(st.idxs, elems + path) == Some(p) {
      BucketHoldsPointers(st, elems, path);
      ScanExactlyOnce(b, path, p);
      assert Found(path, p) in fs;
    }
  }

  /** The pointers the scan passes on are those of the values listed under the key. */
  lemma ScanPasses<P(!new)>(st: State<P>, key: K, p: Name)
    requires Sound(st) && Exact(st) && Find(st.idxs, Path(key)).Some?
    ensures p in PassedOn(Scan([Waiting([], Find(st.idxs, Path(key)).value)])) <==>
      p in st.vals && ListedUnder(st.vals[p], key)
  {
    hide LeafAt, Find, Scan, PassedOn, InKeys, Path;
    var elems := Path(key);
    ScanPassesEntries(st, elems, p);
    if path: seq<Name> :| path != [] && LeafAt(st.idxs, elems + path) == Some(p) {
      InKeysHas(st.vals[p].keys, elems + path);
    }
    if p in st.vals && ListedUnder(st.vals[p], key) {
      var j :| 0 <= j < |st.vals[p].keys| && elems < Path(st.vals[p].keys[j]);
      var full := Path(st.vals[p].keys[j]);
      assert full == elems + full[|elems|..];
    }
  }

  /** Soundness alone: whatever an entry below the key points to is returned. */
  lemma AllHasEntries<P(!new)>(st: State<P>, key: K, path: seq<Name>)
    requires Sound(st) && key != [] && Find(st.idxs, Path(key)).Some?
    requires path != [] && LeafAt(st.idxs, Path(key) + path).Some?
    ensures var p := LeafAt(st.idxs, Path(key) + path).value; p in st.vals && st.vals[p] in All(st, key)
  {
    hide LeafAt, Find, Scan, Collect, PassedOn, InKeys, Path;
    var p := LeafAt(st.idxs, Path(key) + path).value;
    ScanPassesEntries(st, Path(key), p);
    CollectIs(PassedOn(Scan([Waiting([], Find(st.idxs, Path(key)).value)])), {}, st.vals, st.vals[p]);
  }

  /** Soundness alone: what is returned is live and listed under the key. */
  lemma AllIsListed<P(!new)>(st: State<P>, key: K, v: Record<P>)
    requires Sound(st) && key != [] && v in All(st, key)
    ensures PtrOf(v) in st.vals && st.vals[PtrOf(v)] == v && ListedUnder(v, key)
  {
    hide LeafAt, Find, Scan, Collect, PassedOn, InKeys, Path, PtrOf;
    var ptrs := PassedOn(Scan([Waiting([], Find(st.idxs, Path(key)).value)]));
    CollectIs(ptrs, {}, st.vals, v);
    var p :| p in ptrs && p in st.vals && st.vals[p] == v;
    ScanPassesEntries(st, Path(key), p);
    var path: seq<Name> :| path != [] && LeafAt(st.idxs, Path(key) + path) == Some(p);
    InKeysHas(v.keys, Path(key) + path);
  }

  lemma InKeysHas(keys: seq<K>, path: seq<Name>)
    requires InKeys(keys, path)
    ensures exists j :: 0 <= j < |keys| && Path(keys[j]) == path
  {
  }

  lemma ScanPathNonempty(m: Tree, f: Found)
    requires f in Scan([Waiting([], m)])
    ensures f.path != []
  {
    hide Scan, LeafAt;
    ScanFinds([Waiting([], m)], f);
  }

  /** All(prefix) returns exactly the live values with a key strictly extending
      the prefix, each of them once. */
  lemma AllRefinesLinearScan<P(!new)>(st: State<P>, key: K, v: Record<P>)
    requires Sound(st) && Exact(st) && key != []
    ensures v in All(st, key) <==> PtrOf(v) in st.vals && st.vals[PtrOf(v)] == v && ListedUnder(v, key)
    ensures DistinctIds(All(st, key))
  {
    hide Find, Scan, Collect, PassedOn, PtrOf, ListedUnder, DistinctIds, Path;
    if Find(st.idxs, Path(key)).None? {
      if PtrOf(v) in st.vals && st.vals[PtrOf(v)] == v && ListedUnder(v, key) {
        BucketOfListed(st, key, v);
      }
      NoneDistinct<P>();
    } else {
      var ptrs := PassedOn(Scan([Waiting([], Find(st.idxs, Path(key)).value)]));
      CollectIs(ptrs, {}, st.vals, v);
      CollectDistinct(ptrs, {}, st.vals);
      ScanPasses(st, key, PtrOf(v));
    }
  }

  lemma NoneDistinct<P(!new)>()
    ensures DistinctIds<P>([])
  {
  }

  lemma {:induction false} ListedAre<P(!new)>(vals: map<Name, Record<P>>, ks: seq<Name>, v: Record<P>)
    requires (forall k :: k in ks ==> k in vals) && OwnPointers(vals) && Distinct(ks)
    ensures v in Listed(vals, ks) <==> PtrOf(v) in ks && vals[PtrOf(v)] == v
    ensures DistinctIds(Listed(vals, ks))
    decreases |ks|
  {
    hide PtrOf;
    if ks != [] {
      ListedAre(vals, ks[1..], v);
      var rest := Listed(vals, ks[1..]);
      forall i | 0 <= i < |rest| ensures rest[i].id != vals[ks[0]].id {
        ListedAre(vals, ks[1..], rest[i]);
        SamePointer(rest[i], vals[ks[0]]);
      }
      assert forall k :: k in ks <==> k == ks[0] || k in ks[1..];
    }
  }

  lemma SamePointer<P>(a: Record<P>, b: Record<P>)
    ensures a.id == b.id ==> PtrOf(a) == PtrOf(b)
  {
  }

  /** All of the empty key is the whole table. */
  lemma AllOfNothing<P(!new)>(st: State<P>, v: Record<P>)
    requires Sound(st)
    ensures v in All(st, []) <==> PtrOf(v) in st.vals && st.vals[PtrOf(v)] == v
    ensures DistinctIds(All(st, []))
  {
    hide PtrOf, LeafAt, Sorted;
    SortedDistinct(st.vals.Keys);
    ListedAre(st.vals, Sorted(st.vals.Keys), v);
  }

  /** All. */
  method FetchAll<P(==)>(b: IndexedBucket<P>, key: K) returns (r: seq<Record<P>>)
    ensures r == All(State(b.vals, b.idxs), key)
  {
    hide Scan, PassedOn, Collect, Sorted;
    if key == [] {
      var ks := CursorKeys(b.vals.Keys);
      r := [];
      for i := 0 to |ks|
        invariant forall k :: k in ks ==> k in b.vals
        invariant r + Listed(b.vals, ks[i..]) == Listed(b.vals, ks)
      {
        assert ks[i..][1..] == ks[i + 1..];
        assert r + ([b.vals[ks[i]]] + Listed(b.vals, ks[i + 1..])) == r + [b.vals[ks[i]]] + Listed(b.vals, ks[i + 1..]);
        r := r + [b.vals[ks[i]]];
      }
      assert ks[|ks|..] == [];
    } else {
      var bucket := b.FindBucket(Path(key));
      if bucket.None? {
        return [];
      }
      r := ScanIndexedAll(bucket.value, b.vals);
    }
  }
}
