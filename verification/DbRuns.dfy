/** Whole runs of the indexed store, and lookups by key. */
module DbRuns {
  import opened Wrappers
  import opened Bytes
  import opened ByteOrder
  import opened DbKeys
  import opened DbBuckets
  import opened DbStore

  datatype Op<P> = DoPut(v: Record<P>) | DoBatch(vs: seq<Record<P>>) | DoDel(v: Record<P>)

  /** One operation; a failed one leaves the store as it was. */
  function Apply<P>(st: State<P>, op: Op<P>): State<P> {
    var r := match op
      case DoPut(v) => Put(st, v)
      case DoBatch(vs) => BatchPut(st, vs)
      case DoDel(v) => Del(st, v);
    if r.Some? then r.value else st
  }

  function Run<P>(st: State<P>, ops: seq<Op<P>>): State<P>
    decreases |ops|
  {
    if ops == [] then st else Run(Apply(st, ops[0]), ops[1..])
  }

  /** Every Del along the run is given the value that is stored at that moment. */
  predicate Proper<P(==)>(st: State<P>, ops: seq<Op<P>>)
    decreases |ops|
  {
    ops == [] || ((ops[0].DoDel? ==> DelOfStored(st, ops[0].v)) && Proper(Apply(st, ops[0]), ops[1..]))
  }

  function Empty<P>(): State<P> {
    State(map[], map[])
  }

  lemma EmptySound<P(!new)>()
    ensures Sound(Empty<P>()) && Exact(Empty<P>())
  {
  }

  lemma {:induction false} PutAllKeepsSound<P(!new)>(st: State<P>, vs: seq<Record<P>>)
    requires Sound(st) && PutAll(st, vs).Some?
    ensures Sound(PutAll(st, vs).value)
    decreases |vs|
  {
    hide Sound, PutTx;
    if vs != [] {
      PutKeepsSound(st, vs[0]);
      PutAllKeepsSound(PutTx(st, vs[0]).value, vs[1..]);
    }
  }

  lemma ApplyKeepsSound<P(!new)>(st: State<P>, op: Op<P>)
    requires Sound(st) && (op.DoDel? ==> DelOfStored(st, op.v))
    ensures Sound(Apply(st, op))
  {
    hide Sound, PutTx, PutAll, ValidKeys, DelOfStored;
    match op
    case DoPut(v) => if Put(st, v).Some? { PutKeepsSound(st, v); }
    case DoBatch(vs) => if BatchPut(st, vs).Some? { PutAllKeepsSound(st, vs); }
    case DoDel(v) => if Del(st, v).Some? { DelKeepsSound(st, v); }
  }

  /** Soundness over every run: whatever was put, batch-put and deleted, every
      index entry points to a live value that lists its key. */
  lemma {:induction false} RunSound<P(!new)>(st: State<P>, ops: seq<Op<P>>)
    requires Sound(st) && Proper(st, ops)
    ensures Sound(Run(st, ops))
    decreases |ops|
  {
    hide Sound, Apply;
    if ops != [] {
      ApplyKeepsSound(st, ops[0]);
      RunSound(Apply(st, ops[0]), ops[1..]);
    }
  }

  /** Each value of a batch shares no key with another live value when its turn comes. */
  ghost predicate UnsharedAll<P>(st: State<P>, vs: seq<Record<P>>)
    decreases |vs|
  {
    vs == [] || (Unshared(st, vs[0]) && (PutTx(st, vs[0]).Some? ==> UnsharedAll(PutTx(st, vs[0]).value, vs[1..])))
  }

  /** Along the run no value is put that shares a key with another live value,
      and every Del is given a value that is stored. */
  ghost predicate KeysUnique<P>(st: State<P>, ops: seq<Op<P>>)
    decreases |ops|
  {
    ops == [] || (KeysUniqueNow(st, ops[0]) && KeysUnique(Apply(st, ops[0]), ops[1..]))
  }

  ghost predicate KeysUniqueNow<P>(st: State<P>, op: Op<P>) {
    match op
    case DoPut(v) => Unshared(st, v)
    case DoBatch(vs) => UnsharedAll(st, vs)
    case DoDel(v) => PtrOf(v) in st.vals && DelOfStored(st, v)
  }

  lemma {:induction false} PutAllKeepsExact<P(!new)>(st: State<P>, vs: seq<Record<P>>)
    requires Sound(st) && Exact(st) && UnsharedAll(st, vs) && PutAll(st, vs).Some?
    ensures Exact(PutAll(st, vs).value)
    decreases |vs|
  {
    hide Sound, Exact, PutTx, Unshared;
    if vs != [] {
      PutKeepsSound(st, vs[0]);
      PutKeepsExactIff(st, vs[0]);
      PutAllKeepsExact(PutTx(st, vs[0]).value, vs[1..]);
    }
  }

  lemma ApplyKeepsExact<P(!new)>(st: State<P>, op: Op<P>)
    requires Sound(st) && Exact(st) && KeysUniqueNow(st, op)
    ensures Sound(Apply(st, op)) && Exact(Apply(st, op))
  {
    hide Sound, Exact, PutTx, PutAll, ValidKeys, Unshared, UnsharedAll, DelOfStored;
    ApplyKeepsSound(st, op);
    match op
    case DoPut(v) => if Put(st, v).Some? { PutKeepsExactIff(st, v); }
    case DoBatch(vs) => if BatchPut(st, vs).Some? { PutAllKeepsExact(st, vs); }
    case DoDel(v) => if Del(st, v).Some? { DelKeepsExact(st, v); }
  }

  /** Over every run in which live values never share a key, the index stays
      exactly the map derived from the value table. */
  lemma {:induction false} RunExact<P(!new)>(st: State<P>, ops: seq<Op<P>>)
    requires Sound(st) && Exact(st) && KeysUnique(st, ops)
    ensures Sound(Run(st, ops)) && Exact(Run(st, ops))
    decreases |ops|
  {
    hide Sound, Exact, Apply, KeysUniqueNow;
    if ops != [] {
      ApplyKeepsExact(st, ops[0]);
      RunExact(Apply(st, ops[0]), ops[1..]);
    }
  }

  /** What exactness means: an entry is there just when a live value lists the path. */
  lemma ExactIsDerivedMap<P(!new)>(st: State<P>, path: seq<Name>, ptr: Name)
    requires Sound(st) && Exact(st) && path != []
    ensures LeafAt(st.idxs, path) == Some(ptr) <==> ptr in st.vals && Lists(st.vals[ptr], path)
  {
    hide LeafAt, Path;
  }

  /** Whatever keys Del is given: an entry of the value that it does not reach is left pointing nowhere. */
  lemma DelOfOtherKeysDangles<P(!new)>(st: State<P>, v: Record<P>, path: seq<Name>)
    requires Sound(st) && Del(st, v).Some? && path != [] && LeafAt(st.idxs, path) == Some(PtrOf(v))
    requires !InKeys(v.keys[..Reached(st.idxs, v.keys)], path)
    ensures var st' := Del(st, v).value; LeafAt(st'.idxs, path) == Some(PtrOf(v)) && PtrOf(v) !in st'.vals
  {
    hide LeafAt, PtrOf, InKeys, Reached, DelIndex, Sound;
    DelIndexExactly(st.idxs, v.keys, path);
  }

  /** Get: an index key is resolved through the index, a pointer directly. */
  function Get<P>(st: State<P>, key: K): Option<Option<Record<P>>> {
    if key == [] then None
    else
      var path := Path(key);
      var last := path[|path| - 1];
      if |path| > 1 || !IsPointer(last) then
        match LeafAt(st.idxs, path)
        case None => Some(None)
        case Some(ptr) => Some(if ptr in st.vals then Some(st.vals[ptr]) else None)
      else Some(if last in st.vals then Some(st.vals[last]) else None)
  }

  /** Under the invariants Get finds precisely the one live value that lists the key. */
  lemma GetFindsTheLister<P(!new)>(st: State<P>, key: K, v: Record<P>)
    requires Sound(st) && Exact(st) && key != [] && (|key| > 1 || !IsPointer(Path(key)[0]))
    ensures Get(st, key) == Some(Some(v)) <==> PtrOf(v) in st.vals && st.vals[PtrOf(v)] == v && Lists(v, Path(key))
  {
    hide LeafAt, Path, PtrOf, InKeys;
    var path := Path(key);
    ExactIsDerivedMap(st, path, PtrOf(v));
    if LeafAt(st.idxs, path).Some? {
      ExactIsDerivedMap(st, path, LeafAt(st.idxs, path).value);
    }
  }

  /** Soundness alone: what Get finds through the index lists the key. */
  lemma GetIsSound<P(!new)>(st: State<P>, key: K)
    requires Sound(st) && key != [] && (|key| > 1 || !IsPointer(Path(key)[0]))
    requires Get(st, key).value.Some?
    ensures Lists(Get(st, key).value.value, Path(key))
  {
    hide LeafAt, Path, InKeys;
  }

  /** By id the value itself is found. */
  lemma GetById<P(!new)>(st: State<P>, id: Name, v: Record<P>)
    requires Sound(st)
    ensures Get(st, [ID(id)]) == Some(Some(v)) <==> Pointer(id) in st.vals && st.vals[Pointer(id)] == v
  {
    PointerIsPointer(id);
    assert ElemBytes(ID(id)) == Pointer(id);
    assert Path([ID(id)])[0] == Pointer(id);
  }

  /** An indexed collection; the two buckets of a collection are its fields. */
  class IndexedBucket<P(==)> {
    var vals: map<Name, Record<P>>
    var idxs: Tree

    constructor ()
      ensures State(vals, idxs) == Empty<P>()
    {
      vals, idxs := map[], map[];
    }

    method CheckKeys(keys: seq<K>) returns (ok: bool)
      ensures ok <==> ValidKeys(keys)
    {
      ok := true;
      for j := 0 to |keys|
        invariant ok && forall i :: 0 <= i < j ==> ValidKey(keys[i])
      {
        if !ValidKey(keys[j]) {
          return false;
        }
      }
    }

    /** putIndex, on the transaction's index. */
    method PutIndexTx(m0: Tree, keys: seq<K>, ptr: Name) returns (r: Option<Tree>)
      ensures r == PutIndex(m0, keys, ptr)
    {
      var m := m0;
      for j := 0 to |keys|
        invariant PutIndex(m0, keys, ptr) == PutIndex(m, keys[j..], ptr)
      {
        assert keys[j..][1..] == keys[j + 1..];
        if keys[j] == [] {
          return None;
        }
        var next := PutLeaf(m, Path(keys[j]), ptr);
        if next.None? {
          return None;
        }
        m := next.value;
      }
      r := Some(m);
    }

    /** delIndex, on the transaction's index. */
    method DelIndexTx(m0: Tree, keys: seq<K>) returns (r: Option<Tree>)
      ensures r == DelIndex(m0, keys)
    {
      var m := m0;
      for j := 0 to |keys|
        invariant DelIndex(m0, keys) == DelIndex(m, keys[j..])
      {
        assert keys[j..][1..] == keys[j + 1..];
        if keys[j] == [] {
          return None;
        }
        var p := Path(keys[j]);
        if Find(m, p[..|p| - 1]).None? {
          return Some(m);
        }
        var next := DelLeaf(m, p);
        if next.None? {
          return None;
        }
        m := next.value;
      }
      r := Some(m);
    }

    /** putTx: the transaction's state goes in and, unless it fails, comes out changed. */
    method PutInTx(st: State<P>, v: Record<P>) returns (r: Option<State<P>>)
      ensures r == PutTx(st, v)
    {
      hide PutIndex, DelIndex;
      var ptr := PtrOf(v);
      var m := st.idxs;
      if ptr in st.vals {
        var cleaned := DelIndexTx(m, st.vals[ptr].keys);
        if cleaned.None? {
          return None;
        }
        m := cleaned.value;
      }
      var put := PutIndexTx(m, v.keys, ptr);
      if put.None? {
        return None;
      }
      r := Some(State(st.vals[ptr := v], put.value));
    }

    method Store(v: Record<P>) returns (ok: bool)
      modifies this
      ensures ok <==> Put(old(State(vals, idxs)), v).Some?
      ensures State(vals, idxs) == Apply(old(State(vals, idxs)), DoPut(v))
    {
      ok := CheckKeys(v.keys);
      if !ok || |v.id| != 12 {
        return false;
      }
      var r := PutInTx(State(vals, idxs), v);
      if r.None? {
        return false;
      }
      vals, idxs := r.value.vals, r.value.idxs;
    }

    method StoreAll(vs: seq<Record<P>>) returns (ok: bool)
      modifies this
      ensures ok <==> BatchPut(old(State(vals, idxs)), vs).Some?
      ensures State(vals, idxs) == Apply(old(State(vals, idxs)), DoBatch(vs))
    {
      hide PutTx;
      for j := 0 to |vs|
        invariant forall i :: 0 <= i < j ==> ValidKeys(vs[i].keys) && Storable(vs[i])
        invariant vals == old(vals) && idxs == old(idxs)
      {
        ok := CheckKeys(vs[j].keys);
        if !ok || !Storable(vs[j]) {
          return false;
        }
      }
      var tx := State(vals, idxs);
      for j := 0 to |vs|
        invariant PutAll(old(State(vals, idxs)), vs) == PutAll(tx, vs[j..])
        invariant vals == old(vals) && idxs == old(idxs)
      {
        assert vs[j..][1..] == vs[j + 1..];
        var r := PutInTx(tx, vs[j]);
        if r.None? {
          return false;
        }
        tx := r.value;
      }
      vals, idxs := tx.vals, tx.idxs;
      ok := true;
    }

    method Remove(v: Record<P>) returns (ok: bool)
      modifies this
      ensures ok <==> Del(old(State(vals, idxs)), v).Some?
      ensures State(vals, idxs) == Apply(old(State(vals, idxs)), DoDel(v))
    {
      ok := CheckKeys(v.keys);
      if !ok {
        return false;
      }
      var m := DelIndexTx(idxs, v.keys);
      if m.None? {
        return false;
      }
      vals, idxs := vals - {PtrOf(v)}, m.value;
    }

    /** The bucket walk of a lookup. */
    method FindBucket(elems: seq<Name>) returns (r: Option<Tree>)
      ensures r == Find(idxs, elems)
    {
      var b := idxs;
      for j := 0 to |elems|
        invariant Find(idxs, elems) == Find(b, elems[j..])
      {
        assert elems[j..][1..] == elems[j + 1..];
        if elems[j] in b && b[elems[j]].Bucket? {
          b := b[elems[j]].entries;
        } else {
          return None;
        }
      }
      r := Some(b);
    }

    method Lookup(key: K) returns (r: Option<Option<Record<P>>>)
      ensures r == Get(State(vals, idxs), key)
    {
      hide Find, LeafAt, Path, IsPointer;
      if key == [] {
        return None;
      }
      var path := Path(key);
      var elems, last := path[..|path| - 1], path[|path| - 1];
      var ptr := last;
      if |elems| > 0 || !IsPointer(last) {
        LeafInBucket(idxs, path);
        var b := FindBucket(elems);
        if b.None? || last !in b.value || b.value[last].Bucket? {
          return Some(None);
        }
        ptr := b.value[last].ptr;
      }
      r := Some(if ptr in vals then Some(vals[ptr]) else None);
    }
  }

  /** The value at a path is the value under its last name in the bucket above. */
  lemma {:induction false} LeafInBucket(m: Tree, path: seq<Name>)
    requires path != []
    ensures var (b, last) := (Find(m, path[..|path| - 1]), path[|path| - 1]);
      LeafAt(m, path) == if b.Some? && last in b.value && b.value[last].Leaf? then Some(b.value[last].ptr) else None
    decreases |path|
  {
    if |path| > 1 {
      assert path[..|path| - 1][1..] == path[1..][..|path| - 2];
      if path[0] in m && m[path[0]].Bucket? {
        LeafInBucket(m[path[0]].entries, path[1..]);
      }
    }
  }
}
