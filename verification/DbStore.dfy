/** The indexed store: a table of values and an index of pointers to them. */
module DbStore {
  import opened Wrappers
  import opened Bytes
  import opened ByteOrder
  import opened DbKeys
  import opened DbBuckets
  import BsonValue

  /** A value: its object id, the keys it is indexed under, the rest of it, and
      whether its type leaves an empty id out of the stored document. */
  datatype Record<P> = Record(id: Name, keys: seq<K>, body: P, omitsId: bool)

  /** The whole store: values by pointer, and the tree of index buckets. */
  datatype State<P> = State(vals: map<Name, Record<P>>, idxs: Tree)

  /** The pointer to an id: "_id", separator, id. */
  function Pointer(id: Name): Name {
    ElemBytes(S(ID_NAME, id))
  }

  function PtrOf<P>(v: Record<P>): Name {
    Pointer(v.id)
  }

  predicate IsPointer(b: Name) {
    |b| >= 4 && b[..4] == ID_NAME + [USEP]
  }

  lemma PointerIsPointer(id: Name)
    ensures IsPointer(Pointer(id))
  {
    assert Pointer(id)[..4] == ID_NAME + [USEP];
  }

  /** Points every key of a list to a value. */
  function PutIndex(m: Tree, keys: seq<K>, ptr: Name): Option<Tree>
    decreases |keys|
  {
    if keys == [] then Some(m)
    else if keys[0] == [] then None
    else
      match PutLeaf(m, Path(keys[0]), ptr)
      case None => None
      case Some(m') => PutIndex(m', keys[1..], ptr)
  }

  /** Deletes the entries of a list of keys, but stops quietly at the first key
      whose bucket is missing. */
  function DelIndex(m: Tree, keys: seq<K>): Option<Tree>
    decreases |keys|
  {
    if keys == [] then Some(m)
    else if keys[0] == [] then None
    else
      var p := Path(keys[0]);
      if Find(m, p[..|p| - 1]).None? then Some(m)
      else
        match DelLeaf(m, p)
        case None => None
        case Some(m') => DelIndex(m', keys[1..])
  }

  predicate ValidKeys(keys: seq<K>) {
    forall j :: 0 <= j < |keys| ==> ValidKey(keys[j])
  }

  /** One put inside a transaction: a value that is already there is taken out of the index first. */
  function PutTx<P>(st: State<P>, v: Record<P>): Option<State<P>> {
    var ptr := PtrOf(v);
    match if ptr in st.vals then DelIndex(st.idxs, st.vals[ptr].keys) else Some(st.idxs)
    case None => None
    case Some(m) =>
      match PutIndex(m, v.keys, ptr)
      case None => None
      case Some(m') => Some(State(st.vals[ptr := v], m'))
  }

  function PutAll<P>(st: State<P>, vs: seq<Record<P>>): Option<State<P>>
    decreases |vs|
  {
    if vs == [] then Some(st)
    else
      match PutTx(st, vs[0])
      case None => None
      case Some(st') => PutAll(st', vs[1..])
  }

  /** Put: the keys and the id are checked first; a failed transaction changes nothing. */
  function Put<P>(st: State<P>, v: Record<P>): Option<State<P>> {
    if ValidKeys(v.keys) && |v.id| == 12 then PutTx(st, v) else None
  }

  /** Whether a value can be turned into a document: its id can be encoded or is left out. */
  predicate Storable<P>(v: Record<P>) {
    BsonValue.Encodable(BsonValue.ObjectId(v.id)) || (v.id == [] && v.omitsId)
  }

  /** BatchPut: all keys and documents are checked first; it puts all values or none. */
  function BatchPut<P>(st: State<P>, vs: seq<Record<P>>): Option<State<P>> {
    if forall j :: 0 <= j < |vs| ==> ValidKeys(vs[j].keys) && Storable(vs[j]) then PutAll(st, vs) else None
  }

  /** Del removes the value with the given id, and the index entries of the given keys. */
  function Del<P>(st: State<P>, v: Record<P>): Option<State<P>> {
    if ValidKeys(v.keys) then
      match DelIndex(st.idxs, v.keys)
      case None => None
      case Some(m) => Some(State(st.vals - {PtrOf(v)}, m))
    else None
  }

  /** A key list as a set of paths. */
  predicate InKeys(keys: seq<K>, path: seq<Name>) {
    exists j :: 0 <= j < |keys| && Path(keys[j]) == path
  }

  /** A value lists a path if one of its keys has it. */
  predicate Lists<P>(v: Record<P>, path: seq<Name>) {
    InKeys(v.keys, path)
  }

  /** Every index entry points to a live value that lists its key, and the
      buckets that the keys of live values need exist. */
  ghost predicate Sound<P(!new)>(st: State<P>) {
    && (forall ptr :: ptr in st.vals ==> ptr == PtrOf(st.vals[ptr]))
    && (forall path: seq<Name> :: path != [] && LeafAt(st.idxs, path).Some? ==>
          var ptr := LeafAt(st.idxs, path).value; ptr in st.vals && Lists(st.vals[ptr], path))
    && (forall ptr, j :: ptr in st.vals && 0 <= j < |st.vals[ptr].keys| ==> HasBucket(st.idxs, st.vals[ptr].keys[j]))
  }

  predicate HasBucket(m: Tree, k: K) {
    k != [] && Find(m, Path(k)[..|k| - 1]).Some?
  }

  /** Every key that a live value lists leads to that value. With Sound this
      makes the index exactly the map derived from the table. */
  ghost predicate Exact<P>(st: State<P>) {
    forall ptr, j :: ptr in st.vals && 0 <= j < |st.vals[ptr].keys| ==>
      st.vals[ptr].keys[j] != [] && LeafAt(st.idxs, Path(st.vals[ptr].keys[j])) == Some(ptr)
  }

  lemma InKeysStep(keys: seq<K>, path: seq<Name>)
    requires keys != []
    ensures InKeys(keys, path) <==> Path(keys[0]) == path || InKeys(keys[1..], path)
  {
    if InKeys(keys, path) && Path(keys[0]) != path {
      var j :| 0 <= j < |keys| && Path(keys[j]) == path;
      assert keys[1..][j - 1] == keys[j];
    }
    if InKeys(keys[1..], path) {
      var j :| 0 <= j < |keys[1..]| && Path(keys[1..][j]) == path;
      assert keys[j + 1] == keys[1..][j];
    }
  }

  /** Pointing a list of keys changes those paths and no others. */
  lemma {:induction false} PutIndexAt(m: Tree, keys: seq<K>, ptr: Name, q: seq<Name>)
    requires q != [] && PutIndex(m, keys, ptr).Some?
    ensures LeafAt(PutIndex(m, keys, ptr).value, q) == if InKeys(keys, q) then Some(ptr) else LeafAt(m, q)
    decreases |keys|
  {
    hide LeafAt, Path;
    if keys != [] {
      PutLeafAt(m, Path(keys[0]), ptr, q);
      PutIndexAt(PutLeaf(m, Path(keys[0]), ptr).value, keys[1..], ptr, q);
      InKeysStep(keys, q);
    }
  }

  lemma {:induction false} PutIndexBuckets(m: Tree, keys: seq<K>, ptr: Name, k: K)
    requires PutIndex(m, keys, ptr).Some?
    ensures HasBucket(m, k) || k in keys ==> HasBucket(PutIndex(m, keys, ptr).value, k)
    decreases |keys|
  {
    hide Path, Find;
    if keys != [] {
      var m' := PutLeaf(m, Path(keys[0]), ptr).value;
      if k != [] {
        PutKeepsBuckets(m, Path(keys[0]), ptr, Path(k)[..|k| - 1]);
      }
      PutCreatesBuckets(m, Path(keys[0]), ptr);
      PutIndexBuckets(m', keys[1..], ptr, k);
    }
  }

  /** As long as no bucket is missing, deleting a list of keys empties those paths and no others. */
  lemma {:induction false} DelIndexAt(m: Tree, keys: seq<K>, q: seq<Name>)
    requires q != [] && DelIndex(m, keys).Some? && forall j :: 0 <= j < |keys| ==> HasBucket(m, keys[j])
    ensures LeafAt(DelIndex(m, keys).value, q) == if InKeys(keys, q) then None else LeafAt(m, q)
    decreases |keys|
  {
    hide LeafAt, Path, Find, DelLeaf;
    if keys != [] {
      var p := Path(keys[0]);
      assert HasBucket(m, keys[0]);
      DelLeafAt(m, p, q);
      var m' := DelLeaf(m, p).value;
      forall j | 0 <= j < |keys[1..]| ensures HasBucket(m', keys[1..][j]) {
        assert keys[1..][j] == keys[j + 1];
        DelKeepsBuckets(m, p, Path(keys[j + 1])[..|keys[j + 1]| - 1]);
      }
      DelIndexAt(m', keys[1..], q);
      InKeysStep(keys, q);
    }
  }

  /** How many keys a deletion reaches before the first one whose bucket is missing. */
  function Reached(m: Tree, keys: seq<K>): (n: nat)
    ensures n <= |keys| && (n < |keys| ==> !HasBucket(m, keys[n]))
    ensures forall j :: 0 <= j < n ==> HasBucket(m, keys[j])
    decreases |keys|
  {
    if keys == [] || !HasBucket(m, keys[0]) then 0 else 1 + Reached(m, keys[1..])
  }

  lemma {:induction false} SameReached(m: Tree, m': Tree, keys: seq<K>)
    requires forall k: K :: HasBucket(m, k) <==> HasBucket(m', k)
    ensures Reached(m, keys) == Reached(m', keys)
    decreases |keys|
  {
    hide HasBucket;
    if keys != [] {
      SameReached(m, m', keys[1..]);
    }
  }

  /** Exactly the keys that are reached are emptied, whatever the list. */
  lemma {:induction false} DelIndexExactly(m: Tree, keys: seq<K>, q: seq<Name>)
    requires q != [] && DelIndex(m, keys).Some?
    ensures LeafAt(DelIndex(m, keys).value, q) == if InKeys(keys[..Reached(m, keys)], q) then None else LeafAt(m, q)
    decreases |keys|
  {
    hide LeafAt, Path, Find, DelLeaf, InKeys;
    if keys == [] || !HasBucket(m, keys[0]) {
      NoKeys(q);
    } else {
      var p := Path(keys[0]);
      DelLeafAt(m, p, q);
      var m' := DelLeaf(m, p).value;
      forall k: K ensures HasBucket(m, k) <==> HasBucket(m', k) {
        if k != [] {
          DelKeepsBuckets(m, p, Path(k)[..|k| - 1]);
          DelAddsNoBuckets(m, p, Path(k)[..|k| - 1]);
        }
      }
      hide HasBucket;
      SameReached(m, m', keys[1..]);
      DelIndexExactly(m', keys[1..], q);
      var reached := keys[..Reached(m, keys)];
      InKeysStep(reached, q);
      assert reached[1..] == keys[1..][..Reached(m', keys[1..])];
    }
  }

  lemma NoKeys(q: seq<Name>)
    ensures !InKeys([], q)
  {
  }

  /** Deleting only ever removes entries, and never buckets, even when it stops early. */
  lemma {:induction false} DelIndexShrinks(m: Tree, keys: seq<K>, q: seq<Name>, e: seq<Name>)
    requires q != [] && DelIndex(m, keys).Some?
    ensures LeafAt(DelIndex(m, keys).value, q) in {None, LeafAt(m, q)}
    ensures Find(m, e).Some? ==> Find(DelIndex(m, keys).value, e).Some?
    decreases |keys|
  {
    hide LeafAt, Path, DelLeaf;
    if keys != [] {
      var p := Path(keys[0]);
      if Find(m, p[..|p| - 1]).Some? {
        DelLeafAt(m, p, q);
        DelKeepsBuckets(m, p, e);
        DelIndexShrinks(DelLeaf(m, p).value, keys[1..], q, e);
      }
    }
  }

  /** The index after the old entries of a pointer are gone: nothing points to it. */
  lemma CleanedOut<P(!new)>(st: State<P>, ptr: Name, m: Tree, q: seq<Name>)
    requires Sound(st) && q != []
    requires Some(m) == if ptr in st.vals then DelIndex(st.idxs, st.vals[ptr].keys) else Some(st.idxs)
    ensures LeafAt(m, q).Some? ==> LeafAt(m, q) == LeafAt(st.idxs, q) && LeafAt(m, q) != Some(ptr)
    ensures LeafAt(st.idxs, q).Some? && LeafAt(st.idxs, q) != Some(ptr) && !(ptr in st.vals && Lists(st.vals[ptr], q)) ==>
              LeafAt(m, q) == LeafAt(st.idxs, q)
  {
    hide LeafAt, DelIndex, HasBucket, InKeys;
    if ptr in st.vals {
      DelIndexAt(st.idxs, st.vals[ptr].keys, q);
    }
  }

  lemma CleanedBuckets<P(!new)>(st: State<P>, ptr: Name, m: Tree, k: K)
    requires Some(m) == if ptr in st.vals then DelIndex(st.idxs, st.vals[ptr].keys) else Some(st.idxs)
    ensures HasBucket(st.idxs, k) ==> HasBucket(m, k)
  {
    hide DelIndex, Path, LeafAt;
    if ptr in st.vals && k != [] {
      var any: Name := [];
      DelIndexShrinks(st.idxs, st.vals[ptr].keys, [any], Path(k)[..|k| - 1]);
    }
  }

  /** A put keeps the index sound, whatever the value and its keys. */
  lemma PutKeepsSound<P(!new)>(st: State<P>, v: Record<P>)
    requires Sound(st) && PutTx(st, v).Some?
    ensures Sound(PutTx(st, v).value)
  {
    hide LeafAt, DelIndex, PutIndex, HasBucket, InKeys, Path, PtrOf;
    var ptr := PtrOf(v);
    var m := (if ptr in st.vals then DelIndex(st.idxs, st.vals[ptr].keys) else Some(st.idxs)).value;
    var st' := PutTx(st, v).value;
    forall q: seq<Name> | q != [] && LeafAt(st'.idxs, q).Some?
      ensures LeafAt(st'.idxs, q).value in st'.vals && Lists(st'.vals[LeafAt(st'.idxs, q).value], q)
    {
      PutIndexAt(m, v.keys, ptr, q);
      CleanedOut(st, ptr, m, q);
    }
    forall p, j | p in st'.vals && 0 <= j < |st'.vals[p].keys|
      ensures HasBucket(st'.idxs, st'.vals[p].keys[j])
    {
      var k := st'.vals[p].keys[j];
      CleanedBuckets(st, ptr, m, k);
      PutIndexBuckets(m, v.keys, ptr, k);
    }
  }

  /** The value passed to Del is the stored one (or nothing is stored under its id). */
  predicate DelOfStored<P(==)>(st: State<P>, v: Record<P>) {
    PtrOf(v) in st.vals ==> st.vals[PtrOf(v)].keys == v.keys
  }

  /** Deleting a stored value keeps the index sound. */
  lemma DelKeepsSound<P(!new)>(st: State<P>, v: Record<P>)
    requires Sound(st) && Del(st, v).Some? && DelOfStored(st, v)
    ensures Sound(Del(st, v).value)
  {
    hide LeafAt, DelIndex, HasBucket, InKeys, Path, PtrOf, ValidKeys;
    var ptr := PtrOf(v);
    var st' := Del(st, v).value;
    forall q: seq<Name> | q != [] && LeafAt(st'.idxs, q).Some?
      ensures LeafAt(st'.idxs, q).value in st'.vals && Lists(st'.vals[LeafAt(st'.idxs, q).value], q)
    {
      DelIndexShrinks(st.idxs, v.keys, q, []);
      if ptr in st.vals {
        CleanedOut(st, ptr, st'.idxs, q);
      }
    }
    forall p, j | p in st'.vals && 0 <= j < |st'.vals[p].keys|
      ensures HasBucket(st'.idxs, st'.vals[p].keys[j])
    {
      var k := st'.vals[p].keys[j];
      assert HasBucket(st.idxs, k);
      DelBuckets(st.idxs, v.keys, k);
    }
  }

  /** The entries of v are among those of its keys that a deletion reaches. */
  ghost predicate ReachesAll<P(!new)>(st: State<P>, v: Record<P>) {
    forall q: seq<Name> :: q != [] && LeafAt(st.idxs, q) == Some(PtrOf(v)) ==>
      InKeys(v.keys[..Reached(st.idxs, v.keys)], q)
  }

  lemma SoundIfReached<P(!new)>(st: State<P>, v: Record<P>)
    requires Sound(st) && Del(st, v).Some? && ReachesAll(st, v)
    ensures Sound(Del(st, v).value)
  {
    hide LeafAt, DelIndex, HasBucket, InKeys, Path, PtrOf, ValidKeys, Reached;
    var st' := Del(st, v).value;
    forall q: seq<Name> | q != [] && LeafAt(st'.idxs, q).Some?
      ensures LeafAt(st'.idxs, q).value in st'.vals && Lists(st'.vals[LeafAt(st'.idxs, q).value], q)
    {
      DelIndexExactly(st.idxs, v.keys, q);
    }
    forall p, j | p in st'.vals && 0 <= j < |st'.vals[p].keys|
      ensures HasBucket(st'.idxs, st'.vals[p].keys[j])
    {
      assert HasBucket(st.idxs, st.vals[p].keys[j]);
      DelBuckets(st.idxs, v.keys, st.vals[p].keys[j]);
    }
  }

  /** A deletion keeps the index sound if and only if it reaches, among the keys
      it is given, every entry that points to the value. */
  lemma DelKeepsSoundIff<P(!new)>(st: State<P>, v: Record<P>)
    requires Sound(st) && Del(st, v).Some?
    ensures Sound(Del(st, v).value) <==> ReachesAll(st, v)
  {
    hide LeafAt, DelIndex, InKeys, PtrOf, Reached, Sound;
    if ReachesAll(st, v) {
      SoundIfReached(st, v);
    } else {
      var st' := Del(st, v).value;
      var q: seq<Name> :| q != [] && LeafAt(st.idxs, q) == Some(PtrOf(v)) && !InKeys(v.keys[..Reached(st.idxs, v.keys)], q);
      DelIndexExactly(st.idxs, v.keys, q);
      if Sound(st') {
        EntryIsLive(st', q);
      }
    }
  }

  lemma EntryIsLive<P(!new)>(st: State<P>, q: seq<Name>)
    requires Sound(st) && q != [] && LeafAt(st.idxs, q).Some?
    ensures LeafAt(st.idxs, q).value in st.vals
  {
    hide LeafAt, HasBucket, InKeys;
  }

  /** A deletion keeps the index exact if and only if it reaches no key of another live value. */
  lemma DelKeepsExactIff<P(!new)>(st: State<P>, v: Record<P>)
    requires Sound(st) && Exact(st) && Del(st, v).Some?
    ensures Exact(Del(st, v).value) <==>
      forall ptr, j :: ptr in st.vals && ptr != PtrOf(v) && 0 <= j < |st.vals[ptr].keys| ==>
        !InKeys(v.keys[..Reached(st.idxs, v.keys)], Path(st.vals[ptr].keys[j]))
  {
    hide LeafAt, DelIndex, InKeys, Path, PtrOf, ValidKeys, Reached, Sound;
    var ptr, reached := PtrOf(v), v.keys[..Reached(st.idxs, v.keys)];
    var st' := Del(st, v).value;
    forall p, j | p in st.vals && p != ptr && 0 <= j < |st.vals[p].keys|
      ensures LeafAt(st'.idxs, Path(st.vals[p].keys[j])) == Some(p) <==> !InKeys(reached, Path(st.vals[p].keys[j]))
    {
      DelIndexExactly(st.idxs, v.keys, Path(st.vals[p].keys[j]));
    }
    if Exact(st') {
      forall p, j | p in st.vals && p != ptr && 0 <= j < |st.vals[p].keys|
        ensures !InKeys(reached, Path(st.vals[p].keys[j]))
      {
        assert st'.vals[p] == st.vals[p];
      }
    }
  }

  lemma DelBuckets(m: Tree, keys: seq<K>, k: K)
    requires DelIndex(m, keys).Some?
    ensures HasBucket(m, k) ==> HasBucket(DelIndex(m, keys).value, k)
  {
    hide DelIndex, Path, LeafAt;
    if k != [] {
      var any: Name := [];
      DelIndexShrinks(m, keys, [any], Path(k)[..|k| - 1]);
    }
  }

  /** No key of v is listed by a live value other than the one it replaces. */
  ghost predicate Unshared<P>(st: State<P>, v: Record<P>) {
    forall ptr, j :: ptr in st.vals && ptr != PtrOf(v) && 0 <= j < |st.vals[ptr].keys| ==>
      !Lists(v, Path(st.vals[ptr].keys[j]))
  }

  lemma InOwnKeys(keys: seq<K>, j: nat)
    requires j < |keys|
    ensures InKeys(keys, Path(keys[j]))
  {
  }

  lemma PutIndexNonempty(m: Tree, keys: seq<K>, ptr: Name)
    requires PutIndex(m, keys, ptr).Some?
    ensures forall j :: 0 <= j < |keys| ==> keys[j] != []
    decreases |keys|
  {
    if keys != [] {
      PutIndexNonempty(PutLeaf(m, Path(keys[0]), ptr).value, keys[1..], ptr);
      assert forall j :: 1 <= j < |keys| ==> keys[j] == keys[1..][j - 1];
    }
  }

  /** In an exact store distinct live values share no key. */
  lemma ExactUnshared<P(!new)>(st: State<P>, p: Name, p': Name, j: nat)
    requires Sound(st) && Exact(st) && p in st.vals && p' in st.vals && p != p' && j < |st.vals[p].keys|
    ensures !Lists(st.vals[p'], Path(st.vals[p].keys[j]))
  {
    hide LeafAt, Path;
  }

  /** A put keeps the index exact if and only if the value shares no key with
      another live value; a shared key is taken over by the newer value. */
  lemma PutKeepsExactIff<P(!new)>(st: State<P>, v: Record<P>)
    requires Sound(st) && Exact(st) && PutTx(st, v).Some?
    ensures Exact(PutTx(st, v).value) <==> Unshared(st, v)
  {
    hide LeafAt, DelIndex, PutIndex, HasBucket, InKeys, Path, PtrOf;
    var ptr := PtrOf(v);
    var m := (if ptr in st.vals then DelIndex(st.idxs, st.vals[ptr].keys) else Some(st.idxs)).value;
    var st' := PutTx(st, v).value;
    PutIndexNonempty(m, v.keys, ptr);
    forall p, j | p in st.vals && p != ptr && 0 <= j < |st.vals[p].keys|
      ensures LeafAt(st'.idxs, Path(st.vals[p].keys[j])) == Some(p) <==> !Lists(v, Path(st.vals[p].keys[j]))
    {
      var q := Path(st.vals[p].keys[j]);
      PutIndexAt(m, v.keys, ptr, q);
      CleanedOut(st, ptr, m, q);
      if ptr in st.vals {
        ExactUnshared(st, p, ptr, j);
      }
    }
    forall j | 0 <= j < |v.keys| ensures LeafAt(st'.idxs, Path(v.keys[j])) == Some(ptr) {
      PutIndexAt(m, v.keys, ptr, Path(v.keys[j]));
      InOwnKeys(v.keys, j);
    }
    if Exact(st') {
      forall p, j | p in st.vals && p != ptr && 0 <= j < |st.vals[p].keys|
        ensures !Lists(v, Path(st.vals[p].keys[j]))
      {
        assert st'.vals[p] == st.vals[p];
      }
    }
  }

  /** Deleting a stored value keeps the index exact. */
  lemma DelKeepsExact<P(!new)>(st: State<P>, v: Record<P>)
    requires Sound(st) && Exact(st) && Del(st, v).Some? && PtrOf(v) in st.vals && DelOfStored(st, v)
    ensures Exact(Del(st, v).value)
  {
    hide LeafAt, DelIndex, HasBucket, InKeys, Path, PtrOf, ValidKeys;
    var ptr := PtrOf(v);
    var st' := Del(st, v).value;
    forall p, j | p in st'.vals && 0 <= j < |st'.vals[p].keys|
      ensures st'.vals[p].keys[j] != [] && LeafAt(st'.idxs, Path(st'.vals[p].keys[j])) == Some(p)
    {
      CleanedOut(st, ptr, st'.idxs, Path(st.vals[p].keys[j]));
      ExactUnshared(st, p, ptr, j);
    }
  }
}
