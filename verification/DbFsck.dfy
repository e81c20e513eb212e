/** The consistency check of an indexed collection. */
module DbFsck {
  import opened Wrappers
  import opened Bytes
  import opened ByteOrder
  import opened DbKeys
  import opened DbBuckets
  import opened DbStore
  import opened DbScan
  import BsonDecode

  /** The raw contents of a collection: stored bytes by pointer, and the index. */
  datatype Raw = Raw(vals: map<Name, Name>, idxs: Tree)

  /** How stored bytes are turned into a value. */
  type Reader<!P> = Name -> Option<Record<P>>

  /** The values of a table that its own type wants deleted; it may fail. */
  type Validator<!P> = seq<Record<P>> -> Option<seq<Record<P>>>

  /** The last element of the key is k. */
  predicate EndsIn(key: K, k: Name) {
    key != [] && ElemBytes(key[|key| - 1]) == k
  }

  /** The last element of one of the keys is k. */
  predicate KeyIn(keys: seq<K>, k: Name) {
    exists j :: 0 <= j < |keys| && EndsIn(keys[j], k)
  }

  datatype Verdict = Keep | Discard | Fails

  /** What the first pass decides about one entry at the top of the index. A
      nested bucket has no value, and cannot be deleted through the cursor. */
  function Judge<P>(rd: Reader<P>, vals: map<Name, Name>, k: Name, n: Node): Verdict {
    match n
    case Bucket(_) => Fails
    case Leaf(ptr) =>
      if ptr !in vals || !IsDoc(vals[ptr]) then Discard
      else
        match rd(vals[ptr][4..])
        case None => Fails
        case Some(v) => if KeyIn(v.keys, k) then Keep else Discard
  }

  /** The first pass over the entries of snap: those that do not lead to a value
      listing their key are deleted from idxs. */
  function IndexPass<P>(rd: Reader<P>, vals: map<Name, Name>, snap: Tree, idxs: Tree, ks: seq<Name>): Option<Tree>
    requires forall k :: k in ks ==> k in snap
    decreases |ks|
  {
    if ks == [] then Some(idxs)
    else
      match Judge(rd, vals, ks[0], snap[ks[0]])
      case Fails => None
      case Keep => IndexPass(rd, vals, snap, idxs, ks[1..])
      case Discard => IndexPass(rd, vals, snap, idxs - {ks[0]}, ks[1..])
  }

  /** The second pass: every key of every value is pointed to it, and missing buckets are made. */
  function ValuePass<P>(rd: Reader<P>, vals: map<Name, Name>, idxs: Tree, ks: seq<Name>): Option<Tree>
    requires forall k :: k in ks ==> k in vals
    decreases |ks|
  {
    if ks == [] then Some(idxs)
    else
      match rd(vals[ks[0]])
      case None => None
      case Some(v) =>
        match PutIndex(idxs, v.keys, PtrOf(v))
        case None => None
        case Some(idxs') => ValuePass(rd, vals, idxs', ks[1..])
  }

  /** The first pass over a whole index. */
  ghost function FirstPass<P>(rd: Reader<P>, raw: Raw): Option<Tree> {
    IndexPass(rd, raw.vals, raw.idxs, raw.idxs, Sorted(raw.idxs.Keys))
  }

  ghost function SecondPass<P>(rd: Reader<P>, raw: Raw): Option<Tree> {
    ValuePass(rd, raw.vals, raw.idxs, Sorted(raw.vals.Keys))
  }

  lemma {:induction false} IndexPassKeeps<P>(rd: Reader<P>, vals: map<Name, Name>, snap: Tree, idxs: Tree, ks: seq<Name>, k: Name)
    requires forall x :: x in ks ==> x in snap
    ensures IndexPass(rd, vals, snap, idxs, ks).Some? <==> forall x :: x in ks ==> !Judge(rd, vals, x, snap[x]).Fails?
    ensures IndexPass(rd, vals, snap, idxs, ks).Some? ==>
      var out := IndexPass(rd, vals, snap, idxs, ks).value;
      && (k in out <==> k in idxs && (k in ks ==> Judge(rd, vals, k, snap[k]).Keep?))
      && (k in out ==> out[k] == idxs[k])
    decreases |ks|
  {
    hide Judge;
    if ks != [] {
      assert forall x :: x in ks <==> x == ks[0] || x in ks[1..];
      IndexPassKeeps(rd, vals, snap, idxs, ks[1..], k);
      IndexPassKeeps(rd, vals, snap, idxs - {ks[0]}, ks[1..], k);
    }
  }

  lemma FirstPassJudges<P>(rd: Reader<P>, raw: Raw, k: Name)
    ensures FirstPass(rd, raw).Some? <==> forall x :: x in raw.idxs ==> !Judge(rd, raw.vals, x, raw.idxs[x]).Fails?
    ensures FirstPass(rd, raw).Some? ==>
      var out := FirstPass(rd, raw).value;
      && (k in out <==> k in raw.idxs && Judge(rd, raw.vals, k, raw.idxs[k]).Keep?)
      && (k in out ==> out[k] == raw.idxs[k])
  {
    hide Judge;
    var ks := Sorted(raw.idxs.Keys);
    assert forall x :: x in ks <==> x in raw.idxs;
    hide Sorted;
    IndexPassKeeps(rd, raw.vals, raw.idxs, raw.idxs, ks, k);
  }

  /** The entry leads to a stored document, tagged as one. */
  predicate LeadsToDoc(vals: map<Name, Name>, n: Node) {
    n.Leaf? && n.ptr in vals && |vals[n.ptr]| >= 4 && vals[n.ptr][..4] == [0x5F, 0x62, 0x73, 0x1F]
  }

  /** A nested bucket, or an entry whose document cannot be read. */
  predicate Blocks<P>(rd: Reader<P>, vals: map<Name, Name>, n: Node) {
    n.Bucket? || (LeadsToDoc(vals, n) && rd(vals[n.ptr][4..]).None?)
  }

  /** The value of the document that the entry leads to has a key that ends in k. */
  predicate GoodEntry<P>(rd: Reader<P>, vals: map<Name, Name>, k: Name, n: Node) {
    && LeadsToDoc(vals, n) && rd(vals[n.ptr][4..]).Some?
    && exists key :: key in rd(vals[n.ptr][4..]).value.keys && key != [] && ElemBytes(key[|key| - 1]) == k
  }

  lemma JudgeIs<P>(rd: Reader<P>, vals: map<Name, Name>, k: Name, n: Node)
    ensures Judge(rd, vals, k, n).Fails? <==> Blocks(rd, vals, n)
    ensures Judge(rd, vals, k, n).Keep? <==> GoodEntry(rd, vals, k, n)
  {
    if LeadsToDoc(vals, n) && rd(vals[n.ptr][4..]).Some? {
      var keys := rd(vals[n.ptr][4..]).value.keys;
      if KeyIn(keys, k) {
        var j :| 0 <= j < |keys| && EndsIn(keys[j], k);
        assert keys[j] in keys;
      }
      if GoodEntry(rd, vals, k, n) {
        var key :| key in keys && key != [] && ElemBytes(key[|key| - 1]) == k;
        var j :| 0 <= j < |keys| && keys[j] == key;
        assert EndsIn(keys[j], k);
      }
    }
  }

  /** From any state: the first pass goes through if and only if no entry is a
      nested bucket and every document that is pointed to can be read; and then
      it keeps exactly the entries that lead to a stored document listing them. */
  lemma FirstPassKeepsGoodEntries<P>(rd: Reader<P>, raw: Raw, k: Name)
    ensures FirstPass(rd, raw).Some? <==> forall x :: x in raw.idxs ==> !Blocks(rd, raw.vals, raw.idxs[x])
    ensures FirstPass(rd, raw).Some? ==>
      var out := FirstPass(rd, raw).value;
      && (k in out <==> k in raw.idxs && GoodEntry(rd, raw.vals, k, raw.idxs[k]))
      && (k in out ==> out[k] == raw.idxs[k])
  {
    hide Judge, Blocks, GoodEntry, FirstPass;
    FirstPassJudges(rd, raw, k);
    forall x | x in raw.idxs ensures Judge(rd, raw.vals, x, raw.idxs[x]).Fails? <==> Blocks(rd, raw.vals, raw.idxs[x]) {
      JudgeIs(rd, raw.vals, x, raw.idxs[x]);
    }
    if k in raw.idxs {
      JudgeIs(rd, raw.vals, k, raw.idxs[k]);
    }
  }

  /** No nested bucket. */
  predicate Flat(m: Tree) {
    forall k :: k in m ==> m[k].Leaf?
  }

  /** A collection with an index bucket, as keys of several elements need, can never be repaired. */
  lemma NestedKeysFail<P>(rd: Reader<P>, raw: Raw, key: K)
    requires |key| > 1 && HasBucket(raw.idxs, key)
    ensures FirstPass(rd, raw) == None
  {
    var p := Path(key);
    assert Find(raw.idxs, p[..|p| - 1]).Some? && p[..|p| - 1] != [];
    assert p[0] in raw.idxs && raw.idxs[p[0]].Bucket?;
    FirstPassJudges(rd, raw, p[0]);
  }

  /** Values under their own pointers, all of them readable. */
  ghost predicate Readable<P>(rd: Reader<P>, vals: map<Name, Name>) {
    forall p :: p in vals ==> rd(vals[p]).Some? && PtrOf(rd(vals[p]).value) == p
  }

  /** Among the values ks, p lists the path q. */
  ghost predicate ListedBy<P>(rd: Reader<P>, vals: map<Name, Name>, ks: seq<Name>, q: seq<Name>, p: Name) {
    p in ks && p in vals && rd(vals[p]).Some? && InKeys(rd(vals[p]).value.keys, q)
  }

  lemma ListedByStep<P>(rd: Reader<P>, vals: map<Name, Name>, ks: seq<Name>, q: seq<Name>)
    requires ks != []
    ensures forall p :: ListedBy(rd, vals, ks, q, p) <==> (p == ks[0] && ListedBy(rd, vals, [ks[0]], q, p)) || ListedBy(rd, vals, ks[1..], q, p)
  {
    hide InKeys;
    assert forall p :: p in ks <==> p == ks[0] || p in ks[1..];
  }

  /** When the second pass goes through, with keys of any length, every listed
      path is bound to a value that lists it and every other one is as before. */
  lemma {:induction false} ValuePassBinds<P>(rd: Reader<P>, vals: map<Name, Name>, idxs: Tree, ks: seq<Name>, q: seq<Name>)
    requires Readable(rd, vals) && q != [] && (forall x :: x in ks ==> x in vals)
    requires ValuePass(rd, vals, idxs, ks).Some?
    ensures var at := LeafAt(ValuePass(rd, vals, idxs, ks).value, q);
      if exists p :: ListedBy(rd, vals, ks, q, p) then at.Some? && ListedBy(rd, vals, ks, q, at.value)
      else at == LeafAt(idxs, q)
    decreases |ks|
  {
    hide InKeys, LeafAt, PutIndex, PtrOf;
    if ks != [] {
      var v := rd(vals[ks[0]]).value;
      PutIndexAt(idxs, v.keys, PtrOf(v), q);
      ValuePassBinds(rd, vals, PutIndex(idxs, v.keys, PtrOf(v)).value, ks[1..], q);
      ListedByStep(rd, vals, ks, q);
    }
  }

  /** All keys have one element. */
  predicate OneElement(keys: seq<K>) {
    forall j :: 0 <= j < |keys| ==> |keys[j]| == 1
  }

  ghost predicate OneElementKeys<P>(rd: Reader<P>, vals: map<Name, Name>) {
    forall p :: p in vals && rd(vals[p]).Some? ==> OneElement(rd(vals[p]).value.keys)
  }

  lemma {:induction false} PutIndexFlat(m: Tree, keys: seq<K>, ptr: Name)
    requires Flat(m) && OneElement(keys)
    ensures PutIndex(m, keys, ptr).Some? && Flat(PutIndex(m, keys, ptr).value)
    decreases |keys|
  {
    if keys != [] {
      assert |keys[0]| == 1;
      PutIndexFlat(m[Path(keys[0])[0] := Leaf(ptr)], keys[1..], ptr);
    }
  }

  /** On a flat index, values that can be read and keys of one element are all the second pass needs. */
  lemma {:induction false} ValuePassFlat<P>(rd: Reader<P>, vals: map<Name, Name>, idxs: Tree, ks: seq<Name>)
    requires Readable(rd, vals) && OneElementKeys(rd, vals) && Flat(idxs) && forall x :: x in ks ==> x in vals
    ensures ValuePass(rd, vals, idxs, ks).Some? && Flat(ValuePass(rd, vals, idxs, ks).value)
    decreases |ks|
  {
    hide OneElement, PutIndex, Flat, PtrOf;
    if ks != [] {
      var v := rd(vals[ks[0]]).value;
      PutIndexFlat(idxs, v.keys, PtrOf(v));
      ValuePassFlat(rd, vals, PutIndex(idxs, v.keys, PtrOf(v)).value, ks[1..]);
    }
  }

  /** The store that a raw collection holds. */
  ghost function Decoded<P>(rd: Reader<P>, raw: Raw): State<P>
    requires Readable(rd, raw.vals)
  {
    State(map p | p in raw.vals :: rd(raw.vals[p]).value, raw.idxs)
  }

  /** Two readers for the two passes, as if both stripped the tag: the first one
      gets the document, the second one the stored bytes. */
  ghost predicate BothRead<P>(first: Reader<P>, second: Reader<P>, vals: map<Name, Name>) {
    && Readable(second, vals) && OneElementKeys(second, vals)
    && forall p :: p in vals ==> IsDoc(vals[p]) && first(vals[p][4..]) == second(vals[p])
  }

  /** The index after both passes. */
  ghost function Repaired<P>(first: Reader<P>, second: Reader<P>, raw: Raw): Option<Tree> {
    match FirstPass(first, raw)
    case None => None
    case Some(idxs) => SecondPass(second, Raw(raw.vals, idxs))
  }

  /** What is at a path of a flat index. */
  lemma FlatAt(m: Tree, q: seq<Name>)
    requires Flat(m) && q != []
    ensures LeafAt(m, q) == if |q| == 1 && q[0] in m then Some(m[q[0]].ptr) else None
  {
  }

  /** If both passes read the documents correctly, then for keys of one element
      and from any flat index they go through; every entry then points to a value
      that lists it, and every listed key is bound. */
  lemma RepairBinds<P>(first: Reader<P>, second: Reader<P>, raw: Raw, q: seq<Name>)
    requires BothRead(first, second, raw.vals) && Flat(raw.idxs) && q != []
    ensures Repaired(first, second, raw).Some? && Flat(Repaired(first, second, raw).value)
    ensures var out := Repaired(first, second, raw).value;
      && (LeafAt(out, q).Some? ==> var p := LeafAt(out, q).value; p in raw.vals && InKeys(second(raw.vals[p]).value.keys, q))
      && (LeafAt(out, q).Some? <==> exists p :: p in raw.vals && InKeys(second(raw.vals[p]).value.keys, q))
  {
    hide InKeys, PtrOf, LeafAt, IsDoc, KeyIn, OneElement;
    FirstPassJudges(first, raw, q[0]);
    forall x | x in raw.idxs ensures !Judge(first, raw.vals, x, raw.idxs[x]).Fails? {}
    var idxs := FirstPass(first, raw).value;
    forall k | k in idxs ensures idxs[k].Leaf? {
      FirstPassJudges(first, raw, k);
    }
    var ks := Sorted(raw.vals.Keys);
    assert forall x :: x in ks <==> x in raw.vals;
    hide Sorted, ValuePass, IndexPass;
    ValuePassFlat(second, raw.vals, idxs, ks);
    ValuePassBinds(second, raw.vals, idxs, ks, q);
    assert forall p :: ListedBy(second, raw.vals, ks, q, p) <==> p in raw.vals && InKeys(second(raw.vals[p]).value.keys, q);
    FlatAt(idxs, q);
    if LeafAt(idxs, q).Some? {
      KeyInIsListed(second(raw.vals[idxs[q[0]].ptr]).value.keys, q);
    }
  }

  lemma KeyInIsListed(keys: seq<K>, q: seq<Name>)
    requires OneElement(keys) && |q| == 1 && KeyIn(keys, q[0])
    ensures InKeys(keys, q)
  {
    var j :| 0 <= j < |keys| && EndsIn(keys[j], q[0]);
    assert Path(keys[j]) == [ElemBytes(keys[j][0])];
    assert q == [q[0]];
  }

  /** Repair establishes the soundness of the store, from any flat index. */
  lemma RepairEstablishesInvariant<P(!new)>(first: Reader<P>, second: Reader<P>, raw: Raw)
    requires BothRead(first, second, raw.vals) && Flat(raw.idxs)
    ensures Repaired(first, second, raw).Some?
    ensures Sound(Decoded(second, Raw(raw.vals, Repaired(first, second, raw).value)))
  {
    hide InKeys, PtrOf, LeafAt, IsDoc, Repaired, Path, Flat;
    RepairBinds(first, second, raw, [[]]);
    var out := Repaired(first, second, raw).value;
    var st := Decoded(second, Raw(raw.vals, out));
    forall q: seq<Name> | q != [] && LeafAt(out, q).Some?
      ensures LeafAt(out, q).value in st.vals && Lists(st.vals[LeafAt(out, q).value], q)
    {
      RepairBinds(first, second, raw, q);
    }
    forall p, j | p in st.vals && 0 <= j < |st.vals[p].keys| ensures HasBucket(st.idxs, st.vals[p].keys[j]) {
      assert |st.vals[p].keys[j]| == 1;
    }
  }

  /** Two different values share no key. */
  ghost predicate UniqueKeys<P>(rd: Reader<P>, vals: map<Name, Name>)
    requires Readable(rd, vals)
  {
    forall p, p', q: seq<Name> ::
      p in vals && p' in vals && InKeys(rd(vals[p]).value.keys, q) && InKeys(rd(vals[p']).value.keys, q) ==> p == p'
  }

  /** With unique keys the repaired index is exact. */
  lemma RepairExact<P(!new)>(first: Reader<P>, second: Reader<P>, raw: Raw)
    requires BothRead(first, second, raw.vals) && Flat(raw.idxs) && UniqueKeys(second, raw.vals)
    ensures Repaired(first, second, raw).Some?
    ensures Exact(Decoded(second, Raw(raw.vals, Repaired(first, second, raw).value)))
  {
    hide InKeys, PtrOf, LeafAt, IsDoc, Repaired, Path, Flat;
    RepairBinds(first, second, raw, [[]]);
    var out := Repaired(first, second, raw).value;
    var st := Decoded(second, Raw(raw.vals, out));
    forall p, j | p in st.vals && 0 <= j < |st.vals[p].keys|
      ensures st.vals[p].keys[j] != [] && LeafAt(st.idxs, Path(st.vals[p].keys[j])) == Some(p)
    {
      var q := Path(st.vals[p].keys[j]);
      assert |st.vals[p].keys[j]| == 1;
      InOwnKeys(st.vals[p].keys, j);
      RepairBinds(first, second, raw, q);
    }
  }

  /** Running the check on a repaired index changes nothing. */
  lemma RepairIdempotent<P>(first: Reader<P>, second: Reader<P>, raw: Raw)
    requires BothRead(first, second, raw.vals) && Flat(raw.idxs) && UniqueKeys(second, raw.vals)
    ensures Repaired(first, second, raw).Some?
    ensures var once := Raw(raw.vals, Repaired(first, second, raw).value);
      Repaired(first, second, once) == Some(once.idxs)
  {
    hide InKeys, PtrOf, LeafAt, IsDoc, Repaired;
    RepairBinds(first, second, raw, [[]]);
    var once := Raw(raw.vals, Repaired(first, second, raw).value);
    RepairBinds(first, second, once, [[]]);
    var twice := Repaired(first, second, once).value;
    forall k ensures (k in twice <==> k in once.idxs) && (k in twice ==> twice[k] == once.idxs[k]) {
      RepairBinds(first, second, raw, [k]);
      RepairBinds(first, second, once, [k]);
      FlatAt(once.idxs, [k]);
      FlatAt(twice, [k]);
    }
    assert twice == once.idxs;
  }

  /** The tag of a stored document, taken for the length of a document. */
  const TAG_AS_LENGTH: int := 0x1F73_625F

  /** Tagged bytes do not decode as a document: the tag reads as a length beyond their end. */
  lemma TaggedIsCorrupt(b: Name)
    requires IsDoc(b) && |b| < TAG_AS_LENGTH
    ensures BsonDecode.ReadDoc(b, 0) == BsonDecode.Corrupt
  {
    assert b[0..4] == DOC_TAG;
    assert U32(DOC_TAG) == TAG_AS_LENGTH;
    assert Wrap32(TAG_AS_LENGTH) == TAG_AS_LENGTH;
    assert BsonDecode.ReadBytes(b, 0, 4) == BsonDecode.Got(DOC_TAG, 4);
    assert BsonDecode.ReadInt32(b, 0) == BsonDecode.Got(TAG_AS_LENGTH, 4);
    assert BsonDecode.ReadEnd(b, 0) == BsonDecode.Corrupt;
  }

  /** A reader that decodes its input as a document, and so fails where decoding does. */
  ghost predicate Decodes<P>(rd: Reader<P>) {
    forall b: Name :: BsonDecode.ReadDoc(b, 0) == BsonDecode.Corrupt ==> rd(b) == None
  }

  /** Everything in the table was written by a put, and is not enormous. */
  predicate TableOfPuts(vals: map<Name, Name>) {
    forall p :: p in vals ==> IsDoc(vals[p]) && |vals[p]| < TAG_AS_LENGTH
  }

  /** Every value of the table, read the way a lookup of everything reads them. */
  function ReadAll<P>(rd: Reader<P>, vals: map<Name, Name>, ks: seq<Name>): Option<seq<Record<P>>>
    requires forall k :: k in ks ==> k in vals
    decreases |ks|
  {
    if ks == [] then Some([])
    else if !IsPointer(vals[ks[0]]) && !IsDoc(vals[ks[0]]) then ReadAll(rd, vals, ks[1..])
    else
      match rd(if IsPointer(vals[ks[0]]) then vals[ks[0]] else vals[ks[0]][4..])
      case None => None
      case Some(v) =>
        match ReadAll(rd, vals, ks[1..])
        case None => None
        case Some(vs) => Some([v] + vs)
  }

  /** The values that the validator of the collection, if it has one, wants deleted. */
  ghost function Obsolete<P>(rd: Reader<P>, validate: Option<Validator<P>>, vals: map<Name, Name>): Option<seq<Record<P>>> {
    match ReadAll(rd, vals, Sorted(vals.Keys))
    case None => None
    case Some(all) => if all == [] || validate.None? then Some([]) else validate.value(all)
  }

  function DeleteAll<P>(raw: Raw, ds: seq<Record<P>>): Option<Raw>
    decreases |ds|
  {
    if ds == [] then Some(raw)
    else
      match DelIndex(raw.idxs, ds[0].keys)
      case None => None
      case Some(m) => DeleteAll(Raw(raw.vals - {PtrOf(ds[0])}, m), ds[1..])
  }

  /** Fsck: obsolete values are deleted, and that is all if there are any.
      Otherwise come the two passes, of which the first one strips the tag before
      decoding and the second one does not. What fails leaves everything as it was. */
  ghost function Fsck<P>(rd: Reader<P>, validate: Option<Validator<P>>, raw: Raw): Option<Raw> {
    match Obsolete(rd, validate, raw.vals)
    case None => None
    case Some(ds) =>
      if ds != [] then DeleteAll(raw, ds)
      else
        match Repaired(rd, rd, raw)
        case None => None
        case Some(idxs) => Some(Raw(raw.vals, idxs))
  }

  /** On tables written by puts the two passes go through if and only if there is
      no value at all and no bucket in the index, which they then empty. */
  lemma RepairedIffEmpty<P>(rd: Reader<P>, raw: Raw)
    requires Decodes(rd) && TableOfPuts(raw.vals)
    ensures Repaired(rd, rd, raw).Some? <==> raw.vals == map[] && Flat(raw.idxs)
    ensures raw.vals == map[] && Flat(raw.idxs) ==> Repaired(rd, rd, raw) == Some(map[])
  {
    hide KeyIn, IsDoc, BsonDecode.ReadDoc, PutIndex, IndexPass;
    var any: Name := [];
    FirstPassJudges(rd, raw, any);
    if raw.vals != map[] {
      var p :| p in raw.vals;
      var ks := Sorted(raw.vals.Keys);
      assert p in ks;
      TaggedIsCorrupt(raw.vals[ks[0]]);
    } else if Flat(raw.idxs) {
      hide Sorted;
      SortedEmpty();
      var idxs := FirstPass(rd, raw).value;
      forall k: Name ensures k !in idxs {
        FirstPassJudges(rd, raw, k);
      }
      assert idxs == map[];
      assert raw.vals.Keys == {};
    } else {
      var k :| k in raw.idxs && !raw.idxs[k].Leaf?;
      assert Judge(rd, raw.vals, k, raw.idxs[k]).Fails?;
    }
  }

  /** When the whole check succeeds on a table written by puts: if its validator
      finds obsolete values, exactly when their index entries can be deleted; and
      otherwise only if there is no value at all and no bucket in the index. */
  lemma FsckSucceedsIff<P>(rd: Reader<P>, validate: Option<Validator<P>>, raw: Raw)
    requires Decodes(rd) && TableOfPuts(raw.vals)
    ensures Fsck(rd, validate, raw).Some? <==>
      match Obsolete(rd, validate, raw.vals)
      case None => false
      case Some(ds) => if ds != [] then DeleteAll(raw, ds).Some? else raw.vals == map[] && Flat(raw.idxs)
  {
    hide Obsolete, DeleteAll, Repaired, Decodes, TableOfPuts;
    RepairedIffEmpty(rd, raw);
  }

  /** Without a validator: only on an empty table. */
  lemma FsckSucceedsIffEmpty<P>(rd: Reader<P>, raw: Raw)
    requires Decodes(rd) && TableOfPuts(raw.vals)
    ensures Fsck(rd, None, raw).Some? <==> raw.vals == map[] && Flat(raw.idxs)
  {
    hide Repaired, Decodes, TableOfPuts;
    RepairedIffEmpty(rd, raw);
    if raw.vals == map[] {
      SortedEmpty();
      assert raw.vals.Keys == {};
    }
  }

  /** fsckIndexPass: a cursor over the top of the index that deletes as it goes. */
  method RunIndexPass<P>(rd: Reader<P>, raw: Raw) returns (r: Option<Tree>)
    ensures r == FirstPass(rd, raw)
  {
    hide Judge;
    var ks := CursorKeys(raw.idxs.Keys);
    assert forall x :: x in ks <==> x in raw.idxs;
    hide Sorted;
    var idxs := raw.idxs;
    for i := 0 to |ks|
      invariant IndexPass(rd, raw.vals, raw.idxs, raw.idxs, ks) == IndexPass(rd, raw.vals, raw.idxs, idxs, ks[i..])
    {
      assert ks[i..][1..] == ks[i + 1..];
      match Judge(rd, raw.vals, ks[i], raw.idxs[ks[i]])
      case Fails => return None;
      case Keep =>
      case Discard => idxs := idxs - {ks[i]};
    }
    r := Some(idxs);
  }

  /** Storing what is there already changes nothing. */
  lemma {:induction false} PutLeafSame(m: Tree, path: seq<Name>, ptr: Name)
    requires path != [] && LeafAt(m, path) == Some(ptr) && forall i :: 0 <= i < |path| ==> path[i] != []
    ensures PutLeaf(m, path, ptr) == Some(m)
    decreases |path|
  {
    var k := path[0];
    assert m[k := m[k]] == m;
    if |path| > 1 {
      PutLeafSame(m[k].entries, path[1..], ptr);
    }
  }

  /** The loop over one value's keys; keys that already lead to the value are left alone. */
  method RunFixKeys(idxs0: Tree, keys: seq<K>, ptr: Name) returns (r: Option<Tree>)
    ensures r == PutIndex(idxs0, keys, ptr)
  {
    hide LeafAt, PutLeaf, ElemBytes;
    var idxs := idxs0;
    assert keys[0..] == keys;
    for i := 0 to |keys|
      invariant PutIndex(idxs0, keys, ptr) == PutIndex(idxs, keys[i..], ptr)
    {
      assert keys[i..][1..] == keys[i + 1..];
      if keys[i] == [] {
        return None;
      }
      var p := Path(keys[i]);
      if LeafAt(idxs, p) != Some(ptr) {
        var put := PutLeaf(idxs, p, ptr);
        if put.None? {
          return None;
        }
        idxs := put.value;
      } else {
        PutLeafSame(idxs, p, ptr);
      }
    }
    r := Some(idxs);
  }

  /** fsckValuePass: a cursor over the values. */
  method RunValuePass<P>(rd: Reader<P>, raw: Raw) returns (r: Option<Tree>)
    ensures r == SecondPass(rd, raw)
  {
    hide PutIndex, PtrOf;
    var ks := CursorKeys(raw.vals.Keys);
    assert forall x :: x in ks <==> x in raw.vals;
    hide Sorted;
    var idxs := raw.idxs;
    for i := 0 to |ks|
      invariant ValuePass(rd, raw.vals, raw.idxs, ks) == ValuePass(rd, raw.vals, idxs, ks[i..])
    {
      assert ks[i..][1..] == ks[i + 1..];
      var v := rd(raw.vals[ks[i]]);
      if v.None? {
        return None;
      }
      var fixed := RunFixKeys(idxs, v.value.keys, PtrOf(v.value));
      if fixed.None? {
        return None;
      }
      idxs := fixed.value;
    }
    r := Some(idxs);
  }

  /** The lookup of all values. */
  method RunReadAll<P>(rd: Reader<P>, vals: map<Name, Name>) returns (r: Option<seq<Record<P>>>)
    ensures r == ReadAll(rd, vals, Sorted(vals.Keys))
  {
    var ks := CursorKeys(vals.Keys);
    assert forall x :: x in ks <==> x in vals;
    hide Sorted, IsPointer, IsDoc, ReadAll, Behind;
    var all: seq<Record<P>> := [];
    assert ks[0..] == ks;
    BehindNothing(ReadAll(rd, vals, ks));
    for i := 0 to |ks|
      invariant ReadAll(rd, vals, ks) == Behind(all, ReadAll(rd, vals, ks[i..]))
    {
      ReadAllStep(rd, vals, ks, i);
      BehindFailure(all);
      var data := vals[ks[i]];
      if IsPointer(data) || IsDoc(data) {
        var v := rd(if IsPointer(data) then data else data[4..]);
        if v.None? {
          return None;
        }
        BehindOne(all, v.value, ReadAll(rd, vals, ks[i + 1..]));
        all := all + [v.value];
      }
    }
    ReadAllEnd(rd, vals, ks, all);
    r := Some(all);
  }

  lemma ReadAllStep<P>(rd: Reader<P>, vals: map<Name, Name>, ks: seq<Name>, i: nat)
    requires (forall k :: k in ks ==> k in vals) && i < |ks|
    ensures var data := vals[ks[i]];
      ReadAll(rd, vals, ks[i..]) ==
        if !IsPointer(data) && !IsDoc(data) then ReadAll(rd, vals, ks[i + 1..])
        else
          var v := rd(if IsPointer(data) then data else data[4..]);
          if v.None? then None else Behind([v.value], ReadAll(rd, vals, ks[i + 1..]))
  {
    assert ks[i..][1..] == ks[i + 1..];
  }

  lemma ReadAllEnd<P>(rd: Reader<P>, vals: map<Name, Name>, ks: seq<Name>, all: seq<Record<P>>)
    requires forall k :: k in ks ==> k in vals
    ensures Behind(all, ReadAll(rd, vals, ks[|ks|..])) == Some(all)
  {
    assert all + [] == all;
  }

  lemma BehindFailure<P>(all: seq<Record<P>>)
    ensures Behind(all, None) == None
  {
  }

  /** The values already read go in front of those still to be read. */
  function Behind<P>(all: seq<Record<P>>, rest: Option<seq<Record<P>>>): Option<seq<Record<P>>> {
    match rest
    case None => None
    case Some(vs) => Some(all + vs)
  }

  lemma BehindNothing<P>(rest: Option<seq<Record<P>>>)
    ensures Behind([], rest) == rest
  {
    assert rest.Some? ==> [] + rest.value == rest.value;
  }

  lemma BehindOne<P>(all: seq<Record<P>>, v: Record<P>, rest: Option<seq<Record<P>>>)
    ensures Behind(all + [v], rest) == Behind(all, Behind([v], rest))
  {
    assert rest.Some? ==> all + [v] + rest.value == all + ([v] + rest.value);
  }

  /** The transaction that deletes obsolete values. */
  method RunDeleteAll<P>(raw0: Raw, ds: seq<Record<P>>) returns (r: Option<Raw>)
    ensures r == DeleteAll(raw0, ds)
  {
    hide DelIndex, PtrOf;
    var raw := raw0;
    for i := 0 to |ds|
      invariant DeleteAll(raw0, ds) == DeleteAll(raw, ds[i..])
    {
      assert ds[i..][1..] == ds[i + 1..];
      var m := DelIndex(raw.idxs, ds[i].keys);
      if m.None? {
        return None;
      }
      raw := Raw(raw.vals - {PtrOf(ds[i])}, m.value);
    }
    r := Some(raw);
  }

  /** Fsck. */
  method RunFsck<P>(rd: Reader<P>, validate: Option<Validator<P>>, raw: Raw) returns (r: Option<Raw>)
    ensures r == Fsck(rd, validate, raw)
  {
    hide FirstPass, SecondPass, ReadAll, DeleteAll, Sorted;
    var all := RunReadAll(rd, raw.vals);
    if all.None? {
      return None;
    }
    if |all.value| > 0 && validate.Some? {
      var ds := validate.value(all.value);
      if ds.None? {
        return None;
      }
      if |ds.value| > 0 {
        r := RunDeleteAll(raw, ds.value);
        return;
      }
    }
    var first := RunIndexPass(rd, raw);
    if first.None? {
      return None;
    }
    var second := RunValuePass(rd, Raw(raw.vals, first.value));
    if second.None? {
      return None;
    }
    r := Some(Raw(raw.vals, second.value));
  }
}
