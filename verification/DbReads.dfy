/** What is read after what was written. */
module DbReads {
  import opened Wrappers
  import opened Bytes
  import opened ByteOrder
  import opened DbKeys
  import opened BsonValue
  import opened DbBuckets
  import opened DbStore
  import opened DbRuns
  import DbPrefixFree

  /** Two ids never share a pointer. */
  lemma PointersDiffer(id: Name, id': Name)
    ensures Pointer(id) == Pointer(id') <==> id == id'
  {
    assert Pointer(id)[4..] == id && Pointer(id')[4..] == id';
  }

  lemma GetIs<P>(st: State<P>, id: Name)
    ensures Get(st, [ID(id)]) == Some(if Pointer(id) in st.vals then Some(st.vals[Pointer(id)]) else None)
  {
    PointerIsPointer(id);
    assert ElemBytes(ID(id)) == Pointer(id);
    assert Path([ID(id)])[0] == Pointer(id);
  }

  lemma PutTxReads<P>(st: State<P>, v: Record<P>, id: Name)
    requires PutTx(st, v).Some?
    ensures Get(PutTx(st, v).value, [ID(id)]) == if id == v.id then Some(Some(v)) else Get(st, [ID(id)])
  {
    hide Get, Pointer, PutIndex, DelIndex;
    PointersDiffer(id, v.id);
    GetIs(st, id);
    GetIs(PutTx(st, v).value, id);
  }

  /** After a put the id reads as the value that was put, whatever it was
      before, and every other id reads as before. */
  lemma PutReads<P>(st: State<P>, v: Record<P>, id: Name)
    requires Put(st, v).Some?
    ensures Get(Put(st, v).value, [ID(v.id)]) == Some(Some(v))
    ensures id != v.id ==> Get(Put(st, v).value, [ID(id)]) == Get(st, [ID(id)])
  {
    hide Get, PutTx;
    PutTxReads(st, v, v.id);
    PutTxReads(st, v, id);
  }

  /** The last value of a batch with the given id. */
  function LastOf<P>(vs: seq<Record<P>>, id: Name): Option<Record<P>> {
    if vs == [] then None
    else if vs[|vs| - 1].id == id then Some(vs[|vs| - 1])
    else LastOf(vs[..|vs| - 1], id)
  }

  predicate IsLastOf<P>(vs: seq<Record<P>>, id: Name, j: nat) {
    j < |vs| && vs[j].id == id && forall i :: j < i < |vs| ==> vs[i].id != id
  }

  lemma {:induction false} LastOfIs<P>(vs: seq<Record<P>>, id: Name, j: nat)
    requires IsLastOf(vs, id, j)
    ensures LastOf(vs, id) == Some(vs[j])
    decreases |vs|
  {
    if j < |vs| - 1 {
      LastOfIs(vs[..|vs| - 1], id, j);
    }
  }

  lemma {:induction false} LastOfNone<P>(vs: seq<Record<P>>, id: Name)
    ensures LastOf(vs, id).None? <==> forall j :: 0 <= j < |vs| ==> vs[j].id != id
    decreases |vs|
  {
    if vs != [] && vs[|vs| - 1].id != id {
      var init := vs[..|vs| - 1];
      LastOfNone(init, id);
      forall j | 0 <= j < |vs| && LastOf(vs, id).None? ensures vs[j].id != id {
        if j < |init| {
          assert init[j] == vs[j];
        }
      }
    }
  }

  lemma {:induction false} LastOfRest<P>(vs: seq<Record<P>>, id: Name)
    requires vs != []
    ensures LastOf(vs, id) ==
      if LastOf(vs[1..], id).Some? then LastOf(vs[1..], id) else if vs[0].id == id then Some(vs[0]) else None
    decreases |vs|
  {
    if |vs| > 1 && vs[|vs| - 1].id != id {
      LastOfRest(vs[..|vs| - 1], id);
      assert vs[..|vs| - 1][1..] == vs[1..][..|vs| - 2];
    }
  }

  lemma {:induction false} PutAllReads<P>(st: State<P>, vs: seq<Record<P>>, id: Name)
    requires PutAll(st, vs).Some?
    ensures Get(PutAll(st, vs).value, [ID(id)]) ==
      if LastOf(vs, id).Some? then Some(LastOf(vs, id)) else Get(st, [ID(id)])
    decreases |vs|
  {
    hide Get, PutTx, LastOf;
    if vs == [] {
      NoneOf<P>(id);
    } else {
      LastOfRest(vs, id);
      PutTxReads(st, vs[0], id);
      PutAllReads(PutTx(st, vs[0]).value, vs[1..], id);
    }
  }

  lemma NoneOf<P>(id: Name)
    ensures LastOf<P>([], id) == None
  {
  }

  /** After a batch an id reads as the last value of the batch that has it, and as before if none has. */
  lemma BatchReads<P>(st: State<P>, vs: seq<Record<P>>, id: Name)
    requires BatchPut(st, vs).Some?
    ensures (forall j :: 0 <= j < |vs| ==> vs[j].id != id) ==> Get(BatchPut(st, vs).value, [ID(id)]) == Get(st, [ID(id)])
    ensures forall j: nat :: IsLastOf(vs, id, j) ==> Get(BatchPut(st, vs).value, [ID(id)]) == Some(Some(vs[j]))
  {
    hide Get, PutAll, LastOf;
    PutAllReads(st, vs, id);
    LastOfNone(vs, id);
    forall j: nat | IsLastOf(vs, id, j) ensures Get(BatchPut(st, vs).value, [ID(id)]) == Some(Some(vs[j])) {
      LastOfIs(vs, id, j);
    }
  }

  /** After a deletion the id reads as nothing, and every other id as before. */
  lemma DelReads<P>(st: State<P>, v: Record<P>, id: Name)
    requires Del(st, v).Some?
    ensures Get(Del(st, v).value, [ID(v.id)]) == Some(None)
    ensures id != v.id ==> Get(Del(st, v).value, [ID(id)]) == Get(st, [ID(id)])
  {
    hide Get, Pointer, DelIndex;
    PointersDiffer(id, v.id);
    GetIs(st, id);
    GetIs(Del(st, v).value, id);
    GetIs(Del(st, v).value, v.id);
  }

  /** The empty key alone is an error; whatever else is not there reads as nothing,
      and it reads as nothing if and only if no live value lists it. */
  lemma GetNothingIff<P(!new)>(st: State<P>, key: K)
    requires Sound(st) && Exact(st)
    ensures Get(st, key) == None <==> key == []
    ensures Indexed(key) ==>
      (Get(st, key) == Some(None) <==> forall p :: p in st.vals ==> !Lists(st.vals[p], Path(key)))
  {
    hide LeafAt, Path, InKeys, PtrOf, IsPointer, HasBucket;
    if Indexed(key) {
      forall p | p in st.vals && Lists(st.vals[p], Path(key)) ensures Get(st, key) == Some(Some(st.vals[p])) {
        GetFindsTheLister(st, key, st.vals[p]);
      }
      if Get(st, key) != Some(None) {
        GetIsSound(st, key);
      }
    }
  }

  /** A key that is looked up through the index. */
  predicate Indexed(key: K) {
    key != [] && (|key| > 1 || !IsPointer(Path(key)[0]))
  }

  /** After a put every key of the value leads to it, whatever it led to before. */
  lemma PutReadsByKey<P>(st: State<P>, v: Record<P>, j: nat)
    requires Put(st, v).Some? && j < |v.keys| && Indexed(v.keys[j])
    ensures Get(Put(st, v).value, v.keys[j]) == Some(Some(v))
  {
    hide LeafAt, DelIndex, PutIndex, InKeys, Path, PtrOf, IsPointer;
    var ptr := PtrOf(v);
    var m := (if ptr in st.vals then DelIndex(st.idxs, st.vals[ptr].keys) else Some(st.idxs)).value;
    PutIndexAt(m, v.keys, ptr, Path(v.keys[j]));
    InOwnKeys(v.keys, j);
  }

  /** After deleting a stored value none of its keys leads anywhere. */
  lemma DelReadsByKey<P(!new)>(st: State<P>, v: Record<P>, j: nat)
    requires Sound(st) && PtrOf(v) in st.vals && DelOfStored(st, v)
    requires Del(st, v).Some? && j < |v.keys| && Indexed(v.keys[j])
    ensures Get(Del(st, v).value, v.keys[j]) == Some(None)
  {
    hide LeafAt, DelIndex, InKeys, Path, PtrOf, IsPointer, HasBucket;
    DelIndexAt(st.idxs, v.keys, Path(v.keys[j]));
    InOwnKeys(v.keys, j);
  }

  /** The operation writes or deletes a value with the id. */
  predicate Touches<P>(op: Op<P>, id: Name) {
    match op
    case DoPut(v) => v.id == id
    case DoBatch(vs) => exists j :: 0 <= j < |vs| && vs[j].id == id
    case DoDel(v) => v.id == id
  }

  /** What it leaves under the id. */
  function Leaves<P>(op: Op<P>, id: Name): Option<Record<P>>
    requires Touches(op, id)
  {
    match op
    case DoPut(v) => Some(v)
    case DoBatch(vs) => LastOf(vs, id)
    case DoDel(_) => None
  }

  /** The i-th operation of a run goes through and has to do with the id. */
  predicate Effective<P>(ops: seq<Op<P>>, i: nat, id: Name)
    requires i < |ops|
  {
    DbPrefixFree.Succeeds(Run(Empty<P>(), ops[..i]), ops[i]) && Touches(ops[i], id)
  }

  lemma ApplyReads<P>(st: State<P>, op: Op<P>, id: Name)
    ensures Get(Apply(st, op), [ID(id)]) ==
      if DbPrefixFree.Succeeds(st, op) && Touches(op, id) then Some(Leaves(op, id)) else Get(st, [ID(id)])
  {
    hide Get, PutTx, PutAll, DelIndex, ValidKeys, LastOf;
    match op
    case DoPut(v) => if Put(st, v).Some? { PutReads(st, v, id); }
    case DoBatch(vs) =>
      if BatchPut(st, vs).Some? {
        PutAllReads(st, vs, id);
        TouchesIff(vs, id);
      }
    case DoDel(v) => if Del(st, v).Some? { DelReads(st, v, id); }
  }

  lemma TouchesIff<P>(vs: seq<Record<P>>, id: Name)
    ensures LastOf(vs, id).Some? <==> Touches(DoBatch(vs), id)
  {
    hide LastOf;
    LastOfNone(vs, id);
  }

  lemma {:induction false} RunSnoc<P>(st: State<P>, ops: seq<Op<P>>)
    requires ops != []
    ensures Run(st, ops) == Apply(Run(st, ops[..|ops| - 1]), ops[|ops| - 1])
    decreases |ops|
  {
    hide Apply;
    if |ops| > 1 {
      RunSnoc(Apply(st, ops[0]), ops[1..]);
      assert ops[1..][..|ops| - 2] == ops[..|ops| - 1][1..];
    } else {
      assert ops[1..] == [];
    }
  }

  /** An id that no operation of the run wrote reads as nothing. */
  lemma {:induction false} NeverWritten<P>(ops: seq<Op<P>>, id: Name)
    requires forall i :: 0 <= i < |ops| ==> !Effective(ops, i, id)
    ensures Get(Run(Empty<P>(), ops), [ID(id)]) == Some(None)
    decreases |ops|
  {
    hide Get, Run, Touches, DbPrefixFree.Succeeds;
    if ops == [] {
      EmptyRun<P>(id);
      RunNothing(Empty<P>());
    } else {
      var init := ops[..|ops| - 1];
      RunSnoc(Empty<P>(), ops);
      ApplyReads(Run(Empty<P>(), init), ops[|ops| - 1], id);
      forall i | 0 <= i < |init| ensures !Effective(init, i, id) {
        assert init[..i] == ops[..i] && !Effective(ops, i, id);
      }
      assert !Effective(ops, |ops| - 1, id);
      NeverWritten(init, id);
    }
  }

  lemma EmptyRun<P>(id: Name)
    ensures Get(Empty<P>(), [ID(id)]) == Some(None)
  {
    GetIs(Empty<P>(), id);
  }

  lemma RunNothing<P>(st: State<P>)
    ensures Run(st, []) == st
  {
  }

  /** After every run an id reads as what the last successful operation on it
      left: the value that was put, the last one in a batch, or nothing. */
  lemma {:induction false} RunReads<P>(ops: seq<Op<P>>, i: nat, id: Name)
    requires i < |ops| && Effective(ops, i, id)
    requires forall j :: i < j < |ops| ==> !Effective(ops, j, id)
    ensures Get(Run(Empty<P>(), ops), [ID(id)]) == Some(Leaves(ops[i], id))
    decreases |ops|
  {
    hide Get, Run, Touches, DbPrefixFree.Succeeds, Leaves;
    var init := ops[..|ops| - 1];
    RunSnoc(Empty<P>(), ops);
    ApplyReads(Run(Empty<P>(), init), ops[|ops| - 1], id);
    if i < |ops| - 1 {
      assert init[..i] == ops[..i];
      forall j | i < j < |init| ensures !Effective(init, j, id) {
        assert init[..j] == ops[..j] && !Effective(ops, j, id);
      }
      assert !Effective(ops, |ops| - 1, id);
      RunReads(init, i, id);
    }
  }

  /** Storing an edited value under its old id, and reading it: the collection as an object. */
  method Edit<P(==)>(b: IndexedBucket<P>, v: Record<P>) returns (ok: bool, r: Option<Option<Record<P>>>)
    modifies b
    ensures ok ==> r == Some(Some(v))
    ensures !ok ==> b.vals == old(b.vals) && b.idxs == old(b.idxs)
  {
    hide Get, Put;
    ok := b.Store(v);
    if ok {
      PutReads(old(State(b.vals, b.idxs)), v, v.id);
    }
    r := b.Lookup([ID(v.id)]);
  }

  lemma LastByte(q: nat, r: byte, len: nat)
    ensures BigEndian(256 * q + r, len + 1) == BigEndian(q, len) + [r]
  {
    assert (256 * q + r) / 256 == q && (256 * q + r) % 256 == r;
  }

  lemma EightBytes(a: byte, b: byte, c: byte, d: byte, e: byte, f: byte, g: byte, h: byte)
    ensures var n := 256 * (256 * (256 * (256 * (256 * (256 * (256 * a + b) + c) + d) + e) + f) + g) + h;
      BigEndian(n, 8) == [a, b, c, d, e, f, g, h]
  {
    hide BigEndian;
    var n2 := 256 * a + b;
    var n3 := 256 * n2 + c;
    var n4 := 256 * n3 + d;
    var n5 := 256 * n4 + e;
    var n6 := 256 * n5 + f;
    NoBytes();
    LastByte(0, a, 0);
    LastByte(a, b, 1);
    LastByte(n2, c, 2);
    LastByte(n3, d, 3);
    LastByte(n4, e, 4);
    LastByte(n5, f, 5);
    LastByte(n6, g, 6);
    LastByte(256 * n6 + g, h, 7);
  }

  lemma NoBytes()
    ensures BigEndian(0, 0) == []
  {
  }

  /** The bytes of texts, ids and flags in a key. */
  lemma KeyBytes(name: Name, text: Name, id: Name, flag: bool)
    ensures ElemBytes(S(name, text)) == name + [0x1F] + text
    ensures ElemBytes(ID(id)) == [0x5F, 0x69, 0x64, 0x1F] + id
    ensures ElemBytes(T(name, flag)) == name + [0x1F, if flag then 0xFF else 0x00]
  {
  }

  /** The eight bytes of an integer in a key, the most significant first. */
  lemma IntegerKeyBytes(name: Name, a: byte, b: byte, c: byte, d: byte, e: byte, f: byte, g: byte, h: byte)
    ensures var n := 256 * (256 * (256 * (256 * (256 * (256 * (256 * a + b) + c) + d) + e) + f) + g) + h;
      ElemBytes(I(name, n)) == name + [0x1F, a, b, c, d, e, f, g, h]
  {
    hide BigEndian;
    EightBytes(a, b, c, d, e, f, g, h);
  }

  /** A time is the integer of its milliseconds since 1970, those before wrapped
      to 64 bits and fractions of a millisecond rounded down. */
  lemma TimeKeyBytes(name: Name, sec: i64, nsec: nat, millis: int)
    requires nsec < 1_000_000_000 && 0 <= 1_000_000_000 * sec + nsec - 1_000_000 * millis < 1_000_000
    ensures ElemBytes(TS(name, sec, nsec)) == ElemBytes(I(name, millis % 0x1_0000_0000_0000_0000))
  {
    hide BigEndian;
    assert sec * 1000 + nsec / 1_000_000 == millis;
    assert Wrap64(millis) % TWO64 == millis % TWO64;
  }

  /** What counts as a pointer: whatever begins as the bytes of an id do. */
  lemma PointerIff(b: Name)
    ensures IsPointer(b) <==> exists id :: b == ElemBytes(ID(id))
  {
    if IsPointer(b) {
      assert b == ElemBytes(ID(b[4..]));
    }
    if id :| b == ElemBytes(ID(id)) {
      PointerIsPointer(id);
    }
  }
}
