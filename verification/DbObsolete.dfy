/** What the consistency check deletes when a collection calls values obsolete. */
module DbObsolete {
  import opened Wrappers
  import opened Bytes
  import opened ByteOrder
  import opened DbKeys
  import opened DbBuckets
  import opened DbStore
  import opened DbScan
  import opened DbFsck

  /** A table of documents that all can be read. */
  ghost predicate Tabled<P>(rd: Reader<P>, vals: map<Name, Name>) {
    forall p :: p in vals ==> IsDoc(vals[p]) && rd(vals[p][4..]).Some?
  }

  /** The store that such a collection holds. */
  ghost function Stored<P>(rd: Reader<P>, raw: Raw): State<P>
    requires Tabled(rd, raw.vals)
  {
    State(map p | p in raw.vals :: rd(raw.vals[p][4..]).value, raw.idxs)
  }

  /** Everything that is stored is read, in key order. */
  lemma {:induction false} ReadAllIs<P>(rd: Reader<P>, vals: map<Name, Name>, ks: seq<Name>)
    requires (forall k :: k in ks ==> k in vals) && Tabled(rd, vals)
    ensures ReadAll(rd, vals, ks).Some? && |ReadAll(rd, vals, ks).value| == |ks|
    ensures forall i :: 0 <= i < |ks| ==> Some(ReadAll(rd, vals, ks).value[i]) == rd(vals[ks[i]][4..])
    decreases |ks|
  {
    hide IsDoc;
    if ks != [] {
      ReadAllIs(rd, vals, ks[1..]);
      assert ks[0] in ks;
      DocIsNoPointer(vals[ks[0]]);
    }
  }

  lemma DocIsNoPointer(b: Name)
    requires IsDoc(b)
    ensures !IsPointer(b)
  {
    assert b[..4][1] == 0x62;
  }

  /** One of the values lists the path. */
  ghost predicate SomeLists<P>(ds: seq<Record<P>>, q: seq<Name>) {
    exists i :: 0 <= i < |ds| && Lists(ds[i], q)
  }

  ghost predicate SomeHasPointer<P>(ds: seq<Record<P>>, p: Name) {
    exists i :: 0 <= i < |ds| && PtrOf(ds[i]) == p
  }

  lemma SomeStep<P>(ds: seq<Record<P>>, q: seq<Name>, p: Name)
    requires ds != []
    ensures SomeLists(ds, q) <==> Lists(ds[0], q) || SomeLists(ds[1..], q)
    ensures SomeHasPointer(ds, p) <==> PtrOf(ds[0]) == p || SomeHasPointer(ds[1..], p)
  {
    hide InKeys, PtrOf;
    if SomeLists(ds, q) && !Lists(ds[0], q) {
      var i :| 0 <= i < |ds| && Lists(ds[i], q);
      assert ds[1..][i - 1] == ds[i];
    }
    if SomeLists(ds[1..], q) {
      var i :| 0 <= i < |ds[1..]| && Lists(ds[1..][i], q);
      assert ds[i + 1] == ds[1..][i];
    }
    if SomeHasPointer(ds, p) && PtrOf(ds[0]) != p {
      var i :| 0 <= i < |ds| && PtrOf(ds[i]) == p;
      assert ds[1..][i - 1] == ds[i];
    }
    if SomeHasPointer(ds[1..], p) {
      var i :| 0 <= i < |ds[1..]| && PtrOf(ds[1..][i]) == p;
      assert ds[i + 1] == ds[1..][i];
    }
  }

  /** Exactly the given values leave the table. */
  lemma {:induction false} DeleteAllValues<P>(raw: Raw, ds: seq<Record<P>>, p: Name)
    requires DeleteAll(raw, ds).Some?
    ensures var out := DeleteAll(raw, ds).value;
      && (p in out.vals <==> p in raw.vals && !SomeHasPointer(ds, p))
      && (p in out.vals ==> out.vals[p] == raw.vals[p])
    decreases |ds|
  {
    hide DelIndex, PtrOf, SomeHasPointer;
    if ds == [] {
      NoneHasPointer<P>(p);
    } else {
      SomeStep(ds, [], p);
      DeleteAllValues(Raw(raw.vals - {PtrOf(ds[0])}, DelIndex(raw.idxs, ds[0].keys).value), ds[1..], p);
    }
  }

  lemma NoneHasPointer<P>(p: Name)
    ensures !SomeHasPointer<P>([], p)
  {
  }

  lemma NoneLists<P>(q: seq<Name>)
    ensures !SomeLists<P>([], q)
  {
  }

  /** The buckets of all keys of the values exist. */
  ghost predicate AllBuckets<P>(m: Tree, ds: seq<Record<P>>) {
    forall i, j :: 0 <= i < |ds| && 0 <= j < |ds[i].keys| ==> HasBucket(m, ds[i].keys[j])
  }

  lemma BucketsStay<P>(m: Tree, keys: seq<K>, ds: seq<Record<P>>)
    requires DelIndex(m, keys).Some? && AllBuckets(m, ds)
    ensures AllBuckets(DelIndex(m, keys).value, ds)
  {
    hide DelIndex, HasBucket;
    forall i, j | 0 <= i < |ds| && 0 <= j < |ds[i].keys|
      ensures HasBucket(DelIndex(m, keys).value, ds[i].keys[j])
    {
      DelBuckets(m, keys, ds[i].keys[j]);
    }
  }

  /** Exactly the paths that the values list are emptied. */
  lemma {:induction false} DeleteAllEntries<P>(raw: Raw, ds: seq<Record<P>>, q: seq<Name>)
    requires q != [] && DeleteAll(raw, ds).Some? && AllBuckets(raw.idxs, ds)
    ensures LeafAt(DeleteAll(raw, ds).value.idxs, q) == if SomeLists(ds, q) then None else LeafAt(raw.idxs, q)
    decreases |ds|
  {
    hide DelIndex, PtrOf, LeafAt, SomeLists, InKeys, HasBucket;
    if ds == [] {
      NoneLists<P>(q);
    } else {
      SomeStep(ds, q, []);
      var m := DelIndex(raw.idxs, ds[0].keys).value;
      DelIndexAt(raw.idxs, ds[0].keys, q);
      BucketsStay(raw.idxs, ds[0].keys, ds);
      assert AllBuckets(m, ds[1..]) by {
        forall i, j | 0 <= i < |ds[1..]| && 0 <= j < |ds[1..][i].keys| ensures HasBucket(m, ds[1..][i].keys[j]) {
          assert ds[1..][i] == ds[i + 1];
        }
      }
      DeleteAllEntries(Raw(raw.vals - {PtrOf(ds[0])}, m), ds[1..], q);
    }
  }

  lemma {:induction false} DeleteAllBuckets<P>(raw: Raw, ds: seq<Record<P>>, k: K)
    requires DeleteAll(raw, ds).Some? && HasBucket(raw.idxs, k)
    ensures HasBucket(DeleteAll(raw, ds).value.idxs, k)
    decreases |ds|
  {
    hide DelIndex, PtrOf, HasBucket;
    if ds != [] {
      DelBuckets(raw.idxs, ds[0].keys, k);
      DeleteAllBuckets(Raw(raw.vals - {PtrOf(ds[0])}, DelIndex(raw.idxs, ds[0].keys).value), ds[1..], k);
    }
  }

  /** Obsolete values are values of the store. */
  ghost predicate AllStored<P>(st: State<P>, ds: seq<Record<P>>) {
    forall i :: 0 <= i < |ds| ==> PtrOf(ds[i]) in st.vals && st.vals[PtrOf(ds[i])] == ds[i]
  }

  lemma StoredBuckets<P(!new)>(st: State<P>, ds: seq<Record<P>>)
    requires Sound(st) && AllStored(st, ds)
    ensures AllBuckets(st.idxs, ds)
  {
    hide PtrOf, LeafAt, InKeys, HasBucket;
  }

  /** Deleting obsolete values takes exactly those out of the table and exactly
      their keys out of the index, and keeps a sound store sound. */
  lemma DeletingKeepsSound<P(!new)>(rd: Reader<P>, raw: Raw, ds: seq<Record<P>>)
    requires Tabled(rd, raw.vals) && Sound(Stored(rd, raw)) && AllStored(Stored(rd, raw), ds)
    requires DeleteAll(raw, ds).Some?
    ensures var out := DeleteAll(raw, ds).value;
      && (forall p :: p in out.vals <==> p in raw.vals && !SomeHasPointer(ds, p))
      && (forall p :: p in out.vals ==> out.vals[p] == raw.vals[p])
      && (forall q: seq<Name> :: q != [] ==>
            LeafAt(out.idxs, q) == if SomeLists(ds, q) then None else LeafAt(raw.idxs, q))
      && Tabled(rd, out.vals) && Sound(Stored(rd, out))
  {
    hide DeleteAll, PtrOf, LeafAt, SomeLists, SomeHasPointer, InKeys, HasBucket, IsDoc;
    var out := DeleteAll(raw, ds).value;
    var st := Stored(rd, raw);
    forall p
      ensures p in out.vals <==> p in raw.vals && !SomeHasPointer(ds, p)
      ensures p in out.vals ==> out.vals[p] == raw.vals[p]
    {
      DeleteAllValues(raw, ds, p);
    }
    StoredBuckets(st, ds);
    forall q: seq<Name> | q != []
      ensures LeafAt(out.idxs, q) == if SomeLists(ds, q) then None else LeafAt(raw.idxs, q)
    {
      DeleteAllEntries(raw, ds, q);
    }
    assert Tabled(rd, out.vals);
    var after := Stored(rd, out);
    forall p | p in after.vals ensures p == PtrOf(after.vals[p]) {
      assert p in st.vals && after.vals[p] == st.vals[p];
    }
    forall q: seq<Name> | q != [] && LeafAt(out.idxs, q).Some?
      ensures LeafAt(out.idxs, q).value in after.vals && Lists(after.vals[LeafAt(out.idxs, q).value], q)
    {
      var p := LeafAt(raw.idxs, q).value;
      if SomeHasPointer(ds, p) {
        DeletedListsIt(st, ds, p, q);
      }
    }
    forall p, j | p in after.vals && 0 <= j < |after.vals[p].keys| ensures HasBucket(after.idxs, after.vals[p].keys[j]) {
      assert HasBucket(st.idxs, st.vals[p].keys[j]);
      DeleteAllBuckets(raw, ds, st.vals[p].keys[j]);
    }
  }

  lemma DeletedListsIt<P>(st: State<P>, ds: seq<Record<P>>, p: Name, q: seq<Name>)
    requires AllStored(st, ds) && SomeHasPointer(ds, p) && p in st.vals && Lists(st.vals[p], q)
    ensures SomeLists(ds, q)
  {
    hide PtrOf, InKeys;
  }

  /** Fsck of a sound collection whose validator picks some of its values: those
      are gone with their keys, and the rest is as it was. */
  lemma FsckDeletes<P(!new)>(rd: Reader<P>, validate: Validator<P>, raw: Raw, all: seq<Record<P>>, ds: seq<Record<P>>)
    requires Tabled(rd, raw.vals) && Sound(Stored(rd, raw))
    requires |all| == |Sorted(raw.vals.Keys)|
    requires forall i :: 0 <= i < |all| ==> Some(all[i]) == rd(raw.vals[Sorted(raw.vals.Keys)[i]][4..])
    requires validate(all) == Some(ds) && ds != [] && forall d :: d in ds ==> d in all
    ensures Fsck(rd, Some(validate), raw) == DeleteAll(raw, ds)
    ensures Fsck(rd, Some(validate), raw).Some? ==>
      var out := Fsck(rd, Some(validate), raw).value;
      && (forall p :: p in out.vals <==> p in raw.vals && !SomeHasPointer(ds, p))
      && (forall q: seq<Name> :: q != [] ==>
            LeafAt(out.idxs, q) == if SomeLists(ds, q) then None else LeafAt(raw.idxs, q))
      && Tabled(rd, out.vals) && Sound(Stored(rd, out))
  {
    hide DeleteAll, LeafAt, SomeLists, SomeHasPointer, IsDoc, Sorted, ReadAll, PtrOf, InKeys, HasBucket;
    var ks := Sorted(raw.vals.Keys);
    ReadAllIs(rd, raw.vals, ks);
    assert ReadAll(rd, raw.vals, ks).value == all;
    assert ds[0] in ds;
    assert AllStored(Stored(rd, raw), ds) by {
      forall i | 0 <= i < |ds|
        ensures PtrOf(ds[i]) in raw.vals && Stored(rd, raw).vals[PtrOf(ds[i])] == ds[i]
      {
        assert ds[i] in all;
        var k :| 0 <= k < |all| && all[k] == ds[i];
        assert ks[k] in ks;
        assert Stored(rd, raw).vals[ks[k]] == ds[i];
      }
    }
    if DeleteAll(raw, ds).Some? {
      DeletingKeepsSound(rd, raw, ds);
    }
  }

  /** A validator that fails, or that picks nothing from values written by puts,
      ends the check with an error. */
  lemma FsckFails<P>(rd: Reader<P>, validate: Validator<P>, raw: Raw, all: seq<Record<P>>)
    requires Tabled(rd, raw.vals) && Decodes(rd) && TableOfPuts(raw.vals) && raw.vals != map[]
    requires |all| == |Sorted(raw.vals.Keys)|
    requires forall i :: 0 <= i < |all| ==> Some(all[i]) == rd(raw.vals[Sorted(raw.vals.Keys)[i]][4..])
    requires validate(all) == None || validate(all) == Some([])
    ensures Fsck(rd, Some(validate), raw) == None
  {
    hide DeleteAll, IsDoc, Sorted, ReadAll, Repaired, TableOfPuts, Decodes;
    ReadAllIs(rd, raw.vals, Sorted(raw.vals.Keys));
    assert ReadAll(rd, raw.vals, Sorted(raw.vals.Keys)).value == all;
    RepairedIffEmpty(rd, raw);
  }

  /** One document that cannot be read ends the check, too. */
  lemma {:induction false} ReadAllFails<P>(rd: Reader<P>, vals: map<Name, Name>, ks: seq<Name>, k: Name)
    requires (forall x :: x in ks ==> x in vals) && k in ks && IsDoc(vals[k]) && rd(vals[k][4..]).None?
    ensures ReadAll(rd, vals, ks).None?
    decreases |ks|
  {
    DocIsNoPointer(vals[k]);
    hide IsDoc, IsPointer;
    if k != ks[0] {
      assert k in ks[1..];
      ReadAllFails(rd, vals, ks[1..], k);
    }
  }
}
