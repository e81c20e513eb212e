/** A tree of nested buckets, as the index is kept in. */
module DbBuckets {
  import opened Wrappers
  import opened ByteOrder

  /** An entry of a bucket: a stored value or a nested bucket. */
  datatype Node = Leaf(ptr: Name) | Bucket(entries: map<Name, Node>)

  type Tree = map<Name, Node>

  /** The value stored at the end of a path. */
  function LeafAt(m: Tree, path: seq<Name>): Option<Name>
    requires path != []
    decreases |path|
  {
    if path[0] !in m then None
    else
      match m[path[0]]
      case Leaf(ptr) => if |path| == 1 then Some(ptr) else None
      case Bucket(sub) => if |path| == 1 then None else LeafAt(sub, path[1..])
  }

  /** Following bucket names downwards; a missing bucket, or a value in its place, ends the walk. */
  function Find(m: Tree, elems: seq<Name>): Option<Tree>
    decreases |elems|
  {
    if elems == [] then Some(m)
    else if elems[0] in m && m[elems[0]].Bucket? then Find(m[elems[0]].entries, elems[1..])
    else None
  }

  /** Creating the buckets of a path where they are missing and storing a value
      at its end. It fails on an empty name, where a value stands in place of a
      bucket, and where a bucket stands in place of the value. */
  function PutLeaf(m: Tree, path: seq<Name>, ptr: Name): Option<Tree>
    requires path != []
    decreases |path|
  {
    var k := path[0];
    if k == [] then None
    else if |path| == 1 then
      if k in m && m[k].Bucket? then None else Some(m[k := Leaf(ptr)])
    else if k in m && m[k].Leaf? then None
    else
      match PutLeaf(if k in m then m[k].entries else map[], path[1..], ptr)
      case None => None
      case Some(sub) => Some(m[k := Bucket(sub)])
  }

  /** Replacing what the bucket at the end of a path holds. */
  function SetBucket(m: Tree, elems: seq<Name>, b: Tree): Tree
    requires Find(m, elems).Some?
    decreases |elems|
  {
    if elems == [] then b
    else m[elems[0] := Bucket(SetBucket(m[elems[0]].entries, elems[1..], b))]
  }

  /** Deleting the value at the end of a path whose buckets exist; it fails
      where a bucket stands in place of the value. */
  function DelLeaf(m: Tree, path: seq<Name>): Option<Tree>
    requires path != [] && Find(m, path[..|path| - 1]).Some?
  {
    var elems, last := path[..|path| - 1], path[|path| - 1];
    var b := Find(m, elems).value;
    if last in b && b[last].Bucket? then None
    else Some(SetBucket(m, elems, b - {last}))
  }

  /** After storing, the path has its value and every other path is as before. */
  lemma {:induction false} PutLeafAt(m: Tree, path: seq<Name>, ptr: Name, q: seq<Name>)
    requires path != [] && q != [] && PutLeaf(m, path, ptr).Some?
    ensures LeafAt(PutLeaf(m, path, ptr).value, q) == if q == path then Some(ptr) else LeafAt(m, q)
    decreases |path|
  {
    var k := path[0];
    if |path| == 1 {
      if q[0] == k && |q| == 1 {
        assert q == path;
      }
    } else {
      var sub := if k in m then m[k].entries else map[];
      assert q == [q[0]] + q[1..] && path == [k] + path[1..];
      if q[0] == k && |q| > 1 {
        PutLeafAt(sub, path[1..], ptr, q[1..]);
      }
    }
  }

  /** Storing creates buckets and removes none. */
  lemma {:induction false} PutKeepsBuckets(m: Tree, path: seq<Name>, ptr: Name, elems: seq<Name>)
    requires path != [] && PutLeaf(m, path, ptr).Some?
    ensures Find(m, elems).Some? ==> Find(PutLeaf(m, path, ptr).value, elems).Some?
    decreases |path|
  {
    var k := path[0];
    if |path| > 1 && elems != [] && elems[0] == k && k in m {
      PutKeepsBuckets(m[k].entries, path[1..], ptr, elems[1..]);
    }
  }

  lemma {:induction false} PutCreatesBuckets(m: Tree, path: seq<Name>, ptr: Name)
    requires path != [] && PutLeaf(m, path, ptr).Some?
    ensures Find(PutLeaf(m, path, ptr).value, path[..|path| - 1]).Some?
    decreases |path|
  {
    if |path| > 1 {
      var k := path[0];
      PutCreatesBuckets(if k in m then m[k].entries else map[], path[1..], ptr);
      assert path[..|path| - 1][1..] == path[1..][..|path| - 2];
    }
  }

  /** Replacing a bucket changes only what is below it. */
  lemma {:induction false} SetBucketLeafAt(m: Tree, elems: seq<Name>, b: Tree, q: seq<Name>)
    requires Find(m, elems).Some? && q != []
    ensures LeafAt(SetBucket(m, elems, b), q)
         == if elems < q then LeafAt(b, q[|elems|..])
            else if elems == q then None
            else LeafAt(m, q)
    decreases |elems|
  {
    if elems == [] {
      assert q[0..] == q;
    } else if q[0] == elems[0] {
      if |q| == 1 {
        assert elems[1..] == [] ==> elems == q;
      } else {
        SetBucketLeafAt(m[elems[0]].entries, elems[1..], b, q[1..]);
        assert elems == [elems[0]] + elems[1..] && q == [q[0]] + q[1..];
        if |elems| <= |q| {
          assert q[1..][|elems| - 1..] == q[|elems|..];
        }
      }
    }
  }

  lemma {:induction false} SetBucketFind(m: Tree, elems: seq<Name>, b: Tree, e: seq<Name>)
    requires Find(m, elems).Some?
    requires forall k :: k in Find(m, elems).value && Find(m, elems).value[k].Bucket? ==>
               k in b && b[k] == Find(m, elems).value[k]
    ensures Find(m, e).Some? ==> Find(SetBucket(m, elems, b), e).Some?
    decreases |elems|
  {
    if elems == [] {
    } else if e != [] && e[0] == elems[0] {
      SetBucketFind(m[elems[0]].entries, elems[1..], b, e[1..]);
    }
  }

  /** Looking below a bucket that exists. */
  lemma {:induction false} LeafBelow(m: Tree, elems: seq<Name>, q: seq<Name>)
    requires Find(m, elems).Some? && elems < q
    ensures LeafAt(m, q) == LeafAt(Find(m, elems).value, q[|elems|..])
    decreases |elems|
  {
    if elems != [] {
      LeafBelow(m[elems[0]].entries, elems[1..], q[1..]);
      assert q[1..][|elems| - 1..] == q[|elems|..];
    } else {
      assert q[0..] == q;
    }
  }

  /** After deleting, the path is empty and every other path is as before. */
  lemma DelLeafAt(m: Tree, path: seq<Name>, q: seq<Name>)
    requires path != [] && q != [] && Find(m, path[..|path| - 1]).Some? && DelLeaf(m, path).Some?
    ensures LeafAt(DelLeaf(m, path).value, q) == if q == path then None else LeafAt(m, q)
  {
    var elems, last := path[..|path| - 1], path[|path| - 1];
    var b := Find(m, elems).value;
    SetBucketLeafAt(m, elems, b - {last}, q);
    assert path == elems + [last];
    if elems < q {
      LeafBelow(m, elems, q);
      var r := q[|elems|..];
      assert q == elems + r;
      if r[0] == last && |r| == 1 {
        assert r == [last];
      }
    } else if elems == q {
      BucketIsNoLeaf(m, q);
    }
  }

  lemma {:induction false} BucketIsNoLeaf(m: Tree, q: seq<Name>)
    requires q != [] && Find(m, q).Some?
    ensures LeafAt(m, q) == None
    decreases |q|
  {
    if |q| > 1 {
      BucketIsNoLeaf(m[q[0]].entries, q[1..]);
    }
  }

  /** Deleting removes no bucket. */
  lemma DelKeepsBuckets(m: Tree, path: seq<Name>, elems: seq<Name>)
    requires path != [] && Find(m, path[..|path| - 1]).Some? && DelLeaf(m, path).Some?
    ensures Find(m, elems).Some? ==> Find(DelLeaf(m, path).value, elems).Some?
  {
    var es, last := path[..|path| - 1], path[|path| - 1];
    SetBucketFind(m, es, Find(m, es).value - {last}, elems);
  }

  lemma {:induction false} BucketsAfterSet(m: Tree, elems: seq<Name>, b: Tree, e: seq<Name>)
    requires Find(m, elems).Some? && Find(SetBucket(m, elems, b), e).Some?
    requires forall k :: k in b ==> k in Find(m, elems).value && Find(m, elems).value[k] == b[k]
    ensures Find(m, e).Some?
    decreases |elems|
  {
    if elems == [] {
      if e != [] {
        assert m[e[0]] == b[e[0]];
      }
    } else if e != [] && e[0] == elems[0] {
      BucketsAfterSet(m[elems[0]].entries, elems[1..], b, e[1..]);
    }
  }

  /** Deleting adds no bucket either. */
  lemma DelAddsNoBuckets(m: Tree, path: seq<Name>, elems: seq<Name>)
    requires path != [] && Find(m, path[..|path| - 1]).Some? && DelLeaf(m, path).Some?
    ensures Find(DelLeaf(m, path).value, elems).Some? ==> Find(m, elems).Some?
  {
    var es, last := path[..|path| - 1], path[|path| - 1];
    if Find(DelLeaf(m, path).value, elems).Some? {
      BucketsAfterSet(m, es, Find(m, es).value - {last}, elems);
    }
  }
}
