/** Who was last seen when: time keys make the newest entry the last one. */
module Seen {
  import opened Wrappers
  import opened Bytes
  import opened BsonValue
  import opened ByteOrder
  import opened DbKeys
  import opened DbBuckets
  import opened DbStore
  import opened DbRuns
  import opened DbScan
  import opened DbAll

  /** Bytes compare like the numbers they encode. */
  lemma {:induction false} LessSnoc(a: Name, x: byte, b: Name, y: byte)
    requires |a| == |b|
    ensures Less(a + [x], b + [y]) <==> Less(a, b) || (a == b && x < y)
    decreases |a|
  {
    if a == [] {
      assert a + [x] == [x] && b + [y] == [y];
    } else {
      assert (a + [x])[1..] == a[1..] + [x] && (b + [y])[1..] == b[1..] + [y];
      LessSnoc(a[1..], x, b[1..], y);
      Irreflexive(a);
      assert a == [a[0]] + a[1..] && b == [b[0]] + b[1..];
    }
  }

  function Pow256(n: nat): nat {
    if n == 0 then 1 else 256 * Pow256(n - 1)
  }

  lemma {:induction false} BigEndianOrder(m: nat, n: nat, len: nat)
    requires m < Pow256(len) && n < Pow256(len)
    ensures Less(BigEndian(m, len), BigEndian(n, len)) <==> m < n
    ensures BigEndian(m, len) == BigEndian(n, len) <==> m == n
    decreases len
  {
    if len > 0 {
      BigEndianOrder(m / 256, n / 256, len - 1);
      var a, b := BigEndian(m / 256, len - 1), BigEndian(n / 256, len - 1);
      LessSnoc(a, m % 256, b, n % 256);
      assert (a + [m % 256])[..len - 1] == a && (b + [n % 256])[..len - 1] == b;
      assert (a + [m % 256])[len - 1] == m % 256 && (b + [n % 256])[len - 1] == n % 256;
    }
  }

  lemma BE64Order(m: nat, n: nat)
    requires m < TWO64 && n < TWO64
    ensures Less(BE64(m), BE64(n)) <==> m < n
    ensures BE64(m) == BE64(n) <==> m == n
  {
    hide BigEndian, Less;
    assert Pow256(4) == TWO32;
    assert Pow256(8) == TWO64;
    BigEndianOrder(m, n, 8);
  }

  /** The key of an instant, as stored. */
  function TimeKey(name: seq<byte>, sec: i64, nsec: int): Name {
    ElemBytes(TS(name, sec, nsec))
  }

  lemma TimeKeyShape(name: seq<byte>, sec: i64, nsec: int)
    ensures TimeKey(name, sec, nsec) == name + [USEP] + BE64(ToMillis(sec, nsec) % TWO64)
  {
    hide BE64, ToMillis;
  }

  lemma SignAndModulus(a: i64, b: i64)
    requires a != b
    ensures ((a % TWO64) < (b % TWO64) <==> a < b) <==> (a < 0 <==> b < 0)
  {
    assert a % TWO64 == if a < 0 then a + TWO64 else a;
    assert b % TWO64 == if b < 0 then b + TWO64 else b;
  }

  /** Two different times sort like their keys exactly when they are on the same side of 1970. */
  lemma TimeKeysSortIff(name: seq<byte>, s: i64, n: int, s': i64, n': int)
    requires ToMillis(s, n) != ToMillis(s', n')
    ensures (Less(TimeKey(name, s, n), TimeKey(name, s', n')) <==> ToMillis(s, n) < ToMillis(s', n'))
       <==> (ToMillis(s, n) < 0 <==> ToMillis(s', n') < 0)
  {
    hide ToMillis, Less, BE64, TimeKey;
    var a, b := ToMillis(s, n), ToMillis(s', n');
    TimeKeyShape(name, s, n);
    TimeKeyShape(name, s', n');
    SamePrefix(name + [USEP], BE64(a % TWO64), BE64(b % TWO64));
    BE64Order(a % TWO64, b % TWO64);
    SignAndModulus(a, b);
  }

  /** An entry: a nick in lower case, an action, and when it was. */
  datatype Nick = Nick(nick: seq<byte>, action: seq<byte>, sec: i64, nsec: int)

  /** "nick", "action", "key", "ts" */
  const NICK: seq<byte> := [0x6E, 0x69, 0x63, 0x6B]
  const ACTION: seq<byte> := [0x61, 0x63, 0x74, 0x69, 0x6F, 0x6E]
  const KEY: seq<byte> := [0x6B, 0x65, 0x79]
  const STAMP: seq<byte> := [0x74, 0x73]

  function Indexes(n: Nick): seq<K> {
    [[S(NICK, n.nick), S(ACTION, n.action)], [S(KEY, n.nick), TS(STAMP, n.sec, n.nsec)]]
  }

  /** Every stored value is indexed the way entries are, at a time since 1970. */
  ghost predicate SeenStore(st: State<Nick>) {
    forall p :: p in st.vals ==>
      st.vals[p].keys == Indexes(st.vals[p].body) && ToMillis(st.vals[p].body.sec, st.vals[p].body.nsec) >= 0
  }

  function StampOf(v: Record<Nick>): Name {
    TimeKey(STAMP, v.body.sec, v.body.nsec)
  }

  function When(v: Record<Nick>): int {
    ToMillis(v.body.sec, v.body.nsec)
  }

  function ByNick(nick: seq<byte>): K {
    [S(KEY, nick)]
  }

  /** The last of the entries found by nick. */
  ghost function LastSeen(st: State<Nick>, nick: seq<byte>): Option<Record<Nick>> {
    var all := All(st, ByNick(nick));
    if all == [] then None else Some(all[|all| - 1])
  }

  lemma PathsOf(n: Nick)
    ensures Path(Indexes(n)[0]) == [ElemBytes(S(NICK, n.nick)), ElemBytes(S(ACTION, n.action))]
    ensures Path(Indexes(n)[1]) == [ElemBytes(S(KEY, n.nick)), TimeKey(STAMP, n.sec, n.nsec)]
  {
    hide ElemBytes;
  }

  lemma KeyBytesDiffer(a: seq<byte>, b: seq<byte>)
    ensures ElemBytes(S(KEY, a)) != ElemBytes(S(NICK, b))
    ensures ElemBytes(S(KEY, a)) == ElemBytes(S(KEY, b)) <==> a == b
  {
    assert ElemBytes(S(KEY, a))[0] == 0x6B && ElemBytes(S(NICK, b))[0] == 0x6E;
    assert ElemBytes(S(KEY, a))[4..] == a && ElemBytes(S(KEY, b))[4..] == b;
  }

  /** An entry is listed below a nick's bucket just when it is that nick's, namely under its time. */
  lemma ListedUnderNick(v: Record<Nick>, nick: seq<byte>)
    requires v.keys == Indexes(v.body)
    ensures ListedUnder(v, ByNick(nick)) <==> v.body.nick == nick
    ensures forall path :: Lists(v, Path(ByNick(nick)) + path) ==> v.body.nick == nick && path == [StampOf(v)]
  {
    PathsOf(v.body);
    KeyBytesDiffer(nick, v.body.nick);
    KeyBytesDiffer(v.body.nick, v.body.nick);
    hide ElemBytes, TimeKey;
    var pre := Path(ByNick(nick));
    assert pre == [ElemBytes(S(KEY, nick))];
    assert Path(v.keys[0])[0] != pre[0];
    if v.body.nick == nick {
      assert pre < Path(v.keys[1]);
    }
    forall path | Lists(v, pre + path) ensures v.body.nick == nick && path == [StampOf(v)] {
      var j :| 0 <= j < |v.keys| && Path(v.keys[j]) == pre + path;
      assert (pre + path)[0] == pre[0] && (pre + path)[1..] == path;
      assert j == 1;
    }
  }

  /** Stamps increase along the list, and all of them are among ks. */
  ghost predicate InOrder(r: seq<Record<Nick>>, ks: seq<Name>) {
    && (forall i :: 0 <= i < |r| ==> StampOf(r[i]) in ks)
    && (forall i, j :: 0 <= i < j < |r| ==> Less(StampOf(r[i]), StampOf(r[j])))
  }

  lemma InOrderCons(v: Record<Nick>, r: seq<Record<Nick>>, ks: seq<Name>)
    requires ks != [] && InOrder(r, ks[1..]) && StampOf(v) == ks[0]
    requires forall i, j :: 0 <= i < j < |ks| ==> Less(ks[i], ks[j])
    ensures InOrder([v] + r, ks)
  {
    hide Less, StampOf;
    forall j | 0 <= j < |r| ensures Less(ks[0], StampOf(r[j])) {
      assert StampOf(r[j]) in ks[1..];
    }
  }

  lemma InOrderMore(r: seq<Record<Nick>>, ks: seq<Name>)
    requires ks != [] && InOrder(r, ks[1..])
    ensures InOrder(r, ks)
  {
    hide Less, StampOf;
  }

  lemma CollectHead(ptr: Name, rest: seq<Name>, seen: set<Name>, vals: map<Name, Record<Nick>>)
    requires ptr in vals
    ensures Collect([ptr] + rest, seen, vals) ==
      if ptr in seen then Collect(rest, seen, vals) else [vals[ptr]] + Collect(rest, seen + {ptr}, vals)
  {
    assert ([ptr] + rest)[1..] == rest;
  }

  lemma LeafHead(w: Waiting, ks: seq<Name>)
    requires ks != [] && (forall k :: k in ks ==> k in w.tree)
    requires w.tree[ks[0]].Leaf? ==> IsPointer(w.tree[ks[0]].ptr)
    ensures PassedOn(Leaves(w, ks)) ==
      (if w.tree[ks[0]].Leaf? then [w.tree[ks[0]].ptr] else []) + PassedOn(Leaves(w, ks[1..]))
  {
    hide IsPointer, IsDoc, PassedOn, Passed, Leaves;
    LeavesStep(w, ks);
    PassedOnAppend(Leaves(w, [ks[0]]), Leaves(w, ks[1..]));
    LeavesOne(w, ks[0]);
    if w.tree[ks[0]].Leaf? {
      PointerPasses(w.tree[ks[0]].ptr);
    }
  }

  lemma LeavesStep(w: Waiting, ks: seq<Name>)
    requires ks != [] && (forall k :: k in ks ==> k in w.tree)
    ensures Leaves(w, ks) == Leaves(w, [ks[0]]) + Leaves(w, ks[1..])
  {
    var rest := [ks[0]][1..];
    assert |rest| == 0 && Leaves(w, rest) == [];
    match w.tree[ks[0]]
    case Leaf(ptr) => assert Leaves(w, [ks[0]]) == [Found(w.prefix + [ks[0]], ptr)];
    case Bucket(_) => assert Leaves(w, [ks[0]]) == [];
  }

  lemma PointerPasses(b: Name)
    requires IsPointer(b)
    ensures Passed(b) == [b]
  {
    hide IsPointer, IsDoc;
  }

  /** Collecting in key order gives the values in the order of their stamps. */
  lemma {:induction false} CollectSorted(w: Waiting, ks: seq<Name>, seen: set<Name>, vals: map<Name, Record<Nick>>)
    requires forall k :: k in ks ==> k in w.tree
    requires forall i, j :: 0 <= i < j < |ks| ==> Less(ks[i], ks[j])
    requires forall k :: k in ks && w.tree[k].Leaf? ==>
               IsPointer(w.tree[k].ptr) && w.tree[k].ptr in vals && StampOf(vals[w.tree[k].ptr]) == k
    ensures InOrder(Collect(PassedOn(Leaves(w, ks)), seen, vals), ks)
    decreases |ks|
  {
    hide Less, IsPointer, IsDoc, StampOf;
    if ks != [] {
      hide Collect, PassedOn, Leaves, InOrder;
      LeafHead(w, ks);
      var rest := PassedOn(Leaves(w, ks[1..]));
      if w.tree[ks[0]].Bucket? {
        assert [] + rest == rest;
        CollectSorted(w, ks[1..], seen, vals);
        InOrderMore(Collect(rest, seen, vals), ks);
      } else {
        var ptr := w.tree[ks[0]].ptr;
        CollectHead(ptr, rest, seen, vals);
        if ptr in seen {
          CollectSorted(w, ks[1..], seen, vals);
          InOrderMore(Collect(rest, seen, vals), ks);
        } else {
          CollectSorted(w, ks[1..], seen + {ptr}, vals);
          InOrderCons(vals[ptr], Collect(rest, seen + {ptr}, vals), ks);
        }
      }
    }
  }

  /** What is scanned in a nick's bucket. */
  lemma NickBucket(st: State<Nick>, nick: seq<byte>, path: seq<Name>)
    requires Sound(st) && SeenStore(st) && Find(st.idxs, Path(ByNick(nick))).Some? && path != []
    ensures var b := Find(st.idxs, Path(ByNick(nick))).value;
      LeafAt(b, path).Some? ==>
        var ptr := LeafAt(b, path).value;
        ptr in st.vals && IsPointer(ptr) && path == [StampOf(st.vals[ptr])]
  {
    hide LeafAt, Find, InKeys, Path, IsPointer, StampOf, Indexes, ToMillis;
    BucketHoldsPointers(st, Path(ByNick(nick)), path);
    var b := Find(st.idxs, Path(ByNick(nick))).value;
    if LeafAt(b, path).Some? {
      ListedUnderNick(st.vals[LeafAt(b, path).value], nick);
    }
  }

  /** A nick's bucket has no values below its first level. */
  lemma NothingDeeper(b: Tree, next: seq<Waiting>)
    requires forall path: seq<Name> :: |path| > 1 ==> LeafAt(b, path) == None
    requires next == Nested(Waiting([], b), Sorted(b.Keys))
    ensures Scan(next) == []
  {
    hide LeafAt, Scan, Leaves, Nested, Sorted;
    if Scan(next) != [] {
      var f := Scan(next)[0];
      assert f in Scan(next);
      ScanFinds(next, f);
      BelowSplits(Waiting([], b), f);
      assert f.path[0..] == f.path;
      NestedIsDeeper(b, next, f);
    }
  }

  lemma NestedIsDeeper(b: Tree, next: seq<Waiting>, f: Found)
    requires next == Nested(Waiting([], b), Sorted(b.Keys)) && Reachable(next, f)
    ensures |f.path| > 1
  {
    var i :| 0 <= i < |next| && Below(next[i], f);
    var ks := Sorted(b.Keys);
    assert forall k :: k in ks ==> k in b;
    hide Sorted, LeafAt, Nested;
    NestedPrefixes(Waiting([], b), ks, i);
  }

  /** The entries found for a nick come in the order of their stamps. */
  lemma ByNickInOrder(st: State<Nick>, nick: seq<byte>)
    requires Sound(st) && SeenStore(st)
    ensures exists ks :: InOrder(All(st, ByNick(nick)), ks)
  {
    hide LeafAt, InKeys, Path, IsPointer, StampOf, Indexes, ToMillis, Less, Collect, PassedOn, Leaves, Nested, Scan, QueueWeight;
    var elems := Path(ByNick(nick));
    if Find(st.idxs, elems).None? {
      assert All(st, ByNick(nick)) == [];
      assert InOrder(All(st, ByNick(nick)), []);
    } else {
      var b := Find(st.idxs, elems).value;
      hide Find;
      var w := Waiting([], b);
      var ks := Sorted(b.Keys);
      forall path: seq<Name> | |path| > 1 ensures LeafAt(b, path) == None {
        NickBucket(st, nick, path);
      }
      assert forall k :: k in ks ==> k in b;
      NothingDeeper(b, Nested(w, ks));
      ScanUnfold([w]);
      assert [w][1..] + Nested(w, ks) == Nested(w, ks);
      assert Scan([w]) == Leaves(w, ks);
      forall k | k in ks && b[k].Leaf?
        ensures IsPointer(b[k].ptr) && b[k].ptr in st.vals && StampOf(st.vals[b[k].ptr]) == k
      {
        LeafOne(b, k);
        NickBucket(st, nick, [k]);
      }
      CollectSorted(w, ks, {}, st.vals);
      AllUnfold(st, ByNick(nick));
      assert Leaves(w, ks) + [] == Leaves(w, ks);
      assert InOrder(All(st, ByNick(nick)), ks);
    }
  }

  lemma AllUnfold(st: State<Nick>, key: K)
    requires key != [] && Find(st.idxs, Path(key)).Some?
    ensures All(st, key) == Collect(PassedOn(Scan([Waiting([], Find(st.idxs, Path(key)).value)])), {}, st.vals)
  {
    hide Find, Path, Scan, PassedOn, Collect;
  }

  lemma LeafOne(b: Tree, k: Name)
    requires k in b && b[k].Leaf?
    ensures LeafAt(b, [k]) == Some(b[k].ptr)
  {
  }

  /** The key of an entry that orders a nick's entries by time. */
  function ByTime(nick: seq<byte>, sec: i64, nsec: int): K {
    [S(KEY, nick), TS(STAMP, sec, nsec)]
  }

  lemma ByTimePath(nick: seq<byte>, sec: i64, nsec: int)
    ensures Path(ByTime(nick, sec, nsec)) == Path(ByNick(nick)) + [TimeKey(STAMP, sec, nsec)]
  {
    hide ElemBytes;
  }

  lemma SameStamp(a: i64, b: i64)
    requires BE64(a % TWO64) == BE64(b % TWO64)
    ensures a == b
  {
    hide BE64;
    BE64Order(a % TWO64, b % TWO64);
    assert a % TWO64 == if a < 0 then a + TWO64 else a;
    assert b % TWO64 == if b < 0 then b + TWO64 else b;
  }

  lemma StampTellsTime(v: Record<Nick>, sec: i64, nsec: int)
    requires StampOf(v) == TimeKey(STAMP, sec, nsec)
    ensures When(v) == ToMillis(sec, nsec)
  {
    hide ToMillis, BE64, TimeKey;
    var a, b := When(v), ToMillis(sec, nsec);
    TimeKeyShape(STAMP, v.body.sec, v.body.nsec);
    TimeKeyShape(STAMP, sec, nsec);
    var n := |STAMP| + 1;
    assert StampOf(v)[n..] == BE64(a % TWO64) && TimeKey(STAMP, sec, nsec)[n..] == BE64(b % TWO64);
    SameStamp(a, b);
  }

  /** LastSeen finds a live entry of the nick whose time is no less than any time
      that is stored for the nick. */
  lemma LastSeenIsNewest(st: State<Nick>, nick: seq<byte>, sec: i64, nsec: int)
    requires Sound(st) && SeenStore(st) && LeafAt(st.idxs, Path(ByTime(nick, sec, nsec))).Some?
    ensures LastSeen(st, nick).Some?
    ensures var last := LastSeen(st, nick).value;
      && PtrOf(last) in st.vals && st.vals[PtrOf(last)] == last && last.body.nick == nick
      && When(last) >= ToMillis(sec, nsec)
  {
    hide Sound, PtrOf, ListedUnder, Path, All, Less, TimeKey, Indexes, ToMillis, LeafAt, Find;
    var elems, stamp := Path(ByNick(nick)), TimeKey(STAMP, sec, nsec);
    ByTimePath(nick, sec, nsec);
    BucketAbove(st.idxs, elems, stamp);
    AllHasEntries(st, ByNick(nick), [stamp]);
    var v := st.vals[LeafAt(st.idxs, elems + [stamp]).value];
    BucketHoldsPointers(st, elems, [stamp]);
    NickBucket(st, nick, [stamp]);
    StampTellsTime(v, sec, nsec);
    var all := All(st, ByNick(nick));
    var last := all[|all| - 1];
    AllIsListed(st, ByNick(nick), last);
    ListedUnderNick(last, nick);
    ByNickInOrder(st, nick);
    var i :| 0 <= i < |all| && all[i] == v;
    if i < |all| - 1 && When(last) != When(v) {
      TimeKeysSortIff(STAMP, v.body.sec, v.body.nsec, last.body.sec, last.body.nsec);
    }
  }

  lemma {:induction false} BucketAbove(m: Tree, elems: seq<Name>, last: Name)
    requires LeafAt(m, elems + [last]).Some?
    ensures Find(m, elems).Some?
    decreases |elems|
  {
    if elems != [] {
      assert (elems + [last])[1..] == elems[1..] + [last];
      BucketAbove(m[elems[0]].entries, elems[1..], last);
    }
  }

  /** Where no two live entries share a key, that is every live entry of the nick. */
  lemma LastSeenOfLive(st: State<Nick>, v: Record<Nick>)
    requires Sound(st) && Exact(st) && SeenStore(st) && PtrOf(v) in st.vals && st.vals[PtrOf(v)] == v
    ensures LastSeen(st, v.body.nick).Some? && When(LastSeen(st, v.body.nick).value) >= When(v)
  {
    hide Sound, All, LeafAt, Path, ToMillis, PtrOf;
    assert v.keys[1] == ByTime(v.body.nick, v.body.sec, v.body.nsec);
    LastSeenIsNewest(st, v.body.nick, v.body.sec, v.body.nsec);
  }

  /** LastSeen. */
  method FetchLastSeen(b: IndexedBucket<Nick>, nick: seq<byte>) returns (r: Option<Record<Nick>>)
    ensures r == LastSeen(State(b.vals, b.idxs), nick)
  {
    hide All;
    var nicks := FetchAll(b, ByNick(nick));
    if nicks == [] {
      return None;
    }
    r := Some(nicks[|nicks| - 1]);
  }
}
