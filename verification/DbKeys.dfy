/** Index keys: how elements become bytes, and what byte order means for them. */
module DbKeys {
  import opened Bytes
  import opened BsonValue

  const USEP: byte := 0x1F

  /** A key element. A time is kept as its instant. */
  datatype Elem =
    | S(name: seq<byte>, text: seq<byte>)
    | I(name: seq<byte>, n: nat)
    | T(name: seq<byte>, flag: bool)
    | ID(id: seq<byte>)
    | TS(name: seq<byte>, sec: i64, nsec: int)

  /** "_id" */
  const ID_NAME: seq<byte> := [0x5F, 0x69, 0x64]

  /** The len low bytes of n, most significant first. */
  function BigEndian(n: nat, len: nat): (b: seq<byte>)
    ensures |b| == len
    decreases len
  {
    if len == 0 then [] else BigEndian(n / 256, len - 1) + [n % 256]
  }

  function BE64(n: nat): (b: seq<byte>)
    ensures |b| == 8
  {
    BigEndian(n, 8)
  }

  function NameOf(e: Elem): seq<byte> {
    match e
    case ID(_) => ID_NAME
    case _ => e.name
  }

  function ValueOf(e: Elem): seq<byte> {
    match e
    case S(_, text) => text
    case I(_, n) => BE64(n)
    case T(_, flag) => [if flag then 0xFF else 0x00]
    case ID(id) => id
    case TS(_, sec, nsec) => BE64(ToMillis(sec, nsec) % TWO64)
  }

  /** Name, separator, value. */
  function ElemBytes(e: Elem): (b: seq<byte>)
    ensures b != []
  {
    NameOf(e) + [USEP] + ValueOf(e)
  }

  type K = seq<Elem>

  /** A key is valid when no name in it contains the separator. */
  predicate ValidKey(k: K) {
    forall j :: 0 <= j < |k| ==> USEP !in NameOf(k[j])
  }

  /** The bucket names and the final key, as one path. */
  function Path(k: K): (p: seq<seq<byte>>)
    ensures |p| == |k|
  {
    seq(|k|, j requires 0 <= j < |k| => ElemBytes(k[j]))
  }

  /** A name without separators ends at the first separator. */
  lemma {:induction false} SplitName(a: seq<byte>, x: seq<byte>, b: seq<byte>, y: seq<byte>)
    requires USEP !in a && USEP !in b && a + [USEP] + x == b + [USEP] + y
    ensures a == b && x == y
    decreases |a|
  {
    var l, r := a + [USEP] + x, b + [USEP] + y;
    if a == [] || b == [] {
      assert l[0] == r[0];
      assert a == [] && b == [];
      assert l[1..] == x && r[1..] == y;
    } else {
      assert l[0] == r[0];
      assert l[1..] == a[1..] + [USEP] + x && r[1..] == b[1..] + [USEP] + y;
      SplitName(a[1..], x, b[1..], y);
      assert a == [a[0]] + a[1..] && b == [b[0]] + b[1..];
    }
  }

  /** Valid keys with the same bytes have the same names and the same values,
      element by element: the validity check rules out collisions. */
  lemma ValidKeysDoNotCollide(k: K, k': K)
    requires ValidKey(k) && ValidKey(k') && Path(k) == Path(k')
    ensures |k| == |k'|
    ensures forall j :: 0 <= j < |k| ==> NameOf(k[j]) == NameOf(k'[j]) && ValueOf(k[j]) == ValueOf(k'[j])
  {
    hide NameOf, ValueOf;
    forall j | 0 <= j < |k|
      ensures NameOf(k[j]) == NameOf(k'[j]) && ValueOf(k[j]) == ValueOf(k'[j])
    {
      assert Path(k)[j] == Path(k')[j];
      SplitName(NameOf(k[j]), ValueOf(k[j]), NameOf(k'[j]), ValueOf(k'[j]));
    }
  }

  /** The element with the same bytes whose name ends at the first separator. */
  function Shortened(e: Elem): (s: Elem)
    ensures ElemBytes(s) == ElemBytes(e) && USEP !in NameOf(s)
  {
    var k := FirstSeparator(NameOf(e) + [USEP], 0);
    var b := ElemBytes(e);
    assert b[..k] == (NameOf(e) + [USEP])[..k] && b[k] == USEP;
    assert b == b[..k] + [USEP] + b[k + 1..];
    S(b[..k], b[k + 1..])
  }

  function FirstSeparator(b: seq<byte>, i: nat): (k: nat)
    requires i < |b| && USEP in b[i..]
    ensures i <= k < |b| && b[k] == USEP && USEP !in b[i..k]
    decreases |b| - i
  {
    if b[i] == USEP then i
    else
      assert b[i..] == [b[i]] + b[i + 1..];
      var k := FirstSeparator(b, i + 1);
      assert b[i..k] == [b[i]] + b[i + 1..k];
      k
  }

  /** The check refuses exactly the keys that collide: those with the bytes of a
      valid key with other names. */
  lemma ValidIff(k: K)
    ensures ValidKey(k) <==>
      forall k' :: ValidKey(k') && Path(k') == Path(k) ==> |k'| == |k| && forall j :: 0 <= j < |k| ==> NameOf(k'[j]) == NameOf(k[j])
  {
    hide NameOf, ElemBytes, Shortened;
    if ValidKey(k) {
      forall k' | ValidKey(k') && Path(k') == Path(k)
        ensures |k'| == |k| && forall j :: 0 <= j < |k| ==> NameOf(k'[j]) == NameOf(k[j])
      {
        ValidKeysDoNotCollide(k', k);
      }
    } else {
      var k' := seq(|k|, j requires 0 <= j < |k| => Shortened(k[j]));
      assert ValidKey(k') && Path(k') == Path(k);
    }
  }

  /** Without the check keys do collide. */
  lemma SeparatorInNameCollides()
    ensures var (k, k') := ([S([0x61], [USEP, 0x62])], [S([0x61, USEP], [0x62])]);
      ValidKey(k) && !ValidKey(k') && Path(k) == Path(k')
  {
    var (k, k') := ([S([0x61], [USEP, 0x62])], [S([0x61, USEP], [0x62])]);
    assert ElemBytes(k[0]) == [0x61, USEP, USEP, 0x62];
    assert ElemBytes(k'[0]) == [0x61, USEP, USEP, 0x62];
    assert Path(k)[0] == Path(k')[0];
    assert NameOf(k'[0])[1] == USEP;
  }

  /** A time key has the same bytes before and after its instant was stored in a document. */
  lemma TimeKeySurvivesStorage(name: seq<byte>, sec: i64, nsec: int)
    ensures var t := Norm(Time(sec, nsec)); ElemBytes(TS(name, t.sec, t.nsec)) == ElemBytes(TS(name, sec, nsec))
  {
    MillisBack(ToMillis(sec, nsec));
  }
}
