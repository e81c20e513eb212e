/** BSON documents as ordered lists of named values. */
module BsonValue {
  import opened Bytes

  /** One constructor for each Go type that the encoder or the decoder produces.
      Int is the machine integer, Int64 the explicitly sized one; a []byte is a
      Binary of subtype 0. */
  datatype Value =
    | Double(bits: nat)
    | Str(text: seq<byte>)
    | Doc(fields: seq<Field>)
    | Array(items: seq<Value>)
    | Binary(subtype: byte, data: seq<byte>)
    | Undefined
    | ObjectId(id: seq<byte>)
    | Bool(flag: bool)
    | Time(sec: i64, nsec: int)
    | Null
    | RegEx(pattern: seq<byte>, options: seq<byte>)
    | DBPointer(namespace: seq<byte>, id: seq<byte>)
    | JavaScript(code: seq<byte>)
    | Symbol(text: seq<byte>)
    | Scoped(code: seq<byte>, scope: seq<Field>)
    | Int(n: i64)
    | Timestamp(n: i64)
    | Int64(n: i64)
    | Decimal(h: nat, l: nat)
    | MaxKey
    | MinKey

  datatype Field = Field(name: seq<byte>, value: Value)

  predicate NulFree(b: seq<byte>) {
    forall k :: 0 <= k < |b| ==> b[k] != 0
  }

  /** Object ids have exactly 12 bytes; the encoder gives up otherwise. */
  predicate Encodable(v: Value)
    decreases v, 1
  {
    match v
    case Doc(fields) => EncodableAll(fields)
    case Scoped(_, scope) => EncodableAll(scope)
    case Array(items) => EncodableItems(items)
    case ObjectId(id) => |id| == 12
    case DBPointer(_, id) => |id| == 12
    case _ => true
  }

  predicate EncodableAll(fields: seq<Field>)
    decreases fields, 0
  {
    fields == [] || (Encodable(fields[0].value) && EncodableAll(fields[1..]))
  }

  predicate EncodableItems(items: seq<Value>)
    decreases items, 0
  {
    items == [] || (Encodable(items[0]) && EncodableItems(items[1..]))
  }

  /** Encodable values whose names and patterns hold no NUL byte, the only
      character that the format cannot carry there, and whose words fit. */
  predicate Good(v: Value)
    decreases v, 1
  {
    match v
    case Doc(fields) => GoodAll(fields)
    case Scoped(_, scope) => GoodAll(scope)
    case Array(items) => GoodItems(items)
    case ObjectId(id) => |id| == 12
    case DBPointer(_, id) => |id| == 12
    case RegEx(pattern, options) => NulFree(pattern) && NulFree(options)
    case Double(bits) => bits < TWO64
    case Decimal(h, l) => h < TWO64 && l < TWO64
    case _ => true
  }

  predicate GoodAll(fields: seq<Field>)
    decreases fields, 0
  {
    fields == [] || (NulFree(fields[0].name) && Good(fields[0].value) && GoodAll(fields[1..]))
  }

  predicate GoodItems(items: seq<Value>)
    decreases items, 0
  {
    items == [] || (Good(items[0]) && GoodItems(items[1..]))
  }

  /** Quotient rounded towards zero, and the remainder with the sign of the dividend. */
  function TruncDiv(a: int, b: int): int
    requires b > 0
  {
    if a >= 0 then a / b else -(-a / b)
  }

  function TruncMod(a: int, b: int): int
    requires b > 0
  {
    a - TruncDiv(a, b) * b
  }

  const ZERO_TIME: int := -62135596800000

  /** The instant of a stored number of milliseconds. */
  function FromMillis(i: i64): (t: Value)
    ensures t.Time? && 0 <= t.nsec < 1_000_000_000
  {
    if i == ZERO_TIME then Time(-62135596800, 0)
    else
      var sec, nsec := TruncDiv(i, 1000), TruncMod(i, 1000) * 1_000_000;
      if nsec < 0 then Time(sec - 1, nsec + 1_000_000_000) else Time(sec, nsec)
  }

  /** The milliseconds of an instant, in 64-bit arithmetic. */
  function ToMillis(sec: int, nsec: int): i64 {
    Wrap64(sec * 1000 + TruncDiv(nsec, 1_000_000))
  }

  /** What a value turns into when it is stored and read back: instants lose
      what is finer than a millisecond, machine integers beyond 32 bits become
      sized ones, and the obsolete binary subtype becomes the plain one. */
  function Norm(v: Value): Value
    decreases v, 1
  {
    match v
    case Doc(fields) => Doc(NormAll(fields))
    case Scoped(code, scope) => Scoped(code, NormAll(scope))
    case Array(items) => Array(NormItems(items))
    case Binary(subtype, data) => if subtype == 2 then Binary(0, data) else v
    case Time(sec, nsec) => FromMillis(ToMillis(sec, nsec))
    case Int(n) => if -0x8000_0000 <= n < 0x8000_0000 then v else Int64(n)
    case _ => v
  }

  function NormAll(fields: seq<Field>): seq<Field>
    decreases fields, 0
  {
    if fields == [] then [] else [Field(fields[0].name, Norm(fields[0].value))] + NormAll(fields[1..])
  }

  function NormItems(items: seq<Value>): seq<Value>
    decreases items, 0
  {
    if items == [] then [] else [Norm(items[0])] + NormItems(items[1..])
  }

  /** Reading and storing whole milliseconds loses nothing. */
  lemma MillisBack(i: i64)
    ensures ToMillis(FromMillis(i).sec, FromMillis(i).nsec) == i
  {
  }

  /** What was read back is kept from then on. */
  lemma {:induction false} NormIdempotent(v: Value)
    ensures Norm(Norm(v)) == Norm(v)
    decreases v, 1
  {
    match v
    case Doc(fields) => NormAllIdempotent(fields);
    case Scoped(code, scope) => NormAllIdempotent(scope);
    case Array(items) => NormItemsIdempotent(items);
    case Time(sec, nsec) => MillisBack(ToMillis(sec, nsec));
    case _ =>
  }

  lemma {:induction false} NormAllIdempotent(fields: seq<Field>)
    ensures NormAll(NormAll(fields)) == NormAll(fields)
    decreases fields, 0
  {
    if fields != [] {
      NormIdempotent(fields[0].value);
      NormAllIdempotent(fields[1..]);
      assert NormAll(fields)[1..] == NormAll(fields[1..]);
    }
  }

  lemma {:induction false} NormItemsIdempotent(items: seq<Value>)
    ensures NormItems(NormItems(items)) == NormItems(items)
    decreases items, 0
  {
    if items != [] {
      NormIdempotent(items[0]);
      NormItemsIdempotent(items[1..]);
      assert NormItems(items)[1..] == NormItems(items[1..]);
    }
  }
}
