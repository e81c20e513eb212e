/** The document format, as relations between bytes and values: BSON
    Specification version 1.1, sections "Specification" and "document". */
module BsonFormat {
  import opened Bytes
  import opened BsonValue
  import DecimalNotation

  /** The number in four bytes, the least significant first. */
  function Little4(b: seq<byte>): (n: nat)
    requires |b| == 4
    ensures n < 0x1_0000_0000
  {
    var b0: nat, b1: nat, b2: nat, b3: nat := b[0], b[1], b[2], b[3];
    b0 + 0x100 * b1 + 0x1_0000 * b2 + 0x100_0000 * b3
  }

  /** The number in eight bytes. */
  function Little8(b: seq<byte>): (n: nat)
    requires |b| == 8
    ensures n < 0x1_0000_0000_0000_0000
  {
    Little4(b[..4]) + 0x1_0000_0000 * Little4(b[4..])
  }

  /** In two's complement. */
  function Signed4(b: seq<byte>): int
    requires |b| == 4
  {
    if Little4(b) < 0x8000_0000 then Little4(b) else Little4(b) - 0x1_0000_0000
  }

  function Signed8(b: seq<byte>): int
    requires |b| == 8
  {
    if Little8(b) < 0x8000_0000_0000_0000 then Little8(b) else Little8(b) - 0x1_0000_0000_0000_0000
  }

  /** b holds the low four bytes of n. */
  predicate Int32Text(b: seq<byte>, n: int) {
    |b| == 4 && Little4(b) == n % 0x1_0000_0000
  }

  predicate Int64Text(b: seq<byte>, n: int) {
    |b| == 8 && Little8(b) == n % 0x1_0000_0000_0000_0000
  }

  /** A string: its length with the closing NUL, its bytes, the NUL. */
  predicate StringText(b: seq<byte>, s: seq<byte>) {
    |b| == |s| + 5 && Int32Text(b[..4], |s| + 1) && b[4..|s| + 4] == s && b[|s| + 4] == 0
  }

  /** A document or an array around its elements: the length of everything, the elements, a NUL. */
  predicate FrameText(b: seq<byte>) {
    |b| >= 5 && Int32Text(b[..4], |b|) && b[|b| - 1] == 0
  }

  /** Characters as bytes. */
  function Ascii(b: seq<byte>): (s: string)
    ensures |s| == |b|
  {
    seq(|b|, k requires 0 <= k < |b| => b[k] as char)
  }

  /** The name of an item: its index in decimal, without leading zeros. */
  predicate IndexText(name: seq<byte>, i: nat) {
    DecimalNotation.Denotes(Ascii(name), i)
  }

  /** b are the bytes of a document with exactly these elements in this order. */
  ghost predicate DocumentText(b: seq<byte>, fields: seq<Field>)
    decreases fields, 1
  {
    FrameText(b) && ElementsText(b[4..|b| - 1], fields)
  }

  ghost predicate ElementsText(b: seq<byte>, fields: seq<Field>)
    decreases fields, 0
  {
    if fields == [] then b == []
    else
      exists k :: 0 <= k <= |b| && ElementText(b[..k], fields[0].name, fields[0].value) && ElementsText(b[k..], fields[1..])
  }

  ghost predicate ItemsText(b: seq<byte>, items: seq<Value>, i: nat)
    decreases items, 0
  {
    if items == [] then b == []
    else
      exists k, name :: 0 <= k <= |b| && IndexText(name, i) && ElementText(b[..k], name, items[0]) && ItemsText(b[k..], items[1..], i + 1)
  }

  /** An element: the type, the name, a NUL, the value. */
  ghost predicate ElementText(b: seq<byte>, name: seq<byte>, v: Value)
    decreases v, 2
  {
    && |b| >= |name| + 2 && b[1..|name| + 1] == name && b[|name| + 1] == 0
    && ValueText(b[0], b[|name| + 2..], v)
  }

  /** The type of each value and its bytes. */
  ghost predicate ValueText(kind: byte, b: seq<byte>, v: Value)
    decreases v, 1
  {
    match v
    case Double(bits) => kind == 0x01 && Int64Text(b, bits)
    case Str(s) => kind == 0x02 && StringText(b, s)
    case Doc(fields) => kind == 0x03 && DocumentText(b, fields)
    case Array(items) => kind == 0x04 && FrameText(b) && ItemsText(b[4..|b| - 1], items, 0)
    case Binary(subtype, data) =>
      kind == 0x05 &&
      if subtype == 2 then
        |b| == |data| + 9 && Int32Text(b[..4], |data| + 4) && b[4] == 2 && Int32Text(b[5..9], |data|) && b[9..] == data
      else |b| == |data| + 5 && Int32Text(b[..4], |data|) && b[4] == subtype && b[5..] == data
    case Undefined => kind == 0x06 && b == []
    case ObjectId(id) => kind == 0x07 && b == id && |b| == 12
    case Bool(flag) => kind == 0x08 && b == if flag then [1] else [0]
    case Time(sec, nsec) =>
      kind == 0x09 && Int64Text(b, 1000 * sec + if nsec >= 0 then nsec / 1_000_000 else -(-nsec / 1_000_000))
    case Null => kind == 0x0A && b == []
    case RegEx(pattern, options) => kind == 0x0B && b == pattern + [0] + options + [0]
    case DBPointer(ns, id) =>
      kind == 0x0C && |id| == 12 && |b| == |ns| + 17 && StringText(b[..|ns| + 5], ns) && b[|ns| + 5..] == id
    case JavaScript(code) => kind == 0x0D && StringText(b, code)
    case Symbol(s) => kind == 0x0E && StringText(b, s)
    case Scoped(code, scope) =>
      && kind == 0x0F && |b| >= |code| + 9 && Int32Text(b[..4], |b|)
      && StringText(b[4..|code| + 9], code) && DocumentText(b[|code| + 9..], scope)
    case Int(n) => if -0x8000_0000 <= n < 0x8000_0000 then kind == 0x10 && Int32Text(b, n) else kind == 0x12 && Int64Text(b, n)
    case Timestamp(n) => kind == 0x11 && Int64Text(b, n)
    case Int64(n) => kind == 0x12 && Int64Text(b, n)
    case Decimal(h, l) => kind == 0x13 && |b| == 16 && Int64Text(b[..8], l) && Int64Text(b[8..], h)
    case MaxKey => kind == 0x7F && b == []
    case MinKey => kind == 0xFF && b == []
  }

  /** What the decoder takes for a document. It is the same format with a few
      liberties: names of items are not looked at, neither is the length in
      front of code with a scope, and lengths stay below 2^31. */
  ghost predicate AcceptsDocument(b: seq<byte>, fields: seq<Field>)
    decreases fields, 1
  {
    AcceptsFrame(b) && AcceptsElements(b[4..|b| - 1], fields)
  }

  predicate AcceptsFrame(b: seq<byte>) {
    |b| >= 5 && Signed4(b[..4]) == |b| && b[|b| - 1] == 0
  }

  ghost predicate AcceptsElements(b: seq<byte>, fields: seq<Field>)
    decreases fields, 0
  {
    if fields == [] then b == []
    else
      exists k :: 0 <= k <= |b| && AcceptsElement(b[..k], fields[0].name, fields[0].value) && AcceptsElements(b[k..], fields[1..])
  }

  ghost predicate AcceptsItems(b: seq<byte>, items: seq<Value>)
    decreases items, 0
  {
    if items == [] then b == []
    else
      exists k, name :: 0 <= k <= |b| && AcceptsElement(b[..k], name, items[0]) && AcceptsItems(b[k..], items[1..])
  }

  /** The name ends at the first NUL, and a zero type ends the document instead. */
  ghost predicate AcceptsElement(b: seq<byte>, name: seq<byte>, v: Value)
    decreases v, 2
  {
    && |b| >= |name| + 2 && b[1..|name| + 1] == name && b[|name| + 1] == 0
    && b[0] != 0 && NulFree(name) && AcceptsValue(b[0], b[|name| + 2..], v)
  }

  predicate AcceptsString(b: seq<byte>, s: seq<byte>) {
    StringText(b, s) && |s| < 0x8000_0000
  }

  /** The instant of a number of milliseconds since 1970. */
  predicate Instant(millis: int, sec: int, nsec: int) {
    0 <= nsec < 1_000_000_000 && 1_000_000_000 * sec + nsec == 1_000_000 * millis
  }

  /** The value that each type and its bytes become. */
  ghost predicate AcceptsValue(kind: byte, b: seq<byte>, v: Value)
    decreases v, 1
  {
    match v
    case Double(bits) => kind == 0x01 && |b| == 8 && Little8(b) == bits
    case Str(s) => kind == 0x02 && AcceptsString(b, s)
    case Doc(fields) => kind == 0x03 && AcceptsDocument(b, fields)
    case Array(items) => kind == 0x04 && AcceptsFrame(b) && AcceptsItems(b[4..|b| - 1], items)
    case Binary(subtype, data) =>
      && kind == 0x05 && |b| >= 5 && Signed4(b[..4]) == |b| - 5
      && if b[4] == 2 then subtype == 0 && data == if |b| >= 9 then b[9..] else b[5..]
         else subtype == b[4] && data == b[5..]
    case Undefined => kind == 0x06 && b == []
    case ObjectId(id) => kind == 0x07 && b == id && |b| == 12
    case Bool(flag) => kind == 0x08 && b == if flag then [1] else [0]
    case Time(sec, nsec) => kind == 0x09 && |b| == 8 && Instant(Signed8(b), sec, nsec)
    case Null => kind == 0x0A && b == []
    case RegEx(pattern, options) => kind == 0x0B && NulFree(pattern) && NulFree(options) && b == pattern + [0] + options + [0]
    case DBPointer(ns, id) =>
      kind == 0x0C && |id| == 12 && |b| == |ns| + 17 && AcceptsString(b[..|ns| + 5], ns) && b[|ns| + 5..] == id
    case JavaScript(code) => kind == 0x0D && AcceptsString(b, code)
    case Symbol(s) => kind == 0x0E && AcceptsString(b, s)
    case Scoped(code, scope) =>
      && kind == 0x0F && |b| >= |code| + 9
      && AcceptsString(b[4..|code| + 9], code) && AcceptsDocument(b[|code| + 9..], scope)
    case Int(n) => kind == 0x10 && |b| == 4 && Signed4(b) == n
    case Timestamp(n) => kind == 0x11 && |b| == 8 && Signed8(b) == n
    case Int64(n) => kind == 0x12 && |b| == 8 && Signed8(b) == n
    case Decimal(h, l) => kind == 0x13 && |b| == 16 && Little8(b[..8]) == l && Little8(b[8..]) == h
    case MaxKey => kind == 0x7F && b == []
    case MinKey => kind == 0xFF && b == []
  }
}
