/** The encoder writes exactly the document format. */
module BsonWritten {
  import opened Bytes
  import opened BsonValue
  import opened BsonEncode
  import opened BsonFormat
  import Numerals
  import DecimalNotation

  lemma DigitsUnique(r: nat, q: nat, r': nat, q': nat)
    requires r < 256 && r' < 256 && r + 0x100 * q == r' + 0x100 * q'
    ensures r == r' && q == q'
  {
  }

  lemma Little4Injective(a: seq<byte>, b: seq<byte>)
    requires |a| == |b| == 4 && Little4(a) == Little4(b)
    ensures a == b
  {
    var a0: nat, a1: nat, a2: nat, a3: nat := a[0], a[1], a[2], a[3];
    var b0: nat, b1: nat, b2: nat, b3: nat := b[0], b[1], b[2], b[3];
    DigitsUnique(a0, a1 + 0x100 * a2 + 0x1_0000 * a3, b0, b1 + 0x100 * b2 + 0x1_0000 * b3);
    DigitsUnique(a1, a2 + 0x100 * a3, b1, b2 + 0x100 * b3);
    DigitsUnique(a2, a3, b2, b3);
    assert a == [a[0], a[1], a[2], a[3]] && b == [b[0], b[1], b[2], b[3]];
  }

  lemma Int32Iff(b: seq<byte>, n: int)
    ensures Int32Text(b, n) <==> b == LE32(n)
  {
    hide LE32, Little4;
    Little4Is(LE32(n));
    U32OfLE32(n);
    if |b| == 4 && Little4(b) == Little4(LE32(n)) {
      Little4Injective(b, LE32(n));
    }
  }

  lemma Little4Is(b: seq<byte>)
    requires |b| == 4
    ensures Little4(b) == U32(b)
  {
  }

  lemma Little8Is(b: seq<byte>)
    requires |b| == 8
    ensures Little8(b) == U64(b)
  {
    hide Little4, U32;
    Little4Is(b[..4]);
    Little4Is(b[4..]);
  }

  lemma Int64Iff(b: seq<byte>, n: int)
    ensures Int64Text(b, n) <==> b == LE64(n)
  {
    hide LE32, LE64, Little4;
    Little8Is(LE64(n));
    U64OfLE64(n);
    if |b| == 8 && Little8(b) == Little8(LE64(n)) {
      var c := LE64(n);
      Little4Injective(b[..4], c[..4]);
      Little4Injective(b[4..], c[4..]);
      assert b == b[..4] + b[4..] && c == c[..4] + c[4..];
    }
  }

  lemma StringIff(b: seq<byte>, s: seq<byte>)
    ensures StringText(b, s) <==> b == Str32(s)
  {
    hide LE32, Int32Text;
    if StringText(b, s) {
      Int32Iff(b[..4], |s| + 1);
      assert b == b[..4] + (b[4..|s| + 4] + [b[|s| + 4]]);
    }
    if b == Str32(s) {
      assert b[..4] == LE32(|s| + 1);
      Int32Iff(b[..4], |s| + 1);
    }
  }

  /** A frame around given elements. */
  lemma FrameIff(b: seq<byte>, elems: seq<byte>)
    ensures FrameText(b) && b[4..|b| - 1] == elems <==> b == Framed(elems)
  {
    hide LE32, Int32Text;
    if FrameText(b) && b[4..|b| - 1] == elems {
      Int32Iff(b[..4], |b|);
      assert b == b[..4] + b[4..|b| - 1] + [b[|b| - 1]];
    }
    if b == Framed(elems) {
      assert b[..4] == LE32(|elems| + 5) && b[4..|b| - 1] == elems;
      Int32Iff(b[..4], |b|);
    }
  }

  lemma BinaryIff(b: seq<byte>, subtype: byte, data: seq<byte>)
    ensures ValueText(0x05, b, Binary(subtype, data)) <==> b == BinaryBytes(subtype, data)
  {
    hide LE32, Int32Text;
    if ValueText(0x05, b, Binary(subtype, data)) {
      if subtype == 2 {
        Int32Iff(b[..4], |data| + 4);
        Int32Iff(b[5..9], |data|);
        assert b == b[..4] + [b[4]] + b[5..9] + b[9..];
      } else {
        Int32Iff(b[..4], |data|);
        assert b == b[..4] + [b[4]] + b[5..];
      }
    }
    if b == BinaryBytes(subtype, data) {
      if subtype == 2 {
        assert b[..4] == LE32(|data| + 4) && b[5..9] == LE32(|data|) && b[9..] == data;
        Int32Iff(b[..4], |data| + 4);
        Int32Iff(b[5..9], |data|);
      } else {
        assert b[..4] == LE32(|data|) && b[5..] == data;
        Int32Iff(b[..4], |data|);
      }
    }
  }

  lemma PointerIff(b: seq<byte>, ns: seq<byte>, id: seq<byte>)
    ensures ValueText(0x0C, b, DBPointer(ns, id)) <==> |id| == 12 && b == Str32(ns) + id
  {
    hide Str32, StringText;
    if ValueText(0x0C, b, DBPointer(ns, id)) {
      StringIff(b[..|ns| + 5], ns);
      assert b == b[..|ns| + 5] + b[|ns| + 5..];
    }
    if |id| == 12 && b == Str32(ns) + id {
      Str32Length(ns);
      assert b[..|ns| + 5] == Str32(ns) && b[|ns| + 5..] == id;
      StringIff(b[..|ns| + 5], ns);
    }
  }

  lemma Str32Length(s: seq<byte>)
    ensures |Str32(s)| == |s| + 5
  {
  }

  lemma DecimalIff(b: seq<byte>, h: nat, l: nat)
    ensures ValueText(0x13, b, Decimal(h, l)) <==> b == LE64(l) + LE64(h)
  {
    hide LE64, Int64Text;
    if ValueText(0x13, b, Decimal(h, l)) {
      Int64Iff(b[..8], l);
      Int64Iff(b[8..], h);
      assert b == b[..8] + b[8..];
    }
    if b == LE64(l) + LE64(h) {
      assert b[..8] == LE64(l) && b[8..] == LE64(h);
      Int64Iff(b[..8], l);
      Int64Iff(b[8..], h);
    }
  }

  lemma TimeIff(b: seq<byte>, sec: i64, nsec: int)
    ensures ValueText(0x09, b, Time(sec, nsec)) <==> b == LE64(ToMillis(sec, nsec))
  {
    hide LE64;
    var n := sec * 1000 + TruncDiv(nsec, 1_000_000);
    assert Wrap64(n) % TWO64 == n % TWO64;
    Int64Iff(b, ToMillis(sec, nsec));
  }

  /** An item's name is the decimal numeral of its index. */
  lemma IndexIff(name: seq<byte>, i: nat)
    ensures IndexText(name, i) <==> name == IndexName(i)
  {
    hide Numerals.Digits, DecimalNotation.Denotes;
    var ds := Numerals.Digits(i);
    if IndexText(name, i) {
      DecimalNotation.OneNumeral(Ascii(name), i);
      forall k | 0 <= k < |name| ensures name[k] == IndexName(i)[k] {
        assert Ascii(name)[k] == ds[k];
      }
    }
    if name == IndexName(i) {
      DecimalNotation.DigitsDenote(i);
      forall k | 0 <= k < |ds| ensures Ascii(name)[k] == ds[k] {
        Numerals.DigitCharOfValue(ds[k]);
      }
      assert Ascii(name) == ds;
    }
  }

  /** Values that hold no others. */
  lemma PlainIff(kind: byte, b: seq<byte>, v: Value)
    requires !v.Doc? && !v.Array? && !v.Scoped?
    ensures ValueText(kind, b, v) <==> Encodable(v) && kind == Kind(v) && b == Payload(v)
  {
    hide LE32, LE64, Str32, StringText, Int32Text, Int64Text, BinaryBytes, ToMillis;
    match v
    case Double(bits) => Int64Iff(b, bits);
    case Str(s) => StringIff(b, s);
    case Binary(subtype, data) => BinaryIff(b, subtype, data);
    case Time(sec, nsec) => TimeIff(b, sec, nsec);
    case RegEx(pattern, options) => assert pattern + [0] + options + [0] == CStr(pattern) + CStr(options);
    case DBPointer(ns, id) => PointerIff(b, ns, id);
    case JavaScript(code) => StringIff(b, code);
    case Symbol(s) => StringIff(b, s);
    case Int(n) => Int32Iff(b, n); Int64Iff(b, n);
    case Timestamp(n) => Int64Iff(b, n);
    case Int64(n) => Int64Iff(b, n);
    case Decimal(h, l) => DecimalIff(b, h, l);
    case _ =>
  }

  lemma {:induction false} ScopedIff(b: seq<byte>, code: seq<byte>, scope: seq<Field>)
    ensures ValueText(0x0F, b, Scoped(code, scope)) <==> EncodableAll(scope) && b == Payload(Scoped(code, scope))
    decreases scope, 2
  {
    hide LE32, Str32, StringText, Int32Text, DocumentText, Framed, Elements;
    var doc := Framed(Elements(scope));
    Str32Length(code);
    if ValueText(0x0F, b, Scoped(code, scope)) {
      Int32Iff(b[..4], |b|);
      StringIff(b[4..|code| + 9], code);
      DocumentWritten(b[|code| + 9..], scope);
      assert b == b[..4] + (b[4..|code| + 9] + b[|code| + 9..]);
    }
    if EncodableAll(scope) && b == Payload(Scoped(code, scope)) {
      assert b[..4] == LE32(|b|) && b[4..|code| + 9] == Str32(code) && b[|code| + 9..] == doc;
      Int32Iff(b[..4], |b|);
      StringIff(b[4..|code| + 9], code);
      DocumentWritten(b[|code| + 9..], scope);
    }
  }

  lemma {:induction false} ValueWritten(kind: byte, b: seq<byte>, v: Value)
    ensures ValueText(kind, b, v) <==> Encodable(v) && kind == Kind(v) && b == Payload(v)
    decreases v, 3
  {
    match v
    case Doc(fields) => DocumentWritten(b, fields);
    case Array(items) => ArrayWritten(b, items);
    case Scoped(code, scope) => ScopedIff(b, code, scope);
    case _ => PlainIff(kind, b, v);
  }

  lemma ElementShape(kind: byte, name: seq<byte>, payload: seq<byte>)
    ensures var b := [kind] + CStr(name) + payload;
      && |b| >= |name| + 2 && b[0] == kind && b[1..|name| + 1] == name && b[|name| + 1] == 0
      && b[|name| + 2..] == payload
  {
    var b := [kind] + CStr(name) + payload;
    assert b == [kind] + (name + ([0] + payload));
    assert b[1..] == name + ([0] + payload);
    assert b[1..|name| + 1] == b[1..][..|name|];
    assert b[|name| + 2..] == b[1..][|name| + 1..];
  }

  lemma {:induction false} ElementWritten(b: seq<byte>, name: seq<byte>, v: Value)
    ensures ElementText(b, name, v) <==> Encodable(v) && b == Element(name, v)
    decreases v, 4
  {
    hide ValueText, Payload, Kind, Encodable;
    if ElementText(b, name, v) {
      ValueWritten(b[0], b[|name| + 2..], v);
      assert b == [b[0]] + (b[1..|name| + 1] + [b[|name| + 1]]) + b[|name| + 2..];
    }
    if Encodable(v) && b == Element(name, v) {
      ElementShape(Kind(v), name, Payload(v));
      ValueWritten(b[0], b[|name| + 2..], v);
    }
  }

  lemma {:induction false} ElementsWritten(b: seq<byte>, fields: seq<Field>)
    ensures ElementsText(b, fields) <==> EncodableAll(fields) && b == Elements(fields)
    decreases fields, 0
  {
    hide ElementText, Element, Encodable;
    if fields != [] {
      var name, v, rest := fields[0].name, fields[0].value, fields[1..];
      if ElementsText(b, fields) {
        var k :| 0 <= k <= |b| && ElementText(b[..k], name, v) && ElementsText(b[k..], rest);
        ElementWritten(b[..k], name, v);
        ElementsWritten(b[k..], rest);
        assert b == b[..k] + b[k..];
      }
      if EncodableAll(fields) && b == Elements(fields) {
        var k := |Element(name, v)|;
        assert b[..k] == Element(name, v) && b[k..] == Elements(rest);
        ElementWritten(b[..k], name, v);
        ElementsWritten(b[k..], rest);
      }
    }
  }

  lemma {:induction false} ItemsWritten(b: seq<byte>, items: seq<Value>, i: nat)
    ensures ItemsText(b, items, i) <==> EncodableItems(items) && b == Items(items, i)
    decreases items, 0
  {
    hide ElementText, Element, Encodable, IndexText, IndexName;
    if items != [] {
      var name, v, rest := IndexName(i), items[0], items[1..];
      IndexIff(name, i);
      if ItemsText(b, items, i) {
        var k, n :| 0 <= k <= |b| && IndexText(n, i) && ElementText(b[..k], n, v) && ItemsText(b[k..], rest, i + 1);
        IndexIff(n, i);
        ElementWritten(b[..k], name, v);
        ItemsWritten(b[k..], rest, i + 1);
        assert b == b[..k] + b[k..];
      }
      if EncodableItems(items) && b == Items(items, i) {
        var k := |Element(name, v)|;
        assert b[..k] == Element(name, v) && b[k..] == Items(rest, i + 1);
        ElementWritten(b[..k], name, v);
        ItemsWritten(b[k..], rest, i + 1);
      }
    }
  }

  lemma {:induction false} ArrayWritten(b: seq<byte>, items: seq<Value>)
    ensures ValueText(0x04, b, Array(items)) <==> EncodableItems(items) && b == Framed(Items(items, 0))
    decreases items, 1
  {
    hide FrameText, ItemsText, Framed, Items, EncodableItems;
    FrameIff(b, Items(items, 0));
    if |b| >= 5 {
      ItemsWritten(b[4..|b| - 1], items, 0);
    }
    FrameSize(b);
  }

  lemma FrameSize(b: seq<byte>)
    ensures FrameText(b) ==> |b| >= 5
    ensures forall elems :: b == Framed(elems) ==> |b| >= 5
  {
  }

  /** The encoder's bytes are the document with those elements, and no others are. */
  lemma {:induction false} DocumentWritten(b: seq<byte>, fields: seq<Field>)
    ensures DocumentText(b, fields) <==> EncodableAll(fields) && b == Encode(fields)
    decreases fields, 1
  {
    hide FrameText, ElementsText, Framed, Elements, EncodableAll;
    FrameIff(b, Elements(fields));
    if |b| >= 5 {
      ElementsWritten(b[4..|b| - 1], fields);
    }
    FrameSize(b);
  }

  /** Marshal, against the format: it fails if and only if no bytes are the document. */
  method MarshalDocument(fields: seq<Field>) returns (ok: bool, bytes: seq<byte>)
    ensures ok ==> DocumentText(bytes, fields)
    ensures forall b :: DocumentText(b, fields) ==> ok && b == bytes
  {
    hide DocumentText, Encode, EncodableAll;
    ok, bytes := Marshal(fields);
    if ok {
      DocumentWritten(bytes, fields);
    }
    forall b | DocumentText(b, fields) ensures ok && b == bytes {
      DocumentWritten(b, fields);
    }
  }
}
