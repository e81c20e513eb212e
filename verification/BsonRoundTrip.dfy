/** What was encoded decodes to the same document. */
module BsonRoundTrip {
  import opened Bytes
  import opened BsonValue
  import opened BsonEncode
  import opened BsonDecode

  /** b stands in inp at position i. */
  predicate At(inp: seq<byte>, i: nat, b: seq<byte>) {
    i + |b| <= |inp| && inp[i..i + |b|] == b
  }

  lemma AtSplit(inp: seq<byte>, i: nat, a: seq<byte>, b: seq<byte>)
    requires At(inp, i, a + b)
    ensures At(inp, i, a) && At(inp, i + |a|, b)
  {
    var w := inp[i..i + |a + b|];
    assert w[..|a|] == a && w[|a|..] == b;
    assert inp[i..i + |a|] == w[..|a|];
    assert inp[i + |a|..i + |a| + |b|] == w[|a|..];
  }

  lemma BytesBack(inp: seq<byte>, i: nat, b: seq<byte>)
    requires At(inp, i, b) && |b| < 0x8000_0000
    ensures ReadBytes(inp, i, |b|) == Got(b, i + |b|)
  {
  }

  lemma Int32Back(inp: seq<byte>, i: nat, n: int)
    requires At(inp, i, LE32(n))
    ensures ReadInt32(inp, i) == Got(Wrap32(n), i + 4)
  {
    hide LE32, U32, Wrap32;
    SignedBack(n);
  }

  lemma Int64Back(inp: seq<byte>, i: nat, n: int)
    requires At(inp, i, LE64(n))
    ensures ReadInt64(inp, i) == Got(Wrap64(n), i + 8)
  {
    hide LE64, U64, Wrap64;
    SignedBack(n);
  }

  lemma {:induction false} FindNulIs(inp: seq<byte>, i: nat, n: nat)
    requires i + n < |inp| && inp[i + n] == 0 && forall j :: i <= j < i + n ==> inp[j] != 0
    ensures FindNul(inp, i) == i + n
    decreases n
  {
    if n > 0 {
      FindNulIs(inp, i + 1, n - 1);
    }
  }

  lemma {:induction false} SkipNameIs(inp: seq<byte>, i: nat, n: nat, end: nat)
    requires i + n < end <= |inp| && inp[i + n] == 0 && forall j :: i <= j < i + n ==> inp[j] != 0
    ensures SkipName(inp, i, end) == i + n
    decreases n
  {
    if n > 0 {
      SkipNameIs(inp, i + 1, n - 1, end);
    }
  }

  /** Where a NUL-terminated string stands, its NUL is the first one. */
  lemma CStrShape(inp: seq<byte>, i: nat, s: seq<byte>)
    requires At(inp, i, CStr(s)) && NulFree(s)
    ensures i + |s| < |inp| && inp[i + |s|] == 0 && inp[i..i + |s|] == s
    ensures forall j :: i <= j < i + |s| ==> inp[j] != 0
  {
    AtSplit(inp, i, s, [0]);
    OneByte(inp, i + |s|, 0);
    assert forall j :: i <= j < i + |s| ==> inp[j] == inp[i..i + |s|][j - i];
  }

  lemma CStrBack(inp: seq<byte>, i: nat, s: seq<byte>)
    requires At(inp, i, CStr(s)) && NulFree(s)
    ensures ReadCStr(inp, i) == Got(s, i + |s| + 1)
  {
    CStrShape(inp, i, s);
    FindNulIs(inp, i, |s|);
  }

  lemma StrBack(inp: seq<byte>, i: nat, s: seq<byte>)
    requires At(inp, i, Str32(s)) && |s| + 5 < 0x8000_0000
    ensures ReadStr(inp, i) == Got(s, i + |s| + 5)
  {
    hide LE32, ReadInt32, U32;
    AtSplit(inp, i, LE32(|s| + 1), CStr(s));
    AtSplit(inp, i + 4, s, [0]);
    Int32Back(inp, i, |s| + 1);
    BytesBack(inp, i + 4, s);
    assert inp[i + 4 + |s|] == 0 by {
      assert inp[i + 4 + |s|..i + 4 + |s| + 1][0] == inp[i + 4 + |s|];
    }
  }

  lemma BinaryBack(inp: seq<byte>, i: nat, subtype: byte, data: seq<byte>)
    requires At(inp, i, BinaryBytes(subtype, data)) && |BinaryBytes(subtype, data)| < 0x8000_0000
    ensures ReadBinary(inp, i) == Got(Binary(if subtype == 2 then 0 else subtype, data), i + |BinaryBytes(subtype, data)|)
  {
    hide LE32, ReadInt32, U32, At, BinaryBytes, ReadByte, ReadBytes;
    var body := if subtype == 2 then LE32(|data|) + data else data;
    BinaryParts(subtype, data, body);
    AtSplit(inp, i, LE32(|body|), [subtype] + body);
    AtSplit(inp, i + 4, [subtype], body);
    Int32Back(inp, i, |body|);
    OneByte(inp, i + 4, subtype);
    BytesBack(inp, i + 5, body);
  }

  lemma BinaryParts(subtype: byte, data: seq<byte>, body: seq<byte>)
    requires body == if subtype == 2 then LE32(|data|) + data else data
    ensures BinaryBytes(subtype, data) == LE32(|body|) + ([subtype] + body)
    ensures |BinaryBytes(subtype, data)| == |body| + 5
    ensures subtype == 2 ==> |body| >= 4 && body[4..] == data
  {
    hide LE32;
  }

  /** Values that are neither documents nor arrays. */
  predicate Basic(v: Value) {
    !v.Doc? && !v.Array? && !v.Scoped?
  }

  lemma OneByte(inp: seq<byte>, i: nat, b: byte)
    requires At(inp, i, [b])
    ensures ReadByte(inp, i) == Got(b, i + 1) && inp[i] == b
  {
    assert inp[i..i + 1][0] == inp[i];
  }

  predicate Numeric(v: Value) {
    v.Double? || v.Time? || v.Int? || v.Timestamp? || v.Int64? || v.Decimal?
  }

  lemma IntBack(inp: seq<byte>, i: nat, v: Value)
    requires v.Int? && Good(v) && At(inp, i, Payload(v)) && i <= |inp|
    ensures ReadBasic(inp, i, Kind(v)) == Got(Norm(v), i + |Payload(v)|)
  {
    hide LE32, LE64, ReadInt32, ReadInt64, ReadBytes, ReadStr, ReadCStr, ReadBinary, ReadByte, FromMillis, ToMillis,
         BinaryBytes, At, NulFree, Wrap64, Wrap32, Str32, CStr;
    var n := v.n;
    WrapSame64(n);
    if -0x8000_0000 <= n < 0x8000_0000 {
      WrapSame32(n);
      Int32Back(inp, i, n);
    } else {
      Int64Back(inp, i, n);
    }
  }

  lemma DecimalBack(inp: seq<byte>, i: nat, v: Value)
    requires v.Decimal? && Good(v) && At(inp, i, Payload(v)) && i <= |inp|
    ensures ReadBasic(inp, i, Kind(v)) == Got(Norm(v), i + |Payload(v)|)
  {
    hide LE32, LE64, ReadInt32, ReadInt64, ReadBytes, ReadStr, ReadCStr, ReadBinary, ReadByte, FromMillis, ToMillis,
         BinaryBytes, At, NulFree, Wrap64, Wrap32, Str32, CStr;
    AtSplit(inp, i, LE64(v.l), LE64(v.h));
    Int64Back(inp, i, v.l);
    Int64Back(inp, i + 8, v.h);
    WrapDown(v.l);
    WrapDown(v.h);
  }

  lemma NumericBack(inp: seq<byte>, i: nat, v: Value)
    requires Numeric(v) && Good(v) && At(inp, i, Payload(v)) && i <= |inp|
    ensures ReadBasic(inp, i, Kind(v)) == Got(Norm(v), i + |Payload(v)|)
  {
    hide LE32, LE64, ReadInt32, ReadInt64, ReadBytes, ReadStr, ReadCStr, ReadBinary, ReadByte, FromMillis, ToMillis,
         BinaryBytes, At, NulFree, Wrap64, Wrap32, Str32, CStr;
    match v
    case Double(bits) => Int64Back(inp, i, bits); WrapDown(bits);
    case Time(sec, nsec) => Int64Back(inp, i, ToMillis(sec, nsec)); WrapSame64(ToMillis(sec, nsec));
    case Int(_) => IntBack(inp, i, v);
    case Timestamp(n) => Int64Back(inp, i, n); WrapSame64(n);
    case Int64(n) => Int64Back(inp, i, n); WrapSame64(n);
    case Decimal(_, _) => DecimalBack(inp, i, v);
    case _ =>
  }

  lemma StringBack(inp: seq<byte>, i: nat, v: Value)
    requires (v.Str? || v.JavaScript? || v.Symbol?) && Good(v) && At(inp, i, Payload(v)) && |Payload(v)| < 0x8000_0000 && i <= |inp|
    ensures ReadBasic(inp, i, Kind(v)) == Got(Norm(v), i + |Payload(v)|)
  {
    hide LE32, LE64, ReadInt32, ReadInt64, ReadBytes, ReadStr, ReadCStr, ReadBinary, ReadByte, FromMillis, ToMillis,
         BinaryBytes, At, NulFree, Wrap64, Wrap32, Str32, CStr;
    match v
    case Str(s) => Str32Size(s); StrBack(inp, i, s);
    case JavaScript(code) => Str32Size(code); StrBack(inp, i, code);
    case Symbol(s) => Str32Size(s); StrBack(inp, i, s);
    case _ =>
  }

  lemma RegExBack(inp: seq<byte>, i: nat, v: Value)
    requires v.RegEx? && Good(v) && At(inp, i, Payload(v)) && |Payload(v)| < 0x8000_0000 && i <= |inp|
    ensures ReadBasic(inp, i, Kind(v)) == Got(Norm(v), i + |Payload(v)|)
  {
    hide LE32, LE64, ReadInt32, ReadInt64, ReadBytes, ReadStr, ReadCStr, ReadBinary, ReadByte, FromMillis, ToMillis,
         BinaryBytes, At, NulFree, Wrap64, Wrap32, Str32, CStr;
    var p, o := v.pattern, v.options;
    AtSplit(inp, i, CStr(p), CStr(o));
    CStrSize(p);
    CStrSize(o);
    CStrBack(inp, i, p);
    CStrBack(inp, i + |CStr(p)|, o);
  }

  lemma PointerBack(inp: seq<byte>, i: nat, v: Value)
    requires v.DBPointer? && Good(v) && At(inp, i, Payload(v)) && |Payload(v)| < 0x8000_0000 && i <= |inp|
    ensures ReadBasic(inp, i, Kind(v)) == Got(Norm(v), i + |Payload(v)|)
  {
    hide LE32, LE64, ReadInt32, ReadInt64, ReadBytes, ReadStr, ReadCStr, ReadBinary, ReadByte, FromMillis, ToMillis,
         BinaryBytes, At, NulFree, Wrap64, Wrap32, Str32, CStr;
    AtSplit(inp, i, Str32(v.namespace), v.id);
    Str32Size(v.namespace);
    StrBack(inp, i, v.namespace);
    BytesBack(inp, i + |Str32(v.namespace)|, v.id);
  }

  lemma TextBack(inp: seq<byte>, i: nat, v: Value)
    requires Basic(v) && !Numeric(v) && Good(v) && At(inp, i, Payload(v)) && |Payload(v)| < 0x8000_0000 && i <= |inp|
    ensures ReadBasic(inp, i, Kind(v)) == Got(Norm(v), i + |Payload(v)|)
  {
    hide LE32, LE64, ReadInt32, ReadInt64, ReadBytes, ReadStr, ReadCStr, ReadBinary, ReadByte, FromMillis, ToMillis,
         BinaryBytes, At, NulFree, Wrap64, Wrap32, Str32, CStr;
    match v
    case Binary(subtype, data) => BinaryBack(inp, i, subtype, data);
    case ObjectId(id) => BytesBack(inp, i, id);
    case Bool(flag) => OneByte(inp, i, if flag then 1 else 0);
    case RegEx(_, _) => RegExBack(inp, i, v);
    case DBPointer(_, _) => PointerBack(inp, i, v);
    case Str(_) => StringBack(inp, i, v);
    case JavaScript(_) => StringBack(inp, i, v);
    case Symbol(_) => StringBack(inp, i, v);
    case _ =>
  }

  lemma WrapDown(n: nat)
    requires n < TWO64
    ensures Wrap64(n) % TWO64 == n
  {
  }

  lemma WrapSame64(n: i64)
    ensures Wrap64(n) == n
  {
  }

  lemma WrapSame32(n: i32)
    ensures Wrap32(n) == n
  {
  }

  lemma Str32Size(s: seq<byte>)
    ensures |Str32(s)| == |s| + 5
  {
  }

  lemma CStrSize(s: seq<byte>)
    ensures |CStr(s)| == |s| + 1
  {
  }

  /** A frame around elements: the decoder finds its end. */
  lemma FrameBack(inp: seq<byte>, i: nat, elems: seq<byte>)
    requires At(inp, i, Framed(elems)) && |elems| + 5 < 0x8000_0000
    ensures At(inp, i + 4, elems) && i + |elems| + 5 <= |inp| && inp[i + 4 + |elems|] == 0
    ensures ReadEnd(inp, i) == Got(i + |elems| + 5, i + 4)
  {
    hide LE32, ReadInt32, U32, At;
    assert Framed(elems) == LE32(|elems| + 5) + (elems + [0]);
    AtSplit(inp, i, LE32(|elems| + 5), elems + [0]);
    AtSplit(inp, i + 4, elems, [0]);
    Int32Back(inp, i, |elems| + 5);
    AtInside(inp, i + 4 + |elems|, [0]);
    OneByte(inp, i + 4 + |elems|, 0);
  }

  lemma AtInside(inp: seq<byte>, i: nat, b: seq<byte>)
    requires At(inp, i, b)
    ensures i + |b| <= |inp|
  {
  }

  /** The pieces of an element that stands at i. */
  lemma ElementParts(inp: seq<byte>, i: nat, name: seq<byte>, v: Value, rest: seq<byte>)
    requires At(inp, i, Element(name, v) + rest)
    ensures At(inp, i + 1, CStr(name)) && i < |inp| && inp[i] == Kind(v)
    ensures At(inp, i + |name| + 2, Payload(v)) && At(inp, i + |name| + 2 + |Payload(v)|, rest)
    ensures |Element(name, v) + rest| == |name| + 2 + |Payload(v)| + |rest|
    ensures i + |name| + 2 + |Payload(v)| + |rest| <= |inp|
  {
    hide Payload, Kind, At;
    assert Element(name, v) + rest == [Kind(v)] + (CStr(name) + (Payload(v) + rest));
    AtInside(inp, i, Element(name, v) + rest);
    AtSplit(inp, i, [Kind(v)], CStr(name) + (Payload(v) + rest));
    AtSplit(inp, i + 1, CStr(name), Payload(v) + rest);
    CStrSize(name);
    AtSplit(inp, i + 1 + |CStr(name)|, Payload(v), rest);
    OneByte(inp, i, Kind(v));
  }

  lemma GoodSteps(fields: seq<Field>)
    requires fields != [] && GoodAll(fields)
    ensures NulFree(fields[0].name) && Good(fields[0].value) && GoodAll(fields[1..])
    ensures Elements(fields) == Element(fields[0].name, fields[0].value) + Elements(fields[1..])
  {
  }

  lemma GoodItemSteps(items: seq<Value>, k: nat)
    requires items != [] && GoodItems(items)
    ensures Good(items[0]) && GoodItems(items[1..])
    ensures Items(items, k) == Element(IndexName(k), items[0]) + Items(items[1..], k + 1)
  {
  }

  lemma {:induction false} FieldsBack(inp: seq<byte>, i: nat, fields: seq<Field>, end: nat)
    requires GoodAll(fields) && At(inp, i, Elements(fields)) && |Elements(fields)| < 0x8000_0000
    requires end == i + |Elements(fields)| + 1 <= |inp| && inp[end - 1] == 0
    ensures ReadFields(inp, i, end) == Got(NormAll(fields), end)
    decreases fields, 1
  {
    if fields != [] {
      MoreFieldsBack(inp, i, fields, end);
    }
  }

  lemma {:induction false} MoreFieldsBack(inp: seq<byte>, i: nat, fields: seq<Field>, end: nat)
    requires GoodAll(fields) && At(inp, i, Elements(fields)) && |Elements(fields)| < 0x8000_0000
    requires end == i + |Elements(fields)| + 1 <= |inp| && inp[end - 1] == 0 && fields != []
    ensures ReadFields(inp, i, end) == Got(NormAll(fields), end)
    decreases fields, 0
  {
    hide *;
    var name, v := fields[0].name, fields[0].value;
    GoodSteps(fields);
    ElementParts(inp, i, name, v, Elements(fields[1..]));
    CStrBack(inp, i + 1, name);
    var pos := i + |name| + 2;
    ValueBack(inp, pos, v);
    FieldsBack(inp, pos + |Payload(v)|, fields[1..], end);
    FieldsGot(inp, i, end, name, pos, Norm(v), pos + |Payload(v)|, NormAll(fields[1..]), end);
    NormAllStep(fields);
  }

  lemma NormAllStep(fields: seq<Field>)
    requires fields != []
    ensures NormAll(fields) == [Field(fields[0].name, Norm(fields[0].value))] + NormAll(fields[1..])
  {
  }

  lemma NormItemsStep(items: seq<Value>)
    requires items != []
    ensures NormItems(items) == [Norm(items[0])] + NormItems(items[1..])
  {
  }

  lemma {:induction false} ItemsBack(inp: seq<byte>, i: nat, items: seq<Value>, k: nat, end: nat)
    requires GoodItems(items) && At(inp, i, Items(items, k)) && |Items(items, k)| < 0x8000_0000
    requires end == i + |Items(items, k)| + 1 <= |inp| && inp[end - 1] == 0
    ensures ReadItems(inp, i, end) == Got(NormItems(items), end)
    decreases items, 1
  {
    if items != [] {
      MoreItemsBack(inp, i, items, k, end);
    }
  }

  lemma {:induction false} MoreItemsBack(inp: seq<byte>, i: nat, items: seq<Value>, k: nat, end: nat)
    requires GoodItems(items) && At(inp, i, Items(items, k)) && |Items(items, k)| < 0x8000_0000
    requires end == i + |Items(items, k)| + 1 <= |inp| && inp[end - 1] == 0 && items != []
    ensures ReadItems(inp, i, end) == Got(NormItems(items), end)
    decreases items, 0
  {
    hide *;
    var v := items[0];
    var name := IndexName(k);
    GoodItemSteps(items, k);
    ElementParts(inp, i, name, v, Items(items[1..], k + 1));
    CStrShape(inp, i + 1, name);
    SkipNameIs(inp, i + 1, |name|, end);
    var pos := i + |name| + 2;
    ValueBack(inp, pos, v);
    ItemsBack(inp, pos + |Payload(v)|, items[1..], k + 1, end);
    ItemsGot(inp, i, end, pos - 1, Norm(v), pos + |Payload(v)|, NormItems(items[1..]), end);
    NormItemsStep(items);
  }

  lemma {:induction false} DocBack(inp: seq<byte>, i: nat, fields: seq<Field>)
    requires GoodAll(fields) && At(inp, i, Framed(Elements(fields))) && |Framed(Elements(fields))| < 0x8000_0000
    ensures ReadDoc(inp, i) == Got(NormAll(fields), i + |Framed(Elements(fields))|)
    decreases fields, 2
  {
    hide GoodAll, Elements, ReadFields, At, ReadEnd, NormAll;
    FrameBack(inp, i, Elements(fields));
    FieldsBack(inp, i + 4, fields, i + |Elements(fields)| + 5);
  }

  lemma {:induction false} ArrayBack(inp: seq<byte>, i: nat, items: seq<Value>)
    requires GoodItems(items) && At(inp, i, Framed(Items(items, 0))) && |Framed(Items(items, 0))| < 0x8000_0000
    ensures ReadArray(inp, i) == Got(NormItems(items), i + |Framed(Items(items, 0))|)
    decreases items, 2
  {
    hide GoodItems, Items, ReadItems, At, ReadEnd, NormItems;
    FrameBack(inp, i, Items(items, 0));
    ItemsBack(inp, i + 4, items, 0, i + |Items(items, 0)| + 5);
  }

  lemma ScopedStep(inp: seq<byte>, i: nat, code: seq<byte>, pos: nat, scope: seq<Field>, pos': nat)
    requires i <= |inp| && ReadStr(inp, i + 4) == Got(code, pos)
    requires ReadDoc(inp, pos) == Got(scope, pos')
    ensures ReadElem(inp, i, 0x0F) == Got(Scoped(code, scope), pos')
  {
    hide ReadStr, ReadDoc;
  }

  lemma ScopedPayload(code: seq<byte>, scope: seq<Field>)
    ensures var body := Str32(code) + Framed(Elements(scope));
      Payload(Scoped(code, scope)) == LE32(|body| + 4) + body
  {
    hide LE32, Str32, Framed, Elements;
  }

  lemma {:induction false} ScopedBack(inp: seq<byte>, i: nat, code: seq<byte>, scope: seq<Field>)
    requires GoodAll(scope) && At(inp, i, Payload(Scoped(code, scope))) && |Payload(Scoped(code, scope))| < 0x8000_0000
    ensures ReadElem(inp, i, 0x0F) == Got(Scoped(code, NormAll(scope)), i + |Payload(Scoped(code, scope))|)
    decreases scope, 3
  {
    hide *;
    var doc := Framed(Elements(scope));
    var body := Str32(code) + doc;
    ScopedPayload(code, scope);
    Str32Size(code);
    AtInside(inp, i, LE32(|body| + 4) + body);
    AtSplit(inp, i, LE32(|body| + 4), body);
    AtSplit(inp, i + 4, Str32(code), doc);
    StrBack(inp, i + 4, code);
    DocBack(inp, i + 4 + |Str32(code)|, scope);
    ScopedStep(inp, i, code, i + 4 + |Str32(code)|, NormAll(scope), i + |Payload(Scoped(code, scope))|);
  }

  /** Every good value reads back as its normal form, wherever it stands. */
  lemma {:induction false} ValueBack(inp: seq<byte>, i: nat, v: Value)
    requires Good(v) && At(inp, i, Payload(v)) && |Payload(v)| < 0x8000_0000 && i <= |inp|
    ensures ReadElem(inp, i, Kind(v)) == Got(Norm(v), i + |Payload(v)|)
    decreases v, 3
  {
    match v
    case Doc(fields) => DocBack(inp, i, fields);
    case Array(items) => ArrayBack(inp, i, items);
    case Scoped(code, scope) => ScopedBack(inp, i, code, scope);
    case _ =>
      hide ReadBasic, Norm, Payload, Good;
      if Numeric(v) {
        NumericBack(inp, i, v);
      } else {
        TextBack(inp, i, v);
      }
  }

  /** Decoding the encoding of a document gives its normal form, and consumes
      all of it, whatever follows. */
  lemma DocumentRoundTrip(fields: seq<Field>, after: seq<byte>)
    requires GoodAll(fields) && |Encode(fields)| < 0x8000_0000
    ensures ReadDoc(Encode(fields) + after, 0) == Got(NormAll(fields), |Encode(fields)|)
  {
    hide GoodAll, ReadDoc, NormAll, Framed;
    var inp := Encode(fields) + after;
    assert inp[0..|Encode(fields)|] == Encode(fields);
    DocBack(inp, 0, fields);
  }

  /** The length stored in front of a document is the number of its bytes. */
  lemma PatchedLength(fields: seq<Field>)
    requires |Encode(fields)| < 0x8000_0000
    ensures Wrap32(U32(Encode(fields)[..4])) == |Encode(fields)|
    ensures Encode(fields)[|Encode(fields)| - 1] == 0
  {
    hide LE32, U32, Wrap32, Elements;
    var n := |Elements(fields)| + 5;
    assert Encode(fields)[..4] == LE32(n);
    SignedBack(n);
    WrapSame32(n);
  }

  /** Marshal and Unmarshal, one after the other. */
  method EncodeThenDecode(fields: seq<Field>) returns (encoded: bool, decoded: bool, back: seq<Field>)
    ensures encoded <==> EncodableAll(fields)
    ensures encoded && GoodAll(fields) && |Encode(fields)| < 0x8000_0000 ==> decoded && back == NormAll(fields)
  {
    hide GoodAll, ReadDoc, NormAll, Encode, EncodableAll;
    decoded, back := false, [];
    var bytes;
    encoded, bytes := Marshal(fields);
    if encoded {
      decoded, back := Unmarshal(bytes);
      if GoodAll(fields) && |Encode(fields)| < 0x8000_0000 {
        DocumentRoundTrip(fields, []);
        assert Encode(fields) + [] == Encode(fields);
      }
    }
  }
}
