/** The BSON encoder: bytes are appended to a buffer and document lengths are patched in afterwards. */
module BsonEncode {
  import opened Bytes
  import opened BsonValue
  import Numerals

  /** The element kind byte. */
  function Kind(v: Value): (k: byte)
    ensures k != 0
  {
    match v
    case Double(_) => 0x01
    case Str(_) => 0x02
    case Doc(_) => 0x03
    case Array(_) => 0x04
    case Binary(_, _) => 0x05
    case Undefined => 0x06
    case ObjectId(_) => 0x07
    case Bool(_) => 0x08
    case Time(_, _) => 0x09
    case Null => 0x0A
    case RegEx(_, _) => 0x0B
    case DBPointer(_, _) => 0x0C
    case JavaScript(_) => 0x0D
    case Symbol(_) => 0x0E
    case Scoped(_, _) => 0x0F
    case Int(n) => if -0x8000_0000 <= n < 0x8000_0000 then 0x10 else 0x12
    case Timestamp(_) => 0x11
    case Int64(_) => 0x12
    case Decimal(_, _) => 0x13
    case MaxKey => 0x7F
    case MinKey => 0xFF
  }

  function CStr(s: seq<byte>): seq<byte> {
    s + [0]
  }

  /** A string with its length, which counts the terminating NUL. */
  function Str32(s: seq<byte>): seq<byte> {
    LE32(|s| + 1) + CStr(s)
  }

  function BinaryBytes(subtype: byte, data: seq<byte>): seq<byte> {
    if subtype == 2 then LE32(|data| + 4) + [subtype] + LE32(|data|) + data
    else LE32(|data|) + [subtype] + data
  }

  /** The decimal name of an array index. */
  function IndexName(i: nat): (s: seq<byte>)
    ensures NulFree(s)
  {
    var ds := Numerals.Digits(i);
    seq(|ds|, k requires 0 <= k < |ds| => '0' as int + Numerals.DigitValue(ds[k]))
  }

  /** A document: its total length, its elements, and a NUL. */
  function Framed(elems: seq<byte>): seq<byte> {
    LE32(|elems| + 5) + elems + [0]
  }

  /** The bytes of a value, without kind and name. */
  function Payload(v: Value): seq<byte>
    decreases v, 1
  {
    match v
    case Double(bits) => LE64(bits)
    case Str(s) => Str32(s)
    case Doc(fields) => Framed(Elements(fields))
    case Array(items) => Framed(Items(items, 0))
    case Binary(subtype, data) => BinaryBytes(subtype, data)
    case ObjectId(id) => id
    case Bool(flag) => [if flag then 1 else 0]
    case Time(sec, nsec) => LE64(ToMillis(sec, nsec))
    case RegEx(pattern, options) => CStr(pattern) + CStr(options)
    case DBPointer(ns, id) => Str32(ns) + id
    case JavaScript(code) => Str32(code)
    case Symbol(s) => Str32(s)
    case Scoped(code, scope) =>
      var body := Str32(code) + Framed(Elements(scope));
      LE32(|body| + 4) + body
    case Int(n) => if -0x8000_0000 <= n < 0x8000_0000 then LE32(n) else LE64(n)
    case Timestamp(n) => LE64(n)
    case Int64(n) => LE64(n)
    case Decimal(h, l) => LE64(l) + LE64(h)
    case _ => []
  }

  function Element(name: seq<byte>, v: Value): seq<byte>
    decreases v, 2
  {
    [Kind(v)] + CStr(name) + Payload(v)
  }

  function Elements(fields: seq<Field>): seq<byte>
    decreases fields, 0
  {
    if fields == [] then [] else Element(fields[0].name, fields[0].value) + Elements(fields[1..])
  }

  /** Array items are named by their index. */
  function Items(items: seq<Value>, i: nat): seq<byte>
    decreases items, 0
  {
    if items == [] then [] else Element(IndexName(i), items[0]) + Items(items[1..], i + 1)
  }

  /** The bytes of a whole document. */
  function Encode(fields: seq<Field>): seq<byte> {
    Framed(Elements(fields))
  }

  class Encoder {
    var out: seq<byte>

    constructor ()
      ensures out == []
    {
      out := [];
    }

    method AddBytes(v: seq<byte>)
      modifies this
      ensures out == old(out) + v
    {
      out := out + v;
    }

    method AddInt32(v: int)
      modifies this
      ensures out == old(out) + LE32(v)
    {
      AddBytes(LE32(v));
    }

    method AddInt64(v: int)
      modifies this
      ensures out == old(out) + LE64(v)
    {
      AddBytes(LE64(v));
    }

    method AddCStr(s: seq<byte>)
      modifies this
      ensures out == old(out) + CStr(s)
    {
      AddBytes(s);
      AddBytes([0]);
    }

    method AddStr(s: seq<byte>)
      modifies this
      ensures out == old(out) + Str32(s)
    {
      AddInt32(|s| + 1);
      AddCStr(s);
    }

    method AddBinary(subtype: byte, data: seq<byte>)
      modifies this
      ensures out == old(out) + BinaryBytes(subtype, data)
    {
      hide LE32;
      if subtype == 2 {
        AddInt32(|data| + 4);
        AddBytes([subtype]);
        AddInt32(|data|);
      } else {
        AddInt32(|data|);
        AddBytes([subtype]);
      }
      AddBytes(data);
    }

    method AddElemName(kind: byte, name: seq<byte>)
      modifies this
      ensures out == old(out) + ([kind] + CStr(name))
    {
      AddBytes([kind]);
      AddBytes(name);
      AddBytes([0]);
    }

    method ReserveInt32() returns (pos: nat)
      modifies this
      ensures pos == |old(out)| && out == old(out) + [0, 0, 0, 0]
    {
      pos := |out|;
      AddBytes([0, 0, 0, 0]);
    }

    /** Overwrites four bytes that were reserved before. */
    method SetInt32(pos: nat, v: int)
      requires pos + 4 <= |out|
      modifies this
      ensures out == old(out)[..pos] + LE32(v) + old(out)[pos + 4..]
    {
      var b := LE32(v);
      out := out[pos := b[0]];
      out := out[pos + 1 := b[1]];
      out := out[pos + 2 := b[2]];
      out := out[pos + 3 := b[3]];
    }

    /** A document; its length is patched in once its elements are written. */
    method AddDoc(fields: seq<Field>) returns (ok: bool)
      modifies this
      ensures ok <==> EncodableAll(fields)
      ensures ok ==> out == old(out) + Framed(Elements(fields))
      decreases fields, 1
    {
      hide Elements, LE32;
      var start := ReserveInt32();
      ok := AddFields(fields);
      if ok {
        AddBytes([0]);
        SetInt32(start, |out| - start);
        Patched(old(out), Elements(fields) + [0], |out| - start);
      }
    }

    /** An array is framed like a document. */
    method AddArray(items: seq<Value>) returns (ok: bool)
      modifies this
      ensures ok <==> EncodableItems(items)
      ensures ok ==> out == old(out) + Framed(Items(items, 0))
      decreases items, 1
    {
      hide Items, LE32;
      var start := ReserveInt32();
      ok := AddItems(items);
      if ok {
        AddBytes([0]);
        SetInt32(start, |out| - start);
        Patched(old(out), Items(items, 0) + [0], |out| - start);
      }
    }

    method AddFields(fields: seq<Field>) returns (ok: bool)
      modifies this
      ensures ok <==> EncodableAll(fields)
      ensures ok ==> out == old(out) + Elements(fields)
      decreases fields, 0
    {
      hide Element;
      ok := true;
      for k := 0 to |fields|
        invariant ok && (EncodableAll(fields) <==> EncodableAll(fields[k..]))
        invariant out + Elements(fields[k..]) == old(out) + Elements(fields)
      {
        ghost var before := out;
        assert fields[k..][1..] == fields[k + 1..];
        ok := AddElem(fields[k].name, fields[k].value);
        if !ok {
          return;
        }
        assert before + (Element(fields[k].name, fields[k].value) + Elements(fields[k + 1..]))
            == out + Elements(fields[k + 1..]);
      }
      assert fields[|fields|..] == [];
    }

    method AddItems(items: seq<Value>) returns (ok: bool)
      modifies this
      ensures ok <==> EncodableItems(items)
      ensures ok ==> out == old(out) + Items(items, 0)
      decreases items, 0
    {
      hide Element, IndexName;
      ok := true;
      for k := 0 to |items|
        invariant ok && (EncodableItems(items) <==> EncodableItems(items[k..]))
        invariant out + Items(items[k..], k) == old(out) + Items(items, 0)
      {
        ghost var before := out;
        assert items[k..][1..] == items[k + 1..];
        ok := AddElem(IndexName(k), items[k]);
        if !ok {
          return;
        }
        assert before + (Element(IndexName(k), items[k]) + Items(items[k + 1..], k + 1)) == out + Items(items[k + 1..], k + 1);
      }
      assert items[|items|..] == [];
    }

    /** One element: kind, name and value. */
    method AddElem(name: seq<byte>, v: Value) returns (ok: bool)
      modifies this
      ensures ok <==> Encodable(v)
      ensures ok ==> out == old(out) + Element(name, v)
      decreases v, 2
    {
      hide LE32, LE64, Framed, Elements, Items, Str32, CStr, ToMillis, BinaryBytes;
      AddElemName(Kind(v), name);
      ok := AddPayload(v);
    }

    method AddPayload(v: Value) returns (ok: bool)
      modifies this
      ensures ok <==> Encodable(v)
      ensures ok ==> out == old(out) + Payload(v)
      decreases v, 1
    {
      hide LE32, LE64, Framed, Elements, Items, Str32, CStr, ToMillis, BinaryBytes;
      ok := true;
      match v
      case Double(bits) => AddInt64(bits);
      case Str(s) => AddStr(s);
      case Doc(fields) => ok := AddDoc(fields);
      case Array(items) => ok := AddArray(items);
      case Binary(subtype, data) => AddBinary(subtype, data);
      case ObjectId(id) =>
        if |id| != 12 {
          ok := false;
        } else {
          AddBytes(id);
        }
      case Bool(flag) => AddBytes([if flag then 1 else 0]);
      case Time(sec, nsec) => AddInt64(ToMillis(sec, nsec));
      case RegEx(pattern, options) =>
        AddCStr(pattern);
        AddCStr(options);
      case DBPointer(ns, id) =>
        AddStr(ns);
        if |id| != 12 {
          ok := false;
        } else {
          AddBytes(id);
        }
      case JavaScript(code) => AddStr(code);
      case Symbol(s) => AddStr(s);
      case Scoped(code, scope) => ok := AddScoped(code, scope);
      case Int(n) =>
        if -0x8000_0000 <= n < 0x8000_0000 {
          AddInt32(n);
        } else {
          AddInt64(n);
        }
      case Timestamp(n) => AddInt64(n);
      case Int64(n) => AddInt64(n);
      case Decimal(h, l) =>
        AddInt64(l);
        AddInt64(h);
      case _ =>
    }

    /** Code with a scope has a length of its own in front, also patched in. */
    method AddScoped(code: seq<byte>, scope: seq<Field>) returns (ok: bool)
      modifies this
      ensures ok <==> EncodableAll(scope)
      ensures ok ==> out == old(out) + Payload(Scoped(code, scope))
      decreases scope, 2
    {
      hide LE32, Framed, Elements, Str32;
      var start := ReserveInt32();
      AddStr(code);
      ok := AddDoc(scope);
      if ok {
        SetInt32(start, |out| - start);
        Patched(old(out), Str32(code) + Framed(Elements(scope)), |out| - start);
      }
    }
  }

  /** Patching the reserved bytes puts the length in front of the body. */
  lemma Patched(before: seq<byte>, body: seq<byte>, n: int)
    ensures var out := before + [0, 0, 0, 0] + body;
      out[..|before|] + LE32(n) + out[|before| + 4..] == before + (LE32(n) + body)
  {
    hide LE32;
    var out := before + [0, 0, 0, 0] + body;
    assert out[|before| + 4..] == body && out[..|before|] == before;
  }

  /** Marshal of an ordered document: its bytes, or nothing when an object id
      somewhere inside does not have twelve bytes. */
  method Marshal(fields: seq<Field>) returns (ok: bool, bytes: seq<byte>)
    ensures ok <==> EncodableAll(fields)
    ensures ok ==> bytes == Encode(fields)
  {
    var e := new Encoder();
    ok := e.AddDoc(fields);
    bytes := e.out;
    assert [] + Encode(fields) == Encode(fields);
  }
}
