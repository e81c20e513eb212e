/** The BSON decoder: a cursor over bytes that nobody has checked. */
module BsonDecode {
  import opened Bytes
  import opened BsonValue

  /** What a reader returns: a value and the position behind it, or the report
      that the document is corrupted. */
  datatype Read<+T> = Got(value: T, pos: nat) | Corrupt

  function ReadBytes(inp: seq<byte>, i: nat, n: i32): (r: Read<seq<byte>>)
    ensures r.Got? ==> r.pos == i + |r.value| <= |inp| && |r.value| == n
  {
    if n < 0 || i + n > |inp| then Corrupt else Got(inp[i..i + n], i + n)
  }

  function ReadByte(inp: seq<byte>, i: nat): (r: Read<byte>)
    ensures r.Got? ==> r.pos == i + 1 <= |inp|
  {
    if i + 1 > |inp| then Corrupt else Got(inp[i], i + 1)
  }

  function ReadInt32(inp: seq<byte>, i: nat): (r: Read<i32>)
    ensures r.Got? ==> r.pos == i + 4 <= |inp|
  {
    match ReadBytes(inp, i, 4)
    case Corrupt => Corrupt
    case Got(b, pos) => Got(Wrap32(U32(b)), pos)
  }

  function ReadInt64(inp: seq<byte>, i: nat): (r: Read<i64>)
    ensures r.Got? ==> r.pos == i + 8 <= |inp|
  {
    match ReadBytes(inp, i, 8)
    case Corrupt => Corrupt
    case Got(b, pos) => Got(Wrap64(U64(b)), pos)
  }

  /** The position of the first NUL byte from i on, or the end. */
  function FindNul(inp: seq<byte>, i: nat): (k: nat)
    requires i <= |inp|
    ensures i <= k <= |inp| && NulFree(inp[i..k]) && (k == |inp| || inp[k] == 0)
    decreases |inp| - i
  {
    if i == |inp| || inp[i] == 0 then i else
      var k := FindNul(inp, i + 1);
      assert inp[i..k] == [inp[i]] + inp[i + 1..k];
      k
  }

  function ReadCStr(inp: seq<byte>, i: nat): (r: Read<seq<byte>>)
    requires i <= |inp|
    ensures r.Got? ==> i < r.pos <= |inp|
  {
    var k := FindNul(inp, i);
    if k + 1 > |inp| then Corrupt else Got(inp[i..k], k + 1)
  }

  /** A string's length counts its NUL; the subtraction is in 32-bit arithmetic. */
  function ReadStr(inp: seq<byte>, i: nat): (r: Read<seq<byte>>)
    ensures r.Got? ==> i < r.pos <= |inp|
  {
    match ReadInt32(inp, i)
    case Corrupt => Corrupt
    case Got(n, pos) =>
      match ReadBytes(inp, pos, Wrap32(n - 1))
      case Corrupt => Corrupt
      case Got(b, pos') =>
        match ReadByte(inp, pos')
        case Corrupt => Corrupt
        case Got(c, pos'') => if c != 0 then Corrupt else Got(b, pos'')
  }

  function ReadBinary(inp: seq<byte>, i: nat): (r: Read<Value>)
    ensures r.Got? ==> i < r.pos <= |inp|
  {
    match ReadInt32(inp, i)
    case Corrupt => Corrupt
    case Got(n, pos) =>
      match ReadByte(inp, pos)
      case Corrupt => Corrupt
      case Got(subtype, pos') =>
        match ReadBytes(inp, pos', n)
        case Corrupt => Corrupt
        case Got(data, pos'') =>
          var rest := if subtype == 2 && |data| >= 4 then data[4..] else data;
          Got(Binary(if subtype == 2 then 0 else subtype, rest), pos'')
  }

  /** The values that are not documents or arrays. */
  function ReadBasic(inp: seq<byte>, i: nat, kind: byte): (r: Read<Value>)
    requires i <= |inp|
    ensures r.Got? ==> i <= r.pos <= |inp|
  {
    match kind
    case 0x01 => (match ReadInt64(inp, i) case Corrupt => Corrupt case Got(n, pos) => Got(Double(n % TWO64), pos))
    case 0x02 => (match ReadStr(inp, i) case Corrupt => Corrupt case Got(s, pos) => Got(Str(s), pos))
    case 0x05 => ReadBinary(inp, i)
    case 0x06 => Got(Undefined, i)
    case 0x07 => (match ReadBytes(inp, i, 12) case Corrupt => Corrupt case Got(b, pos) => Got(ObjectId(b), pos))
    case 0x08 =>
      (match ReadByte(inp, i)
       case Corrupt => Corrupt
       case Got(b, pos) => if b == 0 then Got(Bool(false), pos) else if b == 1 then Got(Bool(true), pos) else Corrupt)
    case 0x09 => (match ReadInt64(inp, i) case Corrupt => Corrupt case Got(n, pos) => Got(FromMillis(n), pos))
    case 0x0A => Got(Null, i)
    case 0x0B =>
      (match ReadCStr(inp, i)
       case Corrupt => Corrupt
       case Got(p, pos) => match ReadCStr(inp, pos) case Corrupt => Corrupt case Got(o, pos') => Got(RegEx(p, o), pos'))
    case 0x0C =>
      (match ReadStr(inp, i)
       case Corrupt => Corrupt
       case Got(s, pos) => match ReadBytes(inp, pos, 12) case Corrupt => Corrupt case Got(b, pos') => Got(DBPointer(s, b), pos'))
    case 0x0D => (match ReadStr(inp, i) case Corrupt => Corrupt case Got(s, pos) => Got(JavaScript(s), pos))
    case 0x0E => (match ReadStr(inp, i) case Corrupt => Corrupt case Got(s, pos) => Got(Symbol(s), pos))
    case 0x10 => (match ReadInt32(inp, i) case Corrupt => Corrupt case Got(n, pos) => Got(Int(n), pos))
    case 0x11 => (match ReadInt64(inp, i) case Corrupt => Corrupt case Got(n, pos) => Got(Timestamp(n), pos))
    case 0x12 => (match ReadInt64(inp, i) case Corrupt => Corrupt case Got(n, pos) => Got(Int64(n), pos))
    case 0x13 =>
      (match ReadInt64(inp, i)
       case Corrupt => Corrupt
       case Got(l, pos) =>
         match ReadInt64(inp, pos) case Corrupt => Corrupt case Got(h, pos') => Got(Decimal(h % TWO64, l % TWO64), pos'))
    case 0x7F => Got(MaxKey, i)
    case 0xFF => Got(MinKey, i)
    case _ => Corrupt
  }

  /** The declared end of the document at i: it must lie inside the input, be
      behind the length itself, and have a NUL in front of it. */
  function ReadEnd(inp: seq<byte>, i: nat): (r: Read<nat>)
    ensures r.Got? ==> r.pos == i + 4 < r.value <= |inp| && inp[r.value - 1] == 0
  {
    match ReadInt32(inp, i)
    case Corrupt => Corrupt
    case Got(n, pos) =>
      var end := n + (pos - 4);
      if end <= pos || end > |inp| || inp[end - 1] != 0 then Corrupt else Got(end, pos)
  }

  /** One element of the given kind. */
  function ReadElem(inp: seq<byte>, i: nat, kind: byte): (r: Read<Value>)
    requires i <= |inp|
    ensures r.Got? ==> i <= r.pos <= |inp|
    decreases |inp| - i, 2
  {
    if kind == 0x03 then
      match ReadDoc(inp, i) case Corrupt => Corrupt case Got(fields, pos) => Got(Doc(fields), pos)
    else if kind == 0x04 then
      match ReadArray(inp, i) case Corrupt => Corrupt case Got(items, pos) => Got(Array(items), pos)
    else if kind == 0x0F then
      // The length in front of the code is skipped unread.
      match ReadStr(inp, i + 4)
      case Corrupt => Corrupt
      case Got(code, pos) =>
        match ReadDoc(inp, pos) case Corrupt => Corrupt case Got(fields, pos') => Got(Scoped(code, fields), pos')
    else ReadBasic(inp, i, kind)
  }

  function ReadDoc(inp: seq<byte>, i: nat): (r: Read<seq<Field>>)
    requires i <= |inp|
    ensures r.Got? ==> i < r.pos <= |inp|
    decreases |inp| - i, 1
  {
    match ReadEnd(inp, i)
    case Corrupt => Corrupt
    case Got(end, pos) =>
      match ReadFields(inp, pos, end)
      case Corrupt => Corrupt
      case Got(fields, pos') => if pos' != end then Corrupt else Got(fields, pos')
  }

  /** Elements up to the byte that is zero where a kind is expected. */
  function ReadFields(inp: seq<byte>, i: nat, end: nat): (r: Read<seq<Field>>)
    requires i < end <= |inp|
    ensures r.Got? ==> i < r.pos <= |inp|
    decreases |inp| - i, 0
  {
    if inp[i] == 0 then Got([], i + 1)
    else
      match ReadCStr(inp, i + 1)
      case Corrupt => Corrupt
      case Got(name, pos) =>
        if pos >= end then Corrupt
        else
          match ReadElem(inp, pos, inp[i])
          case Corrupt => Corrupt
          case Got(v, pos') =>
            if pos' >= end then Corrupt
            else
              match ReadFields(inp, pos', end)
              case Corrupt => Corrupt
              case Got(rest, pos'') => Got([Field(name, v)] + rest, pos'')
  }

  function ReadArray(inp: seq<byte>, i: nat): (r: Read<seq<Value>>)
    requires i <= |inp|
    ensures r.Got? ==> i < r.pos <= |inp|
    decreases |inp| - i, 1
  {
    match ReadEnd(inp, i)
    case Corrupt => Corrupt
    case Got(end, pos) =>
      match ReadItems(inp, pos, end)
      case Corrupt => Corrupt
      case Got(items, pos') => if pos' != end then Corrupt else Got(items, pos')
  }

  /** The position of the first NUL byte from i on and before end, or end. */
  function SkipName(inp: seq<byte>, i: nat, end: nat): (k: nat)
    requires i <= end <= |inp|
    ensures i <= k <= end && NulFree(inp[i..k]) && (k == end || inp[k] == 0)
    decreases end - i
  {
    if i == end || inp[i] == 0 then i else
      var k := SkipName(inp, i + 1, end);
      assert inp[i..k] == [inp[i]] + inp[i + 1..k];
      k
  }

  /** The items of an array; their names are skipped. */
  function ReadItems(inp: seq<byte>, i: nat, end: nat): (r: Read<seq<Value>>)
    requires i < end <= |inp|
    ensures r.Got? ==> i < r.pos <= |inp|
    decreases |inp| - i, 0
  {
    if inp[i] == 0 then Got([], i + 1)
    else
      var k := SkipName(inp, i + 1, end);
      if k >= end then Corrupt
      else
        match ReadElem(inp, k + 1, inp[i])
        case Corrupt => Corrupt
        case Got(v, pos') =>
          if pos' >= end then Corrupt
          else
            match ReadItems(inp, pos', end)
            case Corrupt => Corrupt
            case Got(rest, pos'') => Got([v] + rest, pos'')
  }

  /** Dropping an element: documents are walked without building anything,
      everything else is decoded and thrown away. */
  function DropElem(inp: seq<byte>, i: nat, kind: byte): (r: Read<()>)
    requires i <= |inp|
    ensures r.Got? ==> i <= r.pos <= |inp|
    decreases |inp| - i, 2
  {
    if kind == 0x03 then DropDoc(inp, i)
    else match ReadElem(inp, i, kind) case Corrupt => Corrupt case Got(_, pos) => Got((), pos)
  }

  function DropDoc(inp: seq<byte>, i: nat): (r: Read<()>)
    requires i <= |inp|
    ensures r.Got? ==> i < r.pos <= |inp|
    decreases |inp| - i, 1
  {
    match ReadEnd(inp, i)
    case Corrupt => Corrupt
    case Got(end, pos) =>
      match DropFields(inp, pos, end)
      case Corrupt => Corrupt
      case Got(_, pos') => if pos' != end then Corrupt else Got((), pos')
  }

  function DropFields(inp: seq<byte>, i: nat, end: nat): (r: Read<()>)
    requires i < end <= |inp|
    ensures r.Got? ==> i < r.pos <= |inp|
    decreases |inp| - i, 0
  {
    if inp[i] == 0 then Got((), i + 1)
    else
      match ReadCStr(inp, i + 1)
      case Corrupt => Corrupt
      case Got(name, pos) =>
        if pos >= end then Corrupt
        else
          match DropElem(inp, pos, inp[i])
          case Corrupt => Corrupt
          case Got(_, pos') => if pos' >= end then Corrupt else DropFields(inp, pos', end)
  }

  /** The position a reader stops at, if it does not fail. */
  function Stop<T>(r: Read<T>): Read<()> {
    match r
    case Corrupt => Corrupt
    case Got(_, pos) => Got((), pos)
  }

  /** Dropping an element moves the cursor exactly as far as decoding it, and fails exactly when decoding does. */
  lemma {:induction false} DropMovesAsRead(inp: seq<byte>, i: nat, kind: byte)
    requires i <= |inp|
    ensures DropElem(inp, i, kind) == Stop(ReadElem(inp, i, kind))
    decreases |inp| - i, 2
  {
    if kind == 0x03 {
      match ReadEnd(inp, i)
      case Corrupt =>
      case Got(end, pos) => DropFieldsMovesAsRead(inp, pos, end);
    }
  }

  lemma {:induction false} DropFieldsMovesAsRead(inp: seq<byte>, i: nat, end: nat)
    requires i < end <= |inp|
    ensures DropFields(inp, i, end) == Stop(ReadFields(inp, i, end))
    decreases |inp| - i, 0
  {
    hide ReadElem, DropElem, ReadCStr;
    if inp[i] != 0 {
      match ReadCStr(inp, i + 1)
      case Corrupt =>
      case Got(name, pos) =>
        if pos < end {
          DropMovesAsRead(inp, pos, inp[i]);
          match ReadElem(inp, pos, inp[i])
          case Corrupt =>
          case Got(v, pos') =>
            if pos' < end {
              DropFieldsMovesAsRead(inp, pos', end);
            }
        }
    }
  }

  /** A NUL-terminated string ends at the first NUL, and only a missing NUL is an error. */
  lemma CStrStops(inp: seq<byte>, i: nat)
    requires i <= |inp|
    ensures match ReadCStr(inp, i)
      case Corrupt => NulFree(inp[i..])
      case Got(s, pos) => NulFree(s) && i < pos <= |inp| && inp[i..pos] == s + [0]
  {
    hide NulFree;
    var k := FindNul(inp, i);
    if k < |inp| {
      assert inp[i..k + 1] == inp[i..k] + [inp[k]];
    } else {
      assert inp[i..k] == inp[i..];
    }
  }

  /** A string is read exactly where its length, less one and wrapped to 32 bits,
      is the number of bytes in front of a NUL. */
  lemma StrIff(inp: seq<byte>, i: nat, s: seq<byte>, pos: nat)
    ensures ReadStr(inp, i) == Got(s, pos) <==>
      && pos == i + |s| + 5 <= |inp|
      && Wrap32(Wrap32(U32(inp[i..i + 4])) - 1) == |s|
      && inp[i + 4..i + 4 + |s|] == s && inp[pos - 1] == 0
  {
    hide U32, Wrap32;
  }

  /** An array that decodes was consumed exactly up to its declared end, like a document. */
  lemma ArrayConsumption(inp: seq<byte>, i: nat)
    requires i <= |inp| && ReadArray(inp, i).Got?
    ensures i + 5 <= ReadArray(inp, i).pos <= |inp|
    ensures ReadArray(inp, i).pos == i + Wrap32(U32(inp[i..i + 4]))
    ensures inp[ReadArray(inp, i).pos - 1] == 0
  {
  }

  /** A document that decodes was consumed exactly up to its declared end, which
      lies inside the input and is marked by a NUL. */
  lemma ExactConsumption(inp: seq<byte>, i: nat)
    requires i <= |inp| && ReadDoc(inp, i).Got?
    ensures i + 5 <= ReadDoc(inp, i).pos <= |inp|
    ensures ReadDoc(inp, i).pos == i + Wrap32(U32(inp[i..i + 4]))
    ensures inp[ReadDoc(inp, i).pos - 1] == 0
  {
  }

  /** The decoder: the input and a position in it. */
  class Decoder {
    const inp: seq<byte>
    var i: nat

    constructor (inp: seq<byte>)
      ensures this.inp == inp && i == 0
    {
      this.inp := inp;
      i := 0;
    }

    method NextBytes(n: i32) returns (ok: bool, b: seq<byte>)
      modifies this
      ensures ok <==> ReadBytes(inp, old(i), n).Got?
      ensures ok ==> ReadBytes(inp, old(i), n) == Got(b, i)
    {
      b := [];
      if n < 0 {
        return false, b;
      }
      var start := i;
      i := i + n;
      if i < start || i > |inp| {
        return false, b;
      }
      return true, inp[start..start + n];
    }

    method NextByte() returns (ok: bool, b: byte)
      modifies this
      ensures ok <==> ReadByte(inp, old(i)).Got?
      ensures ok ==> ReadByte(inp, old(i)) == Got(b, i)
    {
      var at := i;
      i := i + 1;
      if i > |inp| {
        return false, 0;
      }
      return true, inp[at];
    }

    method NextInt32() returns (ok: bool, n: i32)
      modifies this
      ensures ok <==> ReadInt32(inp, old(i)).Got?
      ensures ok ==> ReadInt32(inp, old(i)) == Got(n, i)
    {
      var b;
      ok, b := NextBytes(4);
      n := if ok then Wrap32(U32(b)) else 0;
    }

    method NextInt64() returns (ok: bool, n: i64)
      modifies this
      ensures ok <==> ReadInt64(inp, old(i)).Got?
      ensures ok ==> ReadInt64(inp, old(i)) == Got(n, i)
    {
      var b;
      ok, b := NextBytes(8);
      n := if ok then Wrap64(U64(b)) else 0;
    }

    method NextCStr() returns (ok: bool, s: seq<byte>)
      requires i <= |inp|
      modifies this
      ensures ok <==> ReadCStr(inp, old(i)).Got?
      ensures ok ==> ReadCStr(inp, old(i)) == Got(s, i)
    {
      var start, end := i, i;
      while end != |inp|
        invariant start <= end <= |inp| && i == start
        invariant FindNul(inp, start) == FindNul(inp, end)
        decreases |inp| - end
      {
        if inp[end] == 0 {
          break;
        }
        end := end + 1;
      }
      i := end + 1;
      if i > |inp| {
        return false, [];
      }
      return true, inp[start..end];
    }

    method NextStr() returns (ok: bool, s: seq<byte>)
      modifies this
      ensures ok <==> ReadStr(inp, old(i)).Got?
      ensures ok ==> ReadStr(inp, old(i)) == Got(s, i)
    {
      hide U32;
      s := [];
      var n, c;
      ok, n := NextInt32();
      if !ok { return; }
      var k: int := n;
      ok, s := NextBytes(Wrap32(k - 1));
      if !ok { return; }
      ok, c := NextByte();
      ok := ok && c == 0;
    }

    method NextBinary() returns (ok: bool, v: Value)
      modifies this
      ensures ok <==> ReadBinary(inp, old(i)).Got?
      ensures ok ==> ReadBinary(inp, old(i)) == Got(v, i)
    {
      hide U32;
      v := Null;
      var n, subtype, data;
      ok, n := NextInt32();
      if !ok { return; }
      ok, subtype := NextByte();
      if !ok { return; }
      ok, data := NextBytes(n);
      if !ok { return; }
      if subtype == 2 && |data| >= 4 {
        data := data[4..];
      }
      v := Binary(if subtype == 2 then 0 else subtype, data);
    }

    method NextBasic(kind: byte) returns (ok: bool, v: Value)
      requires i <= |inp|
      modifies this
      ensures ok <==> ReadBasic(inp, old(i), kind).Got?
      ensures ok ==> ReadBasic(inp, old(i), kind) == Got(v, i)
    {
      hide ReadBytes, ReadByte, ReadInt32, ReadInt64, ReadStr, ReadCStr, ReadBinary, FromMillis;
      ok, v := true, Null;
      match kind
      case 0x01 =>
        var n;
        ok, n := NextInt64();
        v := Double(n % TWO64);
      case 0x02 =>
        var s;
        ok, s := NextStr();
        v := Str(s);
      case 0x05 => ok, v := NextBinary();
      case 0x06 => v := Undefined;
      case 0x07 =>
        var b;
        ok, b := NextBytes(12);
        v := ObjectId(b);
      case 0x08 =>
        var b;
        ok, b := NextByte();
        v := Bool(b == 1);
        ok := ok && b <= 1;
      case 0x09 =>
        var n;
        ok, n := NextInt64();
        v := FromMillis(n);
      case 0x0A => v := Null;
      case 0x0B =>
        var p, o;
        ok, p := NextCStr();
        if ok {
          CStrInside(inp, old(i));
          ok, o := NextCStr();
          v := RegEx(p, o);
        }
      case 0x0C =>
        var s, b;
        ok, s := NextStr();
        if ok {
          ok, b := NextBytes(12);
          v := DBPointer(s, b);
        }
      case 0x0D =>
        var s;
        ok, s := NextStr();
        v := JavaScript(s);
      case 0x0E =>
        var s;
        ok, s := NextStr();
        v := Symbol(s);
      case 0x10 =>
        var n;
        ok, n := NextInt32();
        v := Int(n);
      case 0x11 =>
        var n;
        ok, n := NextInt64();
        v := Timestamp(n);
      case 0x12 =>
        var n;
        ok, n := NextInt64();
        v := Int64(n);
      case 0x13 =>
        var l, h;
        ok, l := NextInt64();
        if ok {
          ok, h := NextInt64();
          v := Decimal(h % TWO64, l % TWO64);
        }
      case 0x7F => v := MaxKey;
      case 0xFF => v := MinKey;
      case _ => ok := false;
    }

    method NextEnd() returns (ok: bool, end: nat)
      modifies this
      ensures ok <==> ReadEnd(inp, old(i)).Got?
      ensures ok ==> ReadEnd(inp, old(i)) == Got(end, i)
    {
      end := 0;
      var n;
      ok, n := NextInt32();
      if !ok { return; }
      var e := n + (i - 4);
      if e <= i || e > |inp| || inp[e - 1] != 0 {
        ok := false;
      } else {
        end := e;
      }
    }

    /** readElemTo, into an interface value. */
    method NextElem(kind: byte) returns (ok: bool, v: Value)
      requires i <= |inp|
      modifies this
      ensures ok <==> ReadElem(inp, old(i), kind).Got?
      ensures ok ==> ReadElem(inp, old(i), kind) == Got(v, i)
      decreases |inp| - i, 2
    {
      hide ReadDoc, ReadArray, ReadBasic, ReadStr;
      v := Null;
      if kind == 0x03 {
        var fields;
        ok, fields := NextDoc();
        v := Doc(fields);
      } else if kind == 0x04 {
        var items;
        ok, items := NextArray();
        v := Array(items);
      } else if kind == 0x0F {
        i := i + 4;
        var code, scope;
        ok, code := NextStr();
        if ok {
          ok, scope := NextDoc();
          v := Scoped(code, scope);
        }
      } else {
        ok, v := NextBasic(kind);
      }
    }

    /** readDocElems. */
    method NextDoc() returns (ok: bool, fields: seq<Field>)
      requires i <= |inp|
      modifies this
      ensures ok <==> ReadDoc(inp, old(i)).Got?
      ensures ok ==> ReadDoc(inp, old(i)) == Got(fields, i)
      decreases |inp| - i, 1
    {
      hide ReadEnd, ReadFields;
      var end;
      fields := [];
      ok, end := NextEnd();
      if !ok { return; }
      EndInside(inp, old(i));
      ok, fields := NextFields(end);
      ok := ok && i == end;
    }

    /** readDocWith: the loop over the elements of a document. */
    method NextFields(end: nat) returns (ok: bool, fields: seq<Field>)
      requires i < end <= |inp|
      modifies this
      ensures ok <==> ReadFields(inp, old(i), end).Got?
      ensures ok ==> ReadFields(inp, old(i), end) == Got(fields, i)
      decreases |inp| - i, 0
    {
      hide ReadElem, ReadCStr;
      ok, fields := true, [];
      ghost var start := i;
      PrependNothing(ReadFields(inp, i, end));
      while inp[i] != 0
        invariant ok && start <= i < end
        invariant ReadFields(inp, start, end) == Prepend(fields, ReadFields(inp, i, end))
        decreases |inp| - i
      {
        ghost var at := i;
        var kind, name, v;
        ok, kind := NextByte();
        ok, name := NextCStr();
        if !ok { return; }
        CStrInside(inp, at + 1);
        if i >= end { ok := false; return; }
        ok, v := NextElem(kind);
        if !ok || i >= end { ok := false; return; }
        PrependOne(fields, Field(name, v), ReadFields(inp, i, end));
        fields := fields + [Field(name, v)];
      }
      assert fields + [] == fields;
      i := i + 1;
    }

    /** readSliceDoc. */
    method NextArray() returns (ok: bool, items: seq<Value>)
      requires i <= |inp|
      modifies this
      ensures ok <==> ReadArray(inp, old(i)).Got?
      ensures ok ==> ReadArray(inp, old(i)) == Got(items, i)
      decreases |inp| - i, 1
    {
      hide ReadEnd, ReadItems;
      var end;
      items := [];
      ok, end := NextEnd();
      if !ok { return; }
      EndInside(inp, old(i));
      ok, items := NextItems(end);
      ok := ok && i == end;
    }

    method NextItems(end: nat) returns (ok: bool, items: seq<Value>)
      requires i < end <= |inp|
      modifies this
      ensures ok <==> ReadItems(inp, old(i), end).Got?
      ensures ok ==> ReadItems(inp, old(i), end) == Got(items, i)
      decreases |inp| - i, 0
    {
      hide ReadElem, SkipName, ReadItems;
      ok, items := true, [];
      ghost var start := i;
      PrependNothing(ReadItems(inp, i, end));
      while inp[i] != 0
        invariant ok && start <= i < end
        invariant ReadItems(inp, start, end) == Prepend(items, ReadItems(inp, i, end))
        decreases |inp| - i
      {
        ghost var at := i;
        ItemsStep(inp, at, end);
        var kind, v;
        ok, kind := NextByte();
        while i < end && inp[i] != 0
          invariant at + 1 <= i <= end && ok && kind == inp[at]
          invariant SkipName(inp, at + 1, end) == SkipName(inp, i, end)
          decreases end - i
        {
          SkipNameStep(inp, i, end);
          i := i + 1;
        }
        SkipNameStep(inp, i, end);
        if i >= end { ok := false; return; }
        i := i + 1;
        ok, v := NextElem(kind);
        if !ok || i >= end { ok := false; return; }
        PrependOne(items, v, ReadItems(inp, i, end));
        items := items + [v];
      }
      assert items + [] == items;
      ItemsStep(inp, i, end);
      i := i + 1;
    }

    /** dropElem. */
    method SkipElem(kind: byte) returns (ok: bool)
      requires i <= |inp|
      modifies this
      ensures ok <==> DropElem(inp, old(i), kind).Got?
      ensures ok ==> DropElem(inp, old(i), kind) == Got((), i)
      decreases |inp| - i, 2
    {
      hide DropDoc, ReadElem;
      if kind == 0x03 {
        ok := SkipDoc();
      } else {
        var v;
        ok, v := NextElem(kind);
      }
    }

    /** readDocTo, into the struct that has no fields. */
    method SkipDoc() returns (ok: bool)
      requires i <= |inp|
      modifies this
      ensures ok <==> DropDoc(inp, old(i)).Got?
      ensures ok ==> DropDoc(inp, old(i)) == Got((), i)
      decreases |inp| - i, 1
    {
      hide ReadEnd, DropElem, ReadCStr;
      var end;
      ok, end := NextEnd();
      if !ok { return; }
      EndInside(inp, old(i));
      ghost var start := i;
      while inp[i] != 0
        invariant ok && start <= i < end
        invariant DropFields(inp, start, end) == DropFields(inp, i, end)
        decreases |inp| - i
      {
        ghost var at := i;
        var kind, name;
        ok, kind := NextByte();
        ok, name := NextCStr();
        if !ok { return; }
        CStrInside(inp, at + 1);
        if i >= end { ok := false; return; }
        ghost var pos := i;
        ok := SkipElem(kind);
        if !ok || i >= end { ok := false; return; }
      }
      i := i + 1;
      ok := i == end;
    }
  }

  /** Unmarshal into an ordered document: the document at the front of the input. */
  method Unmarshal(inp: seq<byte>) returns (ok: bool, fields: seq<Field>)
    ensures ok <==> ReadDoc(inp, 0).Got?
    ensures ok ==> ReadDoc(inp, 0).value == fields
  {
    var d := new Decoder(inp);
    ok, fields := d.NextDoc();
  }

  /** What was read before goes in front of what is still to be read. */
  ghost function Prepend<T>(done: seq<T>, r: Read<seq<T>>): Read<seq<T>> {
    match r
    case Corrupt => Corrupt
    case Got(rest, pos) => Got(done + rest, pos)
  }

  lemma PrependNothing<T>(r: Read<seq<T>>)
    ensures Prepend([], r) == r
  {
    if r.Got? {
      assert [] + r.value == r.value;
    }
  }

  lemma PrependOne<T>(done: seq<T>, x: T, r: Read<seq<T>>)
    ensures Prepend(done, Prepend([x], r)) == Prepend(done + [x], r)
  {
    if r.Got? {
      assert done + ([x] + r.value) == done + [x] + r.value;
    }
  }

  lemma CStrInside(inp: seq<byte>, i: nat)
    requires i <= |inp|
    ensures ReadCStr(inp, i).Got? ==> i < ReadCStr(inp, i).pos <= |inp|
  {
  }

  lemma EndInside(inp: seq<byte>, i: nat)
    ensures ReadEnd(inp, i).Got? ==> ReadEnd(inp, i).pos == i + 4 < ReadEnd(inp, i).value <= |inp|
  {
  }

  /** One turn of the loop over a document that goes well. */
  lemma FieldsGot(inp: seq<byte>, i: nat, end: nat, name: seq<byte>, pos: nat, v: Value, pos': nat,
                  rest: seq<Field>, pos'': nat)
    requires i < end <= |inp| && inp[i] != 0 && ReadCStr(inp, i + 1) == Got(name, pos) && pos < end
    requires ReadElem(inp, pos, inp[i]) == Got(v, pos') && pos' < end && ReadFields(inp, pos', end) == Got(rest, pos'')
    ensures ReadFields(inp, i, end) == Got([Field(name, v)] + rest, pos'')
  {
    hide ReadElem, ReadCStr;
  }

  /** One turn of the loop over an array that goes well. */
  lemma ItemsGot(inp: seq<byte>, i: nat, end: nat, k: nat, v: Value, pos: nat, rest: seq<Value>, pos': nat)
    requires i < end <= |inp| && inp[i] != 0 && SkipName(inp, i + 1, end) == k < end
    requires ReadElem(inp, k + 1, inp[i]) == Got(v, pos) && pos < end && ReadItems(inp, pos, end) == Got(rest, pos')
    ensures ReadItems(inp, i, end) == Got([v] + rest, pos')
  {
    hide ReadElem, SkipName;
  }

  /** One turn of the loop over an array. */
  lemma ItemsStep(inp: seq<byte>, i: nat, end: nat)
    requires i < end <= |inp|
    ensures inp[i] == 0 ==> ReadItems(inp, i, end) == Got([], i + 1)
    ensures inp[i] != 0 ==>
      var k := SkipName(inp, i + 1, end);
      ReadItems(inp, i, end) ==
        if k >= end then Corrupt
        else match ReadElem(inp, k + 1, inp[i])
          case Corrupt => Corrupt
          case Got(v, pos) => if pos >= end then Corrupt else Prepend([v], ReadItems(inp, pos, end))
  {
  }

  lemma SkipNameStep(inp: seq<byte>, i: nat, end: nat)
    requires i <= end <= |inp|
    ensures SkipName(inp, i, end) == if i == end || inp[i] == 0 then i else SkipName(inp, i + 1, end)
  {
  }
}
