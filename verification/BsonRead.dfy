/** The decoder reads exactly the document format, with its liberties. */
module BsonRead {
  import opened Bytes
  import opened BsonValue
  import opened BsonDecode
  import opened BsonFormat
  import BsonRoundTrip
  import BsonWritten

  lemma Signed4Is(b: seq<byte>)
    requires |b| == 4
    ensures Wrap32(U32(b)) == Signed4(b)
  {
    hide Little4, U32;
    BsonWritten.Little4Is(b);
  }

  lemma Signed8Is(b: seq<byte>)
    requires |b| == 8
    ensures Wrap64(U64(b)) == Signed8(b) && Wrap64(U64(b)) % TWO64 == Little8(b)
  {
    hide Little8, U64;
    BsonWritten.Little8Is(b);
  }

  lemma Int32Read(inp: seq<byte>, i: nat, n: int, pos: nat)
    ensures ReadInt32(inp, i) == Got(n, pos) <==> pos == i + 4 <= |inp| && Signed4(inp[i..pos]) == n
  {
    hide U32, Wrap32, Signed4;
    if i + 4 <= |inp| {
      Signed4Is(inp[i..i + 4]);
    }
  }

  lemma Int64Read(inp: seq<byte>, i: nat, n: int, pos: nat)
    ensures ReadInt64(inp, i) == Got(n, pos) <==> pos == i + 8 <= |inp| && Signed8(inp[i..pos]) == n
  {
    hide U64, Wrap64, Signed8;
    if i + 8 <= |inp| {
      Signed8Is(inp[i..i + 8]);
    }
  }

  lemma LengthIff(b: seq<byte>, n: nat)
    requires |b| == 4
    ensures Wrap32(Signed4(b) - 1) == n <==> Int32Text(b, n + 1) && n < 0x8000_0000
  {
    hide Little4;
  }

  /** A part of a part of the input. */
  lemma SliceOf(inp: seq<byte>, i: nat, pos: nat, a: nat, b: nat)
    requires a <= b && i + b <= pos <= |inp|
    ensures inp[i..pos][a..b] == inp[i + a..i + b]
  {
    var w := inp[i..pos];
    var l, r := w[a..b], inp[i + a..i + b];
    forall k | 0 <= k < b - a ensures l[k] == r[k] {
      assert l[k] == w[a + k] && r[k] == inp[i + a + k];
    }
    assert l == r;
  }

  lemma StringRead(inp: seq<byte>, i: nat, s: seq<byte>, pos: nat)
    ensures ReadStr(inp, i) == Got(s, pos) <==> i <= pos <= |inp| && AcceptsString(inp[i..pos], s)
  {
    StrIff(inp, i, s, pos);
    hide Little4, U32, Wrap32, Signed4, Int32Text, ReadStr;
    if pos == i + |s| + 5 <= |inp| {
      var b := inp[i..pos];
      SliceOf(inp, i, pos, 0, 4);
      SliceOf(inp, i, pos, 4, |s| + 4);
      assert b[|s| + 4] == inp[pos - 1];
      Signed4Is(b[..4]);
      LengthIff(b[..4], |s|);
    }
  }

  lemma CStrRead(inp: seq<byte>, i: nat, s: seq<byte>, pos: nat)
    requires i <= |inp|
    ensures ReadCStr(inp, i) == Got(s, pos) <==> i <= pos <= |inp| && NulFree(s) && inp[i..pos] == s + [0]
  {
    hide ReadCStr, NulFree;
    CStrStops(inp, i);
    if i <= pos <= |inp| && NulFree(s) && inp[i..pos] == s + [0] {
      BsonRoundTrip.CStrBack(inp, i, s);
    }
  }

  /** Values of fixed size that are words. */
  lemma WordRead(inp: seq<byte>, i: nat, kind: byte, v: Value, pos: nat)
    requires i <= |inp| && kind in {0x01, 0x09, 0x10, 0x11, 0x12}
    ensures ReadBasic(inp, i, kind) == Got(v, pos) <==> i <= pos <= |inp| && AcceptsValue(kind, inp[i..pos], v)
  {
    hide U32, U64, Wrap32, Wrap64, Signed4, Signed8, Little8, ReadInt32, ReadInt64, FromMillis, Instant;
    if kind == 0x10 {
      if i + 4 <= |inp| {
        Int32Read(inp, i, Signed4(inp[i..i + 4]), i + 4);
      } else {
        ShortInt32(inp, i);
      }
    } else if i + 8 <= |inp| {
      var b := inp[i..i + 8];
      Int64Read(inp, i, Signed8(b), i + 8);
      Signed8Is(b);
      if v.Time? {
        MillisIff(Signed8(b), v.sec, v.nsec);
      }
    } else {
      ShortInt64(inp, i);
    }
  }

  lemma ShortInt32(inp: seq<byte>, i: nat)
    requires i + 4 > |inp|
    ensures ReadInt32(inp, i) == Corrupt
  {
  }

  lemma ShortInt64(inp: seq<byte>, i: nat)
    requires i + 8 > |inp|
    ensures ReadInt64(inp, i) == Corrupt
  {
  }

  lemma MillisIff(n: i64, sec: i64, nsec: int)
    ensures FromMillis(n) == Time(sec, nsec) <==> Instant(n, sec, nsec)
  {
  }

  lemma DecimalRead(inp: seq<byte>, i: nat, v: Value, pos: nat)
    requires i <= |inp|
    ensures ReadBasic(inp, i, 0x13) == Got(v, pos) <==> i <= pos <= |inp| && AcceptsValue(0x13, inp[i..pos], v)
  {
    hide U64, Wrap64, Signed8, Little8, ReadInt64;
    if i + 16 <= |inp| {
      var b, c := inp[i..i + 8], inp[i + 8..i + 16];
      Int64Read(inp, i, Signed8(b), i + 8);
      Int64Read(inp, i + 8, Signed8(c), i + 16);
      Signed8Is(b);
      Signed8Is(c);
      SliceOf(inp, i, i + 16, 0, 8);
      SliceOf(inp, i, i + 16, 8, 16);
    } else if i + 8 <= |inp| {
      Int64Read(inp, i, Signed8(inp[i..i + 8]), i + 8);
      ShortInt64(inp, i + 8);
    } else {
      ShortInt64(inp, i);
    }
  }

  lemma BinaryRead(inp: seq<byte>, i: nat, v: Value, pos: nat)
    requires i <= |inp|
    ensures ReadBinary(inp, i) == Got(v, pos) <==> i <= pos <= |inp| && AcceptsValue(0x05, inp[i..pos], v)
  {
    hide U32, Wrap32, Signed4, ReadInt32;
    if i + 4 > |inp| {
      ShortInt32(inp, i);
    } else {
      var n := Signed4(inp[i..i + 4]);
      Int32Read(inp, i, n, i + 4);
      if i + 5 <= pos <= |inp| {
        BinaryParts(inp, i, pos);
      }
    }
  }

  lemma BinaryParts(inp: seq<byte>, i: nat, pos: nat)
    requires i + 5 <= pos <= |inp|
    ensures var b := inp[i..pos]; b[..4] == inp[i..i + 4] && b[4] == inp[i + 4] && b[5..] == inp[i + 5..pos]
    ensures i + 9 <= pos ==> inp[i..pos][9..] == inp[i + 5..pos][4..]
  {
  }

  lemma RegExRead(inp: seq<byte>, i: nat, v: Value, pos: nat)
    requires i <= |inp|
    ensures ReadBasic(inp, i, 0x0B) == Got(v, pos) <==> i <= pos <= |inp| && AcceptsValue(0x0B, inp[i..pos], v)
  {
    hide ReadCStr, NulFree;
    if ReadBasic(inp, i, 0x0B) == Got(v, pos) {
      var mid := ReadCStr(inp, i).pos;
      CStrRead(inp, i, v.pattern, mid);
      CStrRead(inp, mid, v.options, pos);
      assert inp[i..pos] == inp[i..mid] + inp[mid..pos];
      Associate(v.pattern, v.options);
    }
    if v.RegEx? && i <= pos <= |inp| && AcceptsValue(0x0B, inp[i..pos], v) {
      var b, mid := inp[i..pos], i + |v.pattern| + 1;
      Associate(v.pattern, v.options);
      assert b[..|v.pattern| + 1] == v.pattern + [0] && b[|v.pattern| + 1..] == v.options + [0];
      SliceOf(inp, i, pos, 0, |v.pattern| + 1);
      SliceOf(inp, i, pos, |v.pattern| + 1, pos - i);
      CStrRead(inp, i, v.pattern, mid);
      CStrRead(inp, mid, v.options, pos);
    }
  }

  lemma Associate(p: seq<byte>, o: seq<byte>)
    ensures p + [0] + o + [0] == (p + [0]) + (o + [0])
  {
  }

  lemma PointerRead(inp: seq<byte>, i: nat, v: Value, pos: nat)
    requires i <= |inp|
    ensures ReadBasic(inp, i, 0x0C) == Got(v, pos) <==> i <= pos <= |inp| && AcceptsValue(0x0C, inp[i..pos], v)
  {
    hide ReadStr, AcceptsString;
    if ReadBasic(inp, i, 0x0C) == Got(v, pos) {
      var mid := ReadStr(inp, i).pos;
      StringRead(inp, i, v.namespace, mid);
      StringSize(inp[i..mid], v.namespace);
      SliceOf(inp, i, pos, 0, mid - i);
      SliceOf(inp, i, pos, mid - i, pos - i);
    }
    if v.DBPointer? && i <= pos <= |inp| && AcceptsValue(0x0C, inp[i..pos], v) {
      var mid := i + |v.namespace| + 5;
      SliceOf(inp, i, pos, 0, mid - i);
      SliceOf(inp, i, pos, mid - i, pos - i);
      StringRead(inp, i, v.namespace, mid);
    }
  }

  lemma StringSize(b: seq<byte>, s: seq<byte>)
    requires AcceptsString(b, s)
    ensures |b| == |s| + 5
  {
  }

  /** Values that are read as one string. */
  lemma TextRead(inp: seq<byte>, i: nat, kind: byte, v: Value, pos: nat)
    requires i <= |inp| && kind in {0x02, 0x0D, 0x0E}
    ensures ReadBasic(inp, i, kind) == Got(v, pos) <==> i <= pos <= |inp| && AcceptsValue(kind, inp[i..pos], v)
  {
    hide ReadStr, AcceptsString;
    match v
    case Str(s) => StringRead(inp, i, s, pos);
    case JavaScript(s) => StringRead(inp, i, s, pos);
    case Symbol(s) => StringRead(inp, i, s, pos);
    case _ =>
  }

  /** The rest: ids, flags and values without bytes. */
  lemma SmallRead(inp: seq<byte>, i: nat, kind: byte, v: Value, pos: nat)
    requires i <= |inp| && kind !in {0x01, 0x02, 0x03, 0x04, 0x05, 0x09, 0x0B, 0x0C, 0x0D, 0x0E, 0x0F, 0x10, 0x11, 0x12, 0x13}
    ensures ReadBasic(inp, i, kind) == Got(v, pos) <==> i <= pos <= |inp| && AcceptsValue(kind, inp[i..pos], v)
  {
  }

  lemma BasicRead(inp: seq<byte>, i: nat, kind: byte, v: Value, pos: nat)
    requires i <= |inp| && kind !in {0x03, 0x04, 0x0F}
    ensures ReadBasic(inp, i, kind) == Got(v, pos) <==> i <= pos <= |inp| && AcceptsValue(kind, inp[i..pos], v)
  {
    hide AcceptsValue, ReadBinary;
    if kind in {0x01, 0x09, 0x10, 0x11, 0x12} {
      WordRead(inp, i, kind, v, pos);
    } else if kind in {0x02, 0x0D, 0x0E} {
      TextRead(inp, i, kind, v, pos);
    } else if kind == 0x05 {
      BinaryRead(inp, i, v, pos);
    } else if kind == 0x0B {
      RegExRead(inp, i, v, pos);
    } else if kind == 0x0C {
      PointerRead(inp, i, v, pos);
    } else if kind == 0x13 {
      DecimalRead(inp, i, v, pos);
    } else {
      SmallRead(inp, i, kind, v, pos);
    }
  }

  /** The frame of a document or an array. */
  lemma FrameRead(inp: seq<byte>, i: nat, end: nat)
    ensures ReadEnd(inp, i) == Got(end, i + 4) <==> i < end <= |inp| && AcceptsFrame(inp[i..end])
  {
    hide U32, Wrap32, Signed4, ReadInt32;
    if i + 4 > |inp| {
      ShortInt32(inp, i);
    } else {
      Int32Read(inp, i, Signed4(inp[i..i + 4]), i + 4);
      if i + 5 <= end <= |inp| {
        SliceOf(inp, i, end, 0, 4);
        assert inp[i..end][end - i - 1] == inp[end - 1];
      }
    }
  }

  /** A name and its NUL. */
  lemma NameAt(inp: seq<byte>, i: nat, pos: nat, name: seq<byte>)
    requires i + |name| + 2 <= pos <= |inp|
    ensures var b := inp[i..pos];
      (b[1..|name| + 1] == name && b[|name| + 1] == 0 && NulFree(name)) <==>
      ReadCStr(inp, i + 1) == Got(name, i + |name| + 2)
  {
    hide ReadCStr, NulFree;
    var b, mid := inp[i..pos], i + |name| + 2;
    SliceOf(inp, i, pos, 1, |name| + 1);
    CStrRead(inp, i + 1, name, mid);
    assert b[|name| + 1] == inp[mid - 1];
    assert inp[i + 1..mid] == inp[i + 1..mid - 1] + [inp[mid - 1]];
    LastOf(inp[i + 1..mid - 1], inp[mid - 1], name);
  }

  lemma LastOf(a: seq<byte>, x: byte, name: seq<byte>)
    ensures a + [x] == name + [0] <==> a == name && x == 0
  {
    if a + [x] == name + [0] {
      assert |a| == |name|;
      assert a == (a + [x])[..|a|] && name == (name + [0])[..|a|];
      assert (a + [x])[|a|] == x && (name + [0])[|a|] == 0;
    }
  }

  /** One element that stands at i: its name is read, then its value. */
  lemma {:induction false} ElementRead(inp: seq<byte>, i: nat, name: seq<byte>, v: Value, pos: nat)
    requires i < |inp|
    ensures i <= pos <= |inp| && AcceptsElement(inp[i..pos], name, v) <==>
      && inp[i] != 0 && ReadCStr(inp, i + 1) == Got(name, i + |name| + 2)
      && i + |name| + 2 <= |inp| && ReadElem(inp, i + |name| + 2, inp[i]) == Got(v, pos)
    decreases v, 6
  {
    hide ReadCStr, NulFree, AcceptsValue, ReadElem;
    var mid := i + |name| + 2;
    if mid <= pos <= |inp| {
      NameAt(inp, i, pos, name);
      SliceOf(inp, i, pos, |name| + 2, pos - i);
      assert inp[i..pos][|name| + 2..] == inp[i..pos][|name| + 2..pos - i];
      assert inp[i..pos][0] == inp[i];
      ValueRead(inp, mid, inp[i], v, pos);
    }
  }

  lemma {:induction false} ValueRead(inp: seq<byte>, i: nat, kind: byte, v: Value, pos: nat)
    requires i <= |inp|
    ensures ReadElem(inp, i, kind) == Got(v, pos) <==> i <= pos <= |inp| && AcceptsValue(kind, inp[i..pos], v)
    decreases v, 5
  {
    hide AcceptsDocument, AcceptsItems, AcceptsFrame, ReadDoc, ReadArray, ReadBasic, AcceptsString, StringText;
    if kind == 0x03 {
      if v.Doc? {
        DocumentRead(inp, i, v.fields, pos);
      }
    } else if kind == 0x04 {
      if v.Array? {
        ArrayRead(inp, i, v.items, pos);
      }
    } else if kind == 0x0F {
      if v.Scoped? {
        ScopedRead(inp, i, v.code, v.scope, pos);
      }
    } else {
      BasicRead(inp, i, kind, v, pos);
    }
  }

  lemma {:induction false} ScopedRead(inp: seq<byte>, i: nat, code: seq<byte>, scope: seq<Field>, pos: nat)
    requires i <= |inp|
    ensures ReadElem(inp, i, 0x0F) == Got(Scoped(code, scope), pos) <==>
      i <= pos <= |inp| && AcceptsValue(0x0F, inp[i..pos], Scoped(code, scope))
    decreases scope, 4
  {
    hide AcceptsDocument, ReadDoc, AcceptsString, ReadStr;
    var mid := i + |code| + 9;
    if mid <= pos <= |inp| {
      StringRead(inp, i + 4, code, mid);
      SliceOf(inp, i, pos, 4, |code| + 9);
      SliceOf(inp, i, pos, |code| + 9, pos - i);
      assert inp[i..pos][|code| + 9..] == inp[i..pos][|code| + 9..pos - i];
      DocumentRead(inp, mid, scope, pos);
    }
    if ReadElem(inp, i, 0x0F) == Got(Scoped(code, scope), pos) {
      var m := ReadStr(inp, i + 4).pos;
      StringRead(inp, i + 4, code, m);
      StringSize(inp[i + 4..m], code);
    }
  }

  lemma DocumentSteps(inp: seq<byte>, i: nat, fields: seq<Field>, pos: nat)
    requires i < pos <= |inp|
    ensures ReadDoc(inp, i) == Got(fields, pos) <==>
      ReadEnd(inp, i) == Got(pos, i + 4) && ReadFields(inp, i + 4, pos) == Got(fields, pos)
  {
    hide ReadEnd, ReadFields;
  }

  lemma ArraySteps(inp: seq<byte>, i: nat, items: seq<Value>, pos: nat)
    requires i < pos <= |inp|
    ensures ReadArray(inp, i) == Got(items, pos) <==>
      ReadEnd(inp, i) == Got(pos, i + 4) && ReadItems(inp, i + 4, pos) == Got(items, pos)
  {
    hide ReadEnd, ReadItems;
  }

  lemma FrameSize(b: seq<byte>)
    ensures AcceptsFrame(b) ==> |b| >= 5
  {
  }

  /** A document is read from exactly the bytes that are one. */
  lemma {:induction false} DocumentRead(inp: seq<byte>, i: nat, fields: seq<Field>, pos: nat)
    requires i <= |inp|
    ensures ReadDoc(inp, i) == Got(fields, pos) <==> i <= pos <= |inp| && AcceptsDocument(inp[i..pos], fields)
    decreases fields, 3
  {
    hide AcceptsFrame, AcceptsElements, ReadFields, ReadEnd, ReadDoc;
    if i < pos <= |inp| {
      DocumentSteps(inp, i, fields, pos);
      FrameRead(inp, i, pos);
      if AcceptsFrame(inp[i..pos]) {
        FrameShape(inp, i, pos);
        SliceOf(inp, i, pos, 4, pos - i - 1);
        FieldsRead(inp, i + 4, fields, pos);
      }
    } else if i == pos <= |inp| {
      FrameSize(inp[i..pos]);
    }
  }

  lemma FrameShape(inp: seq<byte>, i: nat, pos: nat)
    requires i < pos <= |inp| && AcceptsFrame(inp[i..pos])
    ensures i + 5 <= pos && inp[pos - 1] == 0
  {
    assert inp[i..pos][pos - i - 1] == inp[pos - 1];
  }

  lemma {:induction false} ArrayRead(inp: seq<byte>, i: nat, items: seq<Value>, pos: nat)
    requires i <= |inp|
    ensures ReadArray(inp, i) == Got(items, pos) <==>
      i <= pos <= |inp| && AcceptsValue(0x04, inp[i..pos], Array(items))
    decreases items, 3
  {
    hide AcceptsFrame, AcceptsItems, ReadItems, ReadEnd, ReadArray;
    if i < pos <= |inp| {
      ArraySteps(inp, i, items, pos);
      FrameRead(inp, i, pos);
      if AcceptsFrame(inp[i..pos]) {
        FrameShape(inp, i, pos);
        SliceOf(inp, i, pos, 4, pos - i - 1);
        ItemsRead(inp, i + 4, items, pos);
      }
    } else if i == pos <= |inp| {
      FrameSize(inp[i..pos]);
    }
  }

  /** What reading at least one element consists of. */
  lemma FieldsSplit(inp: seq<byte>, i: nat, fields: seq<Field>, end: nat) returns (pos: nat, pos': nat)
    requires i < end <= |inp| && fields != [] && ReadFields(inp, i, end) == Got(fields, end)
    ensures inp[i] != 0 && ReadCStr(inp, i + 1) == Got(fields[0].name, pos) && pos <= pos' < end
    ensures ReadElem(inp, pos, inp[i]) == Got(fields[0].value, pos')
    ensures ReadFields(inp, pos', end) == Got(fields[1..], end)
  {
    hide ReadCStr, ReadElem;
    pos := ReadCStr(inp, i + 1).pos;
    pos' := ReadElem(inp, pos, inp[i]).pos;
  }

  lemma ItemsSplit(inp: seq<byte>, i: nat, items: seq<Value>, end: nat) returns (name: seq<byte>, pos: nat, pos': nat)
    requires i < end <= |inp| && items != [] && ReadItems(inp, i, end) == Got(items, end)
    ensures inp[i] != 0 && ReadCStr(inp, i + 1) == Got(name, pos) && pos <= pos' < end
    ensures ReadElem(inp, pos, inp[i]) == Got(items[0], pos')
    ensures ReadItems(inp, pos', end) == Got(items[1..], end)
  {
    hide ReadCStr, ReadElem, NulFree;
    var k := SkipName(inp, i + 1, end);
    name, pos := inp[i + 1..k], k + 1;
    assert inp[i + 1..pos] == name + [0];
    CStrRead(inp, i + 1, name, pos);
    pos' := ReadElem(inp, pos, inp[i]).pos;
  }

  lemma NameLength(inp: seq<byte>, i: nat, name: seq<byte>, pos: nat)
    requires i < |inp| && ReadCStr(inp, i + 1) == Got(name, pos)
    ensures pos == i + |name| + 2
  {
    hide ReadCStr, NulFree;
    CStrRead(inp, i + 1, name, pos);
    assert |inp[i + 1..pos]| == |name + [0]|;
  }

  lemma ElementReach(inp: seq<byte>, i: nat, name: seq<byte>, v: Value, pos: nat)
    requires i <= pos <= |inp| && AcceptsElement(inp[i..pos], name, v)
    ensures i + |name| + 2 <= pos
  {
    hide AcceptsValue, NulFree;
  }

  lemma {:induction false} FieldsForth(inp: seq<byte>, i: nat, fields: seq<Field>, end: nat)
    requires i < end <= |inp| && inp[end - 1] == 0 && fields != []
    requires ReadFields(inp, i, end) == Got(fields, end)
    ensures AcceptsElements(inp[i..end - 1], fields)
    decreases fields, 1
  {
    hide *;
    var name, v, rest := fields[0].name, fields[0].value, fields[1..];
    var b := inp[i..end - 1];
    var pos, pos' := FieldsSplit(inp, i, fields, end);
    NameLength(inp, i, name, pos);
    ElementRead(inp, i, name, v, pos');
    FieldsRead(inp, pos', rest, end);
    Cut(inp, i, pos', end - 1);
    FieldsConcat(b, pos' - i, fields);
  }

  lemma FieldsConcat(b: seq<byte>, k: nat, fields: seq<Field>)
    requires fields != [] && k <= |b| && AcceptsElement(b[..k], fields[0].name, fields[0].value) && AcceptsElements(b[k..], fields[1..])
    ensures AcceptsElements(b, fields)
  {
    hide AcceptsElement;
  }

  lemma FieldsParts(b: seq<byte>, fields: seq<Field>) returns (k: nat)
    requires fields != [] && AcceptsElements(b, fields)
    ensures k <= |b| && AcceptsElement(b[..k], fields[0].name, fields[0].value) && AcceptsElements(b[k..], fields[1..])
  {
    hide AcceptsElement;
    k :| 0 <= k <= |b| && AcceptsElement(b[..k], fields[0].name, fields[0].value) && AcceptsElements(b[k..], fields[1..]);
  }

  lemma {:induction false} FieldsBack(inp: seq<byte>, i: nat, fields: seq<Field>, end: nat)
    requires i < end <= |inp| && inp[end - 1] == 0 && fields != []
    requires AcceptsElements(inp[i..end - 1], fields)
    ensures ReadFields(inp, i, end) == Got(fields, end)
    decreases fields, 1
  {
    hide *;
    var name, v, rest := fields[0].name, fields[0].value, fields[1..];
    var k := FieldsParts(inp[i..end - 1], fields);
    Cut(inp, i, i + k, end - 1);
    ElementRead(inp, i, name, v, i + k);
    FieldsRead(inp, i + k, rest, end);
    ElementReach(inp, i, name, v, i + k);
    FieldsJoin(inp, i, fields, i + |name| + 2, i + k, end);
  }

  lemma {:induction false} FieldsRead(inp: seq<byte>, i: nat, fields: seq<Field>, end: nat)
    requires i < end <= |inp| && inp[end - 1] == 0
    ensures ReadFields(inp, i, end) == Got(fields, end) <==> AcceptsElements(inp[i..end - 1], fields)
    decreases fields, 2
  {
    hide ReadCStr, ReadElem, AcceptsElement, SkipName;
    if fields == [] {
    } else {
      hide ReadFields, AcceptsElements;
      if ReadFields(inp, i, end) == Got(fields, end) {
        FieldsForth(inp, i, fields, end);
      }
      if AcceptsElements(inp[i..end - 1], fields) {
        FieldsBack(inp, i, fields, end);
      }
    }
  }

  lemma FieldsJoin(inp: seq<byte>, i: nat, fields: seq<Field>, pos: nat, pos': nat, end: nat)
    requires i < end <= |inp| && fields != [] && inp[i] != 0
    requires ReadCStr(inp, i + 1) == Got(fields[0].name, pos) && pos <= pos' < end
    requires ReadElem(inp, pos, inp[i]) == Got(fields[0].value, pos')
    requires ReadFields(inp, pos', end) == Got(fields[1..], end)
    ensures ReadFields(inp, i, end) == Got(fields, end)
  {
    hide ReadCStr, ReadElem;
    assert [Field(fields[0].name, fields[0].value)] + fields[1..] == fields;
  }

  /** A part of the input in two. */
  lemma Cut(inp: seq<byte>, i: nat, mid: nat, end: nat)
    requires i <= mid <= end <= |inp|
    ensures inp[i..end][..mid - i] == inp[i..mid] && inp[i..end][mid - i..] == inp[mid..end]
  {
    SliceOf(inp, i, end, 0, mid - i);
    SliceOf(inp, i, end, mid - i, end - i);
    assert inp[i..end][..mid - i] == inp[i..end][0..mid - i];
    assert inp[i..end][mid - i..] == inp[i..end][mid - i..end - i];
  }

  lemma {:induction false} ItemsForth(inp: seq<byte>, i: nat, items: seq<Value>, end: nat)
    requires i < end <= |inp| && inp[end - 1] == 0 && items != []
    requires ReadItems(inp, i, end) == Got(items, end)
    ensures AcceptsItems(inp[i..end - 1], items)
    decreases items, 1
  {
    hide *;
    var v, rest := items[0], items[1..];
    var b := inp[i..end - 1];
    var name, pos, pos' := ItemsSplit(inp, i, items, end);
    NameLength(inp, i, name, pos);
    ElementRead(inp, i, name, v, pos');
    ItemsRead(inp, pos', rest, end);
    Cut(inp, i, pos', end - 1);
    ItemsConcat(b, pos' - i, name, items);
  }

  lemma ItemsConcat(b: seq<byte>, k: nat, name: seq<byte>, items: seq<Value>)
    requires items != [] && k <= |b| && AcceptsElement(b[..k], name, items[0]) && AcceptsItems(b[k..], items[1..])
    ensures AcceptsItems(b, items)
  {
    hide AcceptsElement;
  }

  lemma ItemsParts(b: seq<byte>, items: seq<Value>) returns (k: nat, name: seq<byte>)
    requires items != [] && AcceptsItems(b, items)
    ensures k <= |b| && AcceptsElement(b[..k], name, items[0]) && AcceptsItems(b[k..], items[1..])
  {
    hide AcceptsElement;
    k, name :| 0 <= k <= |b| && AcceptsElement(b[..k], name, items[0]) && AcceptsItems(b[k..], items[1..]);
  }

  lemma {:induction false} ItemsBack(inp: seq<byte>, i: nat, items: seq<Value>, end: nat)
    requires i < end <= |inp| && inp[end - 1] == 0 && items != []
    requires AcceptsItems(inp[i..end - 1], items)
    ensures ReadItems(inp, i, end) == Got(items, end)
    decreases items, 1
  {
    hide *;
    var v, rest := items[0], items[1..];
    var k, name := ItemsParts(inp[i..end - 1], items);
    Cut(inp, i, i + k, end - 1);
    ElementRead(inp, i, name, v, i + k);
    ItemsRead(inp, i + k, rest, end);
    ElementReach(inp, i, name, v, i + k);
    ItemsJoin(inp, i, items, name, i + |name| + 2, i + k, end);
  }

  lemma {:induction false} ItemsRead(inp: seq<byte>, i: nat, items: seq<Value>, end: nat)
    requires i < end <= |inp| && inp[end - 1] == 0
    ensures ReadItems(inp, i, end) == Got(items, end) <==> AcceptsItems(inp[i..end - 1], items)
    decreases items, 2
  {
    hide ReadCStr, ReadElem, AcceptsElement, SkipName;
    if items == [] {
    } else {
      hide ReadItems, AcceptsItems;
      if ReadItems(inp, i, end) == Got(items, end) {
        ItemsForth(inp, i, items, end);
      }
      if AcceptsItems(inp[i..end - 1], items) {
        ItemsBack(inp, i, items, end);
      }
    }
  }

  lemma ItemsJoin(inp: seq<byte>, i: nat, items: seq<Value>, name: seq<byte>, pos: nat, pos': nat, end: nat)
    requires i < end <= |inp| && items != [] && inp[i] != 0
    requires ReadCStr(inp, i + 1) == Got(name, pos) && pos <= pos' < end
    requires ReadElem(inp, pos, inp[i]) == Got(items[0], pos')
    requires ReadItems(inp, pos', end) == Got(items[1..], end)
    ensures ReadItems(inp, i, end) == Got(items, end)
  {
    hide ReadCStr, ReadElem, NulFree, SkipName;
    NameLength(inp, i, name, pos);
    CStrRead(inp, i + 1, name, pos);
    NulFreeAt(inp, i + 1, name, pos);
    BsonRoundTrip.SkipNameIs(inp, i + 1, |name|, end);
    assert [items[0]] + items[1..] == items;
  }

  lemma NulFreeAt(inp: seq<byte>, i: nat, name: seq<byte>, pos: nat)
    requires pos == i + |name| + 1 <= |inp| && inp[i..pos] == name + [0] && NulFree(name)
    ensures inp[pos - 1] == 0 && forall j :: i <= j < i + |name| ==> inp[j] != 0
  {
    assert inp[i..pos][|name|] == inp[pos - 1];
    forall j | i <= j < i + |name| ensures inp[j] != 0 {
      assert inp[i..pos][j - i] == inp[j] == name[j - i];
    }
  }

  /** Unmarshal, against the format: the document the input begins with, or a
      report of corruption if and only if it begins with none. */
  method UnmarshalDocument(inp: seq<byte>) returns (ok: bool, fields: seq<Field>)
    ensures ok <==> exists pos, fs :: 0 <= pos <= |inp| && AcceptsDocument(inp[..pos], fs)
    ensures forall pos, fs :: 0 <= pos <= |inp| && AcceptsDocument(inp[..pos], fs) ==> fields == fs
  {
    hide ReadDoc, AcceptsDocument;
    ok, fields := BsonDecode.Unmarshal(inp);
    if ok {
      var pos := ReadDoc(inp, 0).pos;
      DocumentRead(inp, 0, fields, pos);
      assert inp[0..pos] == inp[..pos];
    }
    forall pos, fs | 0 <= pos <= |inp| && AcceptsDocument(inp[..pos], fs) ensures ok && fields == fs {
      assert inp[0..pos] == inp[..pos];
      DocumentRead(inp, 0, fs, pos);
    }
  }

  /** What is written is accepted, as the value that the round trip gives. */
  lemma WrittenIsAccepted(b: seq<byte>, fields: seq<Field>)
    requires DocumentText(b, fields) && GoodAll(fields) && |b| < 0x8000_0000
    ensures AcceptsDocument(b, NormAll(fields))
    ensures forall fs :: AcceptsDocument(b, fs) ==> fs == NormAll(fields)
  {
    hide *;
    BsonWritten.DocumentWritten(b, fields);
    BsonRoundTrip.DocumentRoundTrip(fields, []);
    assert b + [] == b && b[0..|b|] == b;
    DocumentRead(b, 0, NormAll(fields), |b|);
    forall fs | AcceptsDocument(b, fs) ensures fs == NormAll(fields) {
      DocumentRead(b, 0, fs, |b|);
    }
  }
}
