/** Decoding depends only on the bytes up to where it stops. */
module BsonLocal {
  import opened Bytes
  import opened BsonValue
  import opened BsonDecode

  /** The inputs agree on their first n bytes. */
  predicate Agree(a: seq<byte>, b: seq<byte>, n: nat) {
    n <= |a| && n <= |b| && a[..n] == b[..n]
  }

  lemma AgreeAt(a: seq<byte>, b: seq<byte>, n: nat, i: nat)
    requires Agree(a, b, n) && i < n
    ensures a[i] == b[i]
  {
    assert a[..n][i] == b[..n][i];
  }

  lemma AgreeSlice(a: seq<byte>, b: seq<byte>, n: nat, i: nat, j: nat)
    requires Agree(a, b, n) && i <= j <= n
    ensures a[i..j] == b[i..j]
  {
    assert a[i..j] == a[..n][i..j] && b[i..j] == b[..n][i..j];
  }

  lemma BytesLocal(a: seq<byte>, b: seq<byte>, n: nat, i: nat, k: i32)
    requires Agree(a, b, n) && ReadBytes(a, i, k).Got? && ReadBytes(a, i, k).pos <= n
    ensures ReadBytes(b, i, k) == ReadBytes(a, i, k)
  {
    AgreeSlice(a, b, n, i, i + k);
  }

  lemma ByteLocal(a: seq<byte>, b: seq<byte>, n: nat, i: nat)
    requires Agree(a, b, n) && ReadByte(a, i).Got? && ReadByte(a, i).pos <= n
    ensures ReadByte(b, i) == ReadByte(a, i)
  {
    AgreeAt(a, b, n, i);
  }

  lemma Int32Local(a: seq<byte>, b: seq<byte>, n: nat, i: nat)
    requires Agree(a, b, n) && ReadInt32(a, i).Got? && ReadInt32(a, i).pos <= n
    ensures ReadInt32(b, i) == ReadInt32(a, i)
  {
    hide Agree, U32, Wrap32;
    BytesLocal(a, b, n, i, 4);
  }

  lemma Int64Local(a: seq<byte>, b: seq<byte>, n: nat, i: nat)
    requires Agree(a, b, n) && ReadInt64(a, i).Got? && ReadInt64(a, i).pos <= n
    ensures ReadInt64(b, i) == ReadInt64(a, i)
  {
    hide Agree, U64, Wrap64;
    BytesLocal(a, b, n, i, 8);
  }

  lemma {:induction false} FindNulLocal(a: seq<byte>, b: seq<byte>, n: nat, i: nat)
    requires Agree(a, b, n) && i <= |a| && FindNul(a, i) < n
    ensures i <= |b| && FindNul(b, i) == FindNul(a, i)
    decreases |a| - i
  {
    AgreeAt(a, b, n, i);
    if a[i] != 0 {
      FindNulLocal(a, b, n, i + 1);
    }
  }

  lemma CStrLocal(a: seq<byte>, b: seq<byte>, n: nat, i: nat)
    requires Agree(a, b, n) && i <= |a| && ReadCStr(a, i).Got? && ReadCStr(a, i).pos <= n
    ensures i <= |b| && ReadCStr(b, i) == ReadCStr(a, i)
  {
    FindNulLocal(a, b, n, i);
    AgreeSlice(a, b, n, i, FindNul(a, i));
  }

  lemma StrLocal(a: seq<byte>, b: seq<byte>, n: nat, i: nat)
    requires Agree(a, b, n) && ReadStr(a, i).Got? && ReadStr(a, i).pos <= n
    ensures ReadStr(b, i) == ReadStr(a, i)
  {
    hide Agree, ReadInt32, ReadBytes, ReadByte, Wrap32;
    Int32Local(a, b, n, i);
    var len := ReadInt32(a, i);
    var m: int := len.value;
    BytesLocal(a, b, n, len.pos, Wrap32(m - 1));
    ByteLocal(a, b, n, ReadBytes(a, len.pos, Wrap32(m - 1)).pos);
  }

  lemma BinaryLocal(a: seq<byte>, b: seq<byte>, n: nat, i: nat)
    requires Agree(a, b, n) && ReadBinary(a, i).Got? && ReadBinary(a, i).pos <= n
    ensures ReadBinary(b, i) == ReadBinary(a, i)
  {
    hide Agree, ReadInt32, ReadBytes, ReadByte;
    Int32Local(a, b, n, i);
    var len := ReadInt32(a, i);
    ByteLocal(a, b, n, len.pos);
    BytesLocal(a, b, n, ReadByte(a, len.pos).pos, len.value);
  }

  /** The values that are read as one or two words. */
  lemma WordsLocal(a: seq<byte>, b: seq<byte>, n: nat, i: nat, kind: byte)
    requires Agree(a, b, n) && i <= n && kind in {0x01, 0x09, 0x10, 0x11, 0x12, 0x13}
    requires ReadBasic(a, i, kind).Got? && ReadBasic(a, i, kind).pos <= n
    ensures i <= |b| && ReadBasic(b, i, kind) == ReadBasic(a, i, kind)
  {
    assert i <= |b|;
    hide Agree, ReadInt32, ReadInt64, FromMillis;
    if kind == 0x10 {
      Int32Local(a, b, n, i);
    } else {
      Int64Local(a, b, n, i);
      if kind == 0x13 {
        Int64Local(a, b, n, ReadInt64(a, i).pos);
      }
    }
  }

  lemma TextsLocal(a: seq<byte>, b: seq<byte>, n: nat, i: nat, kind: byte)
    requires Agree(a, b, n) && i <= n && kind in {0x02, 0x05, 0x07, 0x08, 0x0B, 0x0C, 0x0D, 0x0E}
    requires ReadBasic(a, i, kind).Got? && ReadBasic(a, i, kind).pos <= n
    ensures i <= |b| && ReadBasic(b, i, kind) == ReadBasic(a, i, kind)
  {
    assert i <= |b|;
    hide Agree, ReadBytes, ReadByte, ReadStr, ReadCStr, ReadBinary;
    if kind == 0x05 {
      BinaryLocal(a, b, n, i);
    } else if kind == 0x07 {
      BytesLocal(a, b, n, i, 12);
    } else if kind == 0x08 {
      ByteLocal(a, b, n, i);
    } else if kind == 0x0B {
      CStrLocal(a, b, n, i);
      CStrLocal(a, b, n, ReadCStr(a, i).pos);
    } else {
      StrLocal(a, b, n, i);
      if kind == 0x0C {
        BytesLocal(a, b, n, ReadStr(a, i).pos, 12);
      }
    }
  }

  lemma BasicLocal(a: seq<byte>, b: seq<byte>, n: nat, i: nat, kind: byte)
    requires Agree(a, b, n) && i <= n && ReadBasic(a, i, kind).Got? && ReadBasic(a, i, kind).pos <= n
    ensures i <= |b| && ReadBasic(b, i, kind) == ReadBasic(a, i, kind)
  {
    hide ReadInt32, ReadInt64, ReadBytes, ReadByte, ReadStr, ReadCStr, ReadBinary, FromMillis;
    if kind in {0x01, 0x09, 0x10, 0x11, 0x12, 0x13} {
      WordsLocal(a, b, n, i, kind);
    } else if kind in {0x02, 0x05, 0x07, 0x08, 0x0B, 0x0C, 0x0D, 0x0E} {
      TextsLocal(a, b, n, i, kind);
    }
  }

  lemma EndLocal(a: seq<byte>, b: seq<byte>, n: nat, i: nat)
    requires Agree(a, b, n) && ReadEnd(a, i).Got? && ReadEnd(a, i).value <= n
    ensures ReadEnd(b, i) == ReadEnd(a, i)
  {
    hide ReadInt32;
    Int32Local(a, b, n, i);
    AgreeAt(a, b, n, ReadEnd(a, i).value - 1);
  }

  lemma {:induction false} ElemLocal(a: seq<byte>, b: seq<byte>, n: nat, i: nat, kind: byte)
    requires Agree(a, b, n) && i <= |a| && i <= n && ReadElem(a, i, kind).Got? && ReadElem(a, i, kind).pos <= n
    ensures i <= |b| && ReadElem(b, i, kind) == ReadElem(a, i, kind)
    decreases |a| - i, 2
  {
    assert i <= |b|;
    hide Agree, ReadStr, ReadBasic, ReadDoc, ReadArray;
    if kind == 0x03 {
      DocLocal(a, b, n, i);
    } else if kind == 0x04 {
      ArrayLocal(a, b, n, i);
    } else if kind == 0x0F {
      StrLocal(a, b, n, i + 4);
      DocLocal(a, b, n, ReadStr(a, i + 4).pos);
    } else {
      BasicLocal(a, b, n, i, kind);
    }
  }

  lemma {:induction false} DocLocal(a: seq<byte>, b: seq<byte>, n: nat, i: nat)
    requires Agree(a, b, n) && i <= |a| && i <= n && ReadDoc(a, i).Got? && ReadDoc(a, i).pos <= n
    ensures i <= |b| && ReadDoc(b, i) == ReadDoc(a, i)
    decreases |a| - i, 1
  {
    assert i <= |b|;
    hide Agree, ReadEnd, ReadFields;
    EndLocal(a, b, n, i);
    var end := ReadEnd(a, i);
    FieldsLocal(a, b, n, end.pos, end.value);
  }

  lemma {:induction false} FieldsLocal(a: seq<byte>, b: seq<byte>, n: nat, i: nat, end: nat)
    requires Agree(a, b, n) && i < end <= n && ReadFields(a, i, end).Got? && ReadFields(a, i, end).pos <= n
    ensures end <= |b| && ReadFields(b, i, end) == ReadFields(a, i, end)
    decreases |a| - i, 0
  {
    assert end <= |b| && end <= |a|;
    AgreeAt(a, b, n, i);
    if a[i] != 0 {
      hide Agree, ReadCStr, ReadElem;
      CStrLocal(a, b, n, i + 1);
      var pos := ReadCStr(a, i + 1).pos;
      ElemLocal(a, b, n, pos, a[i]);
      FieldsLocal(a, b, n, ReadElem(a, pos, a[i]).pos, end);
    }
  }

  lemma {:induction false} ArrayLocal(a: seq<byte>, b: seq<byte>, n: nat, i: nat)
    requires Agree(a, b, n) && i <= |a| && i <= n && ReadArray(a, i).Got? && ReadArray(a, i).pos <= n
    ensures i <= |b| && ReadArray(b, i) == ReadArray(a, i)
    decreases |a| - i, 1
  {
    assert i <= |b|;
    hide Agree, ReadEnd, ReadItems;
    EndLocal(a, b, n, i);
    var end := ReadEnd(a, i);
    ItemsLocal(a, b, n, end.pos, end.value);
  }

  lemma {:induction false} SkipNameLocal(a: seq<byte>, b: seq<byte>, n: nat, i: nat, end: nat)
    requires Agree(a, b, n) && i <= end <= n
    ensures end <= |a| && end <= |b| && SkipName(b, i, end) == SkipName(a, i, end)
    decreases end - i
  {
    if i < end {
      AgreeAt(a, b, n, i);
      SkipNameLocal(a, b, n, i + 1, end);
    }
  }

  lemma {:induction false} ItemsLocal(a: seq<byte>, b: seq<byte>, n: nat, i: nat, end: nat)
    requires Agree(a, b, n) && i < end <= n && ReadItems(a, i, end).Got? && ReadItems(a, i, end).pos <= n
    ensures end <= |b| && ReadItems(b, i, end) == ReadItems(a, i, end)
    decreases |a| - i, 0
  {
    assert end <= |b| && end <= |a|;
    AgreeAt(a, b, n, i);
    if a[i] != 0 {
      hide Agree, SkipName, ReadElem;
      SkipNameLocal(a, b, n, i + 1, end);
      var k := SkipName(a, i + 1, end);
      ElemLocal(a, b, n, k + 1, a[i]);
      ItemsLocal(a, b, n, ReadElem(a, k + 1, a[i]).pos, end);
    }
  }

  /** A document that decodes is decoded alike, and to the same place, from every
      input that begins with the same bytes up to the document's declared end. */
  lemma DecodingIsLocal(inp: seq<byte>, inp': seq<byte>, i: nat)
    requires i <= |inp| && ReadDoc(inp, i).Got?
    requires Agree(inp, inp', ReadDoc(inp, i).pos)
    ensures i <= |inp'| && ReadDoc(inp', i) == ReadDoc(inp, i)
  {
    hide ReadDoc;
    DocLocal(inp, inp', ReadDoc(inp, i).pos, i);
  }
}
