/** The decimal128 printer: digits are written backwards into a 48-byte buffer. */
module DecimalPrint {
  import opened Numerals
  import opened Words
  import opened DecimalFormat

  /** The words and the current chunk tell whether only the leading digit is left. */
  lemma ChunkGuard(c: nat, j: nat, wide: nat, rem: nat, m: nat)
    requires Drop(c, j) == wide * m + rem && m >= 10 && rem < m
    ensures wide == 0 && 0 < rem < 10 <==> c > 0 && NumDigits(c) == j + 1
  {
    DropAll(c, j);
    DropToOne(c, j);
    if wide > 0 {
      MulMonotone(1, wide, m);
    }
  }

  /** The words and the reduced chunk tell whether the digit just taken was the last. */
  lemma ChunkDone(c: nat, j: nat, wide: nat, rem: nat, m: nat)
    requires Drop(c, j) == wide * (10 * m) + rem && m >= 1 && rem < 10 * m
    ensures Drop(c, j + 1) == wide * m + rem / 10
    ensures rem / 10 < m && rem % 10 == Drop(c, j) % 10
    ensures wide == 0 && rem / 10 == 0 <==> NumDigits(c) <= j + 1
  {
    DropAll(c, j + 1);
    ChunkStep(wide, rem, m);
    if wide > 0 {
      MulMonotone(1, wide, m);
    }
  }

  /** The state between the point decision and the next digit. */
  ghost predicate Ready(c: nat, e0: int, j: nat, placed: bool, p: nat, txt: string, e: int, dot: int) {
    if placed then
      p <= j && PointPlace(c, e0, p) && txt == Dotted(c, j, p) && e == e0 + p && dot == 48
    else
      && txt == LowDigits(c, j) && e == e0 && dot == 48 + e0
      && (e0 < 0 ==> j < -e0)
      && (j >= 1 && c > 0 && NumDigits(c) == j + 1 ==> e0 <= 0 && e0 + j >= -6)
  }

  /** The point goes in exactly at one of the two places PointPlace allows. */
  lemma PlacePoint(c: nat, e0: int, j: nat, placed: bool, p: nat, txt: string, e: int, dot: int, i: int)
    requires Written(c, e0, j, placed, p, txt, e, dot) && Pending(c, e0, j, placed)
    requires i == (if placed then 47 else 48) - j
    requires i < 48 && (dot == i || (c > 0 && NumDigits(c) == j + 1 && (dot < i - 6 || e > 0)))
    ensures !placed && Ready(c, e0, j, true, j, ['.'] + txt, e + (48 - i), 48)
  {
  }

  lemma SkipPoint(c: nat, e0: int, j: nat, placed: bool, p: nat, txt: string, e: int, dot: int, i: int)
    requires Written(c, e0, j, placed, p, txt, e, dot)
    requires i == (if placed then 47 else 48) - j
    requires !(i < 48 && (dot == i || (c > 0 && NumDigits(c) == j + 1 && (dot < i - 6 || e > 0))))
    ensures Ready(c, e0, j, placed, p, txt, e, dot)
  {
  }

  lemma WriteDigit(c: nat, e0: int, j: nat, placed: bool, p: nat, txt: string, e: int, dot: int)
    requires Ready(c, e0, j, placed, p, txt, e, dot)
    ensures Written(c, e0, j + 1, placed, p, [DigitChar(Drop(c, j) % 10)] + txt, e, dot)
  {
    if placed {
      DottedStep(c, j, p);
    }
  }

  /** The single-digit exit, "0E+3" or "1E-7". */
  lemma FinishSingle(c: nat, e0: int, placed: bool, p: nat, txt: string, e: int, dot: int)
    requires Ready(c, e0, 0, placed, p, txt, e, dot) && NumDigits(c) <= 1 && (dot < 42 || e > 0)
    ensures Complete(c, e0, [DigitChar(Drop(c, 0) % 10)] + txt, e)
  {
    WriteDigit(c, e0, 0, placed, p, txt, e, dot);
  }

  /** At the ordinary exit either the point's leading zero or the leading digit remains. */
  lemma LastDigit(c: nat, e0: int, j: nat, placed: bool, p: nat, txt: string, e: int, dot: int)
    requires Ready(c, e0, j, placed, p, txt, e, dot) && !(c == 0 && e0 == 0)
    requires NumDigits(c) <= j + 1 && dot > (if placed then 47 else 48) - (j + 1)
    requires placed && p < j ==> j < NumDigits(c)
    requires j > 0 && !placed ==> j < NumDigits(c) || (e0 < 0 && e0 + NumDigits(c) - 1 >= -6)
    requires j == 0 ==> !(dot < 42 || e > 0)
    ensures placed ==> p == j || NumDigits(c) == j + 1
    ensures !placed ==> e0 == 0 && NumDigits(c) == j + 1
    ensures (placed && p == j) || 0 < Drop(c, j) < 10
  {
    DropAll(c, j);
    DropToOne(c, j);
  }

  /** The ordinary exit: nothing is left and the point is not still to come.
      What was written last is the point's leading zero or a nonzero digit. */
  lemma FinishDigits(c: nat, e0: int, j: nat, placed: bool, p: nat, txt: string, e: int, dot: int)
    requires Ready(c, e0, j, placed, p, txt, e, dot) && !(c == 0 && e0 == 0)
    requires NumDigits(c) <= j + 1 && dot > (if placed then 47 else 48) - (j + 1)
    requires placed && p < j ==> j < NumDigits(c)
    requires j > 0 && !placed ==> j < NumDigits(c) || (e0 < 0 && e0 + NumDigits(c) - 1 >= -6)
    requires j == 0 ==> !(dot < 42 || e > 0)
    ensures Complete(c, e0, [DigitChar(Drop(c, j) % 10)] + txt, e)
    ensures Drop(c, j) % 10 == 0 ==> placed && p == j
  {
    hide Complete, Dotted, LowDigits, Drop;
    WriteDigit(c, e0, j, placed, p, txt, e, dot);
    LastDigit(c, e0, j, placed, p, txt, e, dot);
    if placed {
      CompletePointed(c, e0, j + 1, p);
    } else {
      CompletePlainInteger(c);
    }
  }

  /** Stores a byte just in front of the text. */
  method PutByte(repr: array<char>, i: nat, b: char)
    requires i < repr.Length
    modifies repr
    ensures repr[i..] == [b] + old(repr[i + 1..])
  {
    ghost var tail := repr[i + 1..];
    repr[i] := b;
    assert repr[i + 1..] == tail;
    assert repr[i..] == [repr[i]] + repr[i + 1..];
  }

  /** One turn of the inner loop: perhaps a point, then a digit in front of the text. */
  method RenderStep(repr: array<char>, h: u64, l: u64, rem0: u32, i0: int, last0: int, dot0: int, e1: int,
                    ghost c: nat, ghost e0: int, ghost j: nat, ghost m: nat, ghost placed0: bool, ghost p0: nat)
    returns (rem: u32, i: int, last: int, dot: int, e: int, done: bool, ghost placed: bool, ghost p: nat)
    requires repr.Length == 48 && 1 <= last0 <= 48 && i0 == (if placed0 then 47 else 48) - j
    requires !(c == 0 && e0 == 0) && 1 <= m <= 100_000_000 && j <= 40
    requires Drop(c, j) == Wide(h, l) * (10 * m) + rem0 && rem0 < 10 * m
    requires 0 <= i0 && Written(c, e0, j, placed0, p0, repr[i0..], e1, dot0)
    requires Pending(c, e0, j, placed0)
    modifies repr
    ensures 1 <= last <= 48 && i == (if placed then 47 else 48) - (j + 1) && 1 <= i
    ensures Wide(h, l) * m + rem == Drop(c, j + 1) && rem < m
    ensures done ==> Complete(c, e0, repr[i..], e) && last == i
    ensures !done ==> Written(c, e0, j + 1, placed, p, repr[i..], e, dot) && Pending(c, e0, j + 1, placed)
  {
    hide Complete, Dotted, LowDigits, PointPlace;
    i, last, dot, e, placed, p := i0, last0, dot0, e1, placed0, p0;
    ghost var txt := repr[i..];
    ChunkGuard(c, j, Wide(h, l), rem0, 10 * m);
    if i < 48 && (dot == i || (l == 0 && h == 0 && rem0 > 0 && rem0 < 10 && (dot < i - 6 || e > 0))) {
      PlacePoint(c, e0, j, placed, p, txt, e, dot, i);
      e := e + (48 - i);
      i := i - 1;
      PutByte(repr, i, '.');
      last := i - 1;
      dot := 48;
      placed, p := true, j;
      txt := repr[i..];
    } else {
      SkipPoint(c, e0, j, placed, p, txt, e, dot, i);
    }
    ChunkDone(c, j, Wide(h, l), rem0, m);
    var digit := DigitChar(rem0 % 10);
    rem := rem0 / 10;
    i := i - 1;
    PutByte(repr, i, digit);
    done := false;
    if l == 0 && h == 0 && rem == 0 && i == 47 && (dot < i - 5 || e > 0) {
      FinishSingle(c, e0, placed, p, txt, e, dot);
      last := i;
      done := true;
      return;
    }
    if digit != '0' {
      last := i;
    }
    if dot > i && l == 0 && h == 0 && rem == 0 {
      FinishDigits(c, e0, j, placed, p, txt, e, dot);
      done := true;
    } else {
      WriteDigit(c, e0, j, placed, p, txt, e, dot);
    }
  }

  lemma PendingBound(c: nat, e0: int, j: nat, placed: bool)
    requires NumDigits(c) <= 35 && Pending(c, e0, j, placed)
    ensures j <= 40
  {
  }

  lemma NotPendingAtEnd(c: nat, e0: int, placed: bool)
    requires NumDigits(c) <= 35
    ensures !Pending(c, e0, 45, placed)
  {
  }

  lemma PendingStart(c: nat, e0: int)
    ensures Pending(c, e0, 0, false) && Written(c, e0, 0, false, 0, "", e0, 48 + e0)
    ensures Drop(c, 0) == c
  {
  }

  lemma ChunkSize(d1: nat)
    requires d1 < 9
    ensures Pow10(9 - d1) == 10 * Pow10(8 - d1) && Pow10(8 - d1) <= 100_000_000
  {
    Pow10Monotone(8 - d1, 8);
    NineDigits();
  }

  lemma ChunkEnd()
    ensures Pow10(0) == 1
  {
  }

  /** The inner loop: the nine digits of one chunk, unless the text is complete before. */
  method RenderChunk(repr: array<char>, h: u64, l: u64, rem0: u32, i0: int, last0: int, dot0: int, e1: int,
                     ghost c: nat, ghost e0: int, ghost j0: nat, ghost placed0: bool, ghost p0: nat)
    returns (i: int, last: int, dot: int, e: int, done: bool, ghost placed: bool, ghost p: nat)
    requires repr.Length == 48 && 1 <= last0 <= 48 && 0 <= i0 == (if placed0 then 47 else 48) - j0
    requires NumDigits(c) <= 35 && !(c == 0 && e0 == 0)
    requires Drop(c, j0) == Wide(h, l) * Pow10(9) + rem0 && rem0 < Pow10(9)
    requires Written(c, e0, j0, placed0, p0, repr[i0..], e1, dot0) && Pending(c, e0, j0, placed0)
    modifies repr
    ensures 1 <= last <= 48 && 0 <= i <= 48
    ensures !done ==> i == (if placed then 47 else 48) - (j0 + 9) && Wide(h, l) == Drop(c, j0 + 9)
    ensures done ==> Complete(c, e0, repr[i..], e) && last == i
    ensures !done ==> Written(c, e0, j0 + 9, placed, p, repr[i..], e, dot) && Pending(c, e0, j0 + 9, placed)
  {
    hide *;
    i, last, dot, e, placed, p := i0, last0, dot0, e1, placed0, p0;
    var rem: u32 := rem0;
    done := false;
    ChunkEnd();
    for d1 := 0 to 9
      invariant !done && 1 <= last <= 48
      invariant Wide(h, l) * Pow10(9 - d1) + rem == Drop(c, j0 + d1) && rem < Pow10(9 - d1)
      invariant 0 <= i == (if placed then 47 else 48) - (j0 + d1)
      invariant Written(c, e0, j0 + d1, placed, p, repr[i..], e, dot) && Pending(c, e0, j0 + d1, placed)
    {
      PendingBound(c, e0, j0 + d1, placed);
      ChunkSize(d1);
      rem, i, last, dot, e, done, placed, p := RenderStep(repr, h, l, rem, i, last, dot, e,
                                                          c, e0, j0 + d1, Pow10(8 - d1), placed, p);
      if done {
        break;
      }
    }
  }

  /** Puts the sign in front and cuts the text out of the buffer, with or without it. */
  method Signed(repr: array<char>, last: nat, pos: nat) returns (text: string)
    requires 1 <= last <= repr.Length && pos <= 1
    modifies repr
    ensures text == "-"[pos..] + old(repr[last..])
  {
    PutByte(repr, last - 1, '-');
    assert repr[last - 1 + pos..] == repr[last - 1..][pos..];
    text := repr[last - 1 + pos..];
  }

  /** The digit loop: five chunks of nine digits each, left early, then the sign. */
  method RenderDigits(h0: u64, l0: u64, e0: int, pos: int) returns (text: string, e: int)
    requires NumDigits(Wide(h0, l0)) <= 35 && !(Wide(h0, l0) == 0 && e0 == 0) && 0 <= pos <= 1
    ensures "-"[pos..] <= text && Complete(Wide(h0, l0), e0, text[1 - pos..], e)
  {
    ghost var c := Wide(h0, l0);
    var repr := new char[48];
    var h, l := h0, l0;
    var last, i, dot := 48, 48, 48 + e0;
    e := e0;
    var rem: u32;
    var done := false;
    ghost var placed, p := false, 0;
    PendingStart(c, e0);
    NineDigits();
    hide *;
    assert repr[48..] == "";
    for d9 := 0 to 5
      invariant !done && Wide(h, l) == Drop(c, 9 * d9) && 1 <= last <= 48
      invariant 0 <= i == (if placed then 47 else 48) - 9 * d9
      invariant Written(c, e0, 9 * d9, placed, p, repr[i..], e, dot) && Pending(c, e0, 9 * d9, placed)
    {
      var q := DivMod(h, l, 1_000_000_000);
      h, l, rem := q.0, q.1, q.2;
      i, last, dot, e, done, placed, p := RenderChunk(repr, h, l, rem, i, last, dot, e, c, e0, 9 * d9, placed, p);
      if done {
        break;
      }
    }
    assert done by {
      if !done {
        NotPendingAtEnd(c, e0, placed);
      }
    }
    ghost var body := repr[last..];
    text := Signed(repr, last, pos);
    assert text[1 - pos..] == body;
  }

  lemma WideBelow(h: u64, l: u64)
    requires h < P49
    ensures NumDigits(Wide(h, l)) <= 35
  {
    TwelveDigits();
    NumDigitsAtMost(Wide(h, l), 35);
  }

  lemma TwelveDigits()
    ensures Pow10(35) == 1_00000_00000_00000_00000_00000_00000_00000
  {
    NineDigits();
    Pow10Add(9, 9);
    Pow10Add(18, 9);
    Pow10Add(27, 8);
    assert Pow10(8) * 10 == Pow10(9);
  }

  lemma ExpText(e: int)
    ensures ExpPart(e) == if e > 0 then "E+" + Itoa(e) else if e < 0 then "E" + Itoa(e) else ""
  {
    hide Digits;
    assert e < 0 ==> "E" + ("-" + Digits(-e)) == "E-" + Digits(-e);
  }

  /** Sign, digits and exponent part make up the formatted number. */
  lemma Assemble(neg: bool, c: nat, e0: int, body: string, e: int, text: string, tail: string)
    requires Complete(c, e0, body, e)
    requires text == (if neg then "-" else "") + body
    requires tail == (if e > 0 then "E+" + Itoa(e) else if e < 0 then "E" + Itoa(e) else "")
    ensures text + tail == Format(Finite(neg, c, e0))
  {
    hide Itoa, ExpPart, Unsigned;
    ExpText(e);
    assert text + tail == (if neg then "-" else "") + (body + ExpPart(e));
  }

  /** The String method of a decimal128. */
  method ToString(d: Decimal128) returns (s: string)
    ensures s == Format(Interpret(d))
  {
    hide Complete, Unsigned, NumDigits, Digits, Itoa, Wide;
    var pos := if d.h / P63 % 2 == 0 then 1 else 0;
    var top := d.h / P58 % 32;
    if top == 0x1F {
      return "NaN";
    } else if top == 0x1E {
      return "-Inf"[pos..];
    }
    var h, l, e := 0, d.l, 0;
    if d.h / P61 % 4 == 3 {
      e := d.h / P47 % EXP_MASK - BIAS;
      h, l := 0, 0;
    } else {
      e := d.h / P49 % EXP_MASK - BIAS;
      h := d.h % P49;
    }
    WideZero(h, l);
    ghost var neg, c, e0 := pos == 0, Wide(h, l), e;
    assert Interpret(d) == Finite(neg, c, e0);
    if h == 0 && l == 0 && e == 0 {
      FormatZero(neg);
      return "-0"[pos..];
    }
    WideBelow(h, l);
    var text;
    text, e := RenderDigits(h, l, e, pos);
    var tail := "";
    if e > 0 {
      tail := "E+" + Itoa(e);
    } else if e < 0 {
      tail := "E" + Itoa(e);
    }
    Assemble(neg, c, e0, text[1 - pos..], e, text, tail);
    s := text + tail;
  }

  lemma FormatZero(neg: bool)
    ensures Format(Finite(neg, 0, 0)) == if neg then "-0" else "0"
  {
    assert Digits(0) == "0";
  }

  lemma WideZero(h: u64, l: u64)
    ensures Wide(h, l) == 0 <==> h == 0 && l == 0
  {
  }
}
