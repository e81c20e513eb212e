/** When a parsed literal keeps its exact value. */
module DecimalExact {
  import opened Wrappers
  import opened Numerals
  import opened Words
  import opened DecimalFormat
  import opened DecimalLiteral
  import DecimalParse
  import DecimalRoundTrip

  /** Ten to an integer power. */
  function Ten(e: int): (r: real)
    ensures r > 0.0
  {
    if e >= 0 then Pow10(e) as real else 1.0 / (Pow10(-e) as real)
  }

  /** The rational number c * 10^e. */
  function Value(c: nat, e: int): real {
    c as real * Ten(e)
  }

  /** The rational number a literal denotes. */
  function LiteralValue(lit: Literal): real
    requires lit.Valid()
  {
    Value(Num(lit.whole + lit.frac), (if lit.exp.Some? then lit.exp.value else 0) - |lit.frac|)
  }

  lemma TenStep(e: int)
    ensures Ten(e + 1) == 10.0 * Ten(e)
  {
    if e < 0 {
      var p := Pow10(-e - 1) as real;
      assert Pow10(-e) as real == 10.0 * p;
      Reciprocal(p);
    }
  }

  lemma Reciprocal(p: real)
    requires p > 0.0
    ensures 1.0 / p == 10.0 * (1.0 / (10.0 * p))
  {
  }

  /** Moving powers of ten between coefficient and exponent. */
  lemma {:induction false} Shift(c: nat, e: int, k: nat)
    ensures Value(c * Pow10(k), e) == Value(c, e + k)
    decreases k
  {
    if k > 0 {
      Shift(c, e + 1, k - 1);
      TenStep(e);
      ShiftOne(c * Pow10(k - 1), e);
      MulTen(c, Pow10(k - 1));
    }
  }

  lemma ShiftOne(c: nat, e: int)
    ensures Value(10 * c, e) == Value(c, e + 1)
  {
    TenStep(e);
    RealMul(c as real, Ten(e));
  }

  lemma RealMul(c: real, t: real)
    ensures (10.0 * c) * t == c * (10.0 * t)
  {
  }

  lemma ValueOrder(c: nat, c': nat, e: int)
    requires c < c'
    ensures Value(c, e) < Value(c', e)
  {
    hide Ten;
    RealOrder(c as real, c' as real, Ten(e));
  }

  lemma ValueInjective(c: nat, c': nat, e: int)
    requires Value(c, e) == Value(c', e)
    ensures c == c'
  {
    hide Value;
    if c < c' {
      ValueOrder(c, c', e);
    } else if c' < c {
      ValueOrder(c', c, e);
    }
  }

  lemma RealOrder(a: real, b: real, t: real)
    requires a < b && t > 0.0
    ensures a * t < b * t
  {
  }

  /** A nonzero coefficient fixes the exponent. */
  lemma ExponentInjective(c: nat, e: int, e': int)
    requires c > 0 && Value(c, e) == Value(c, e')
    ensures e == e'
  {
    if e < e' {
      DifferentExponents(c, e, e');
    } else if e' < e {
      DifferentExponents(c, e', e);
    }
  }

  lemma DifferentExponents(c: nat, e: int, e': int)
    requires c > 0 && e < e'
    ensures Value(c, e) != Value(c, e')
  {
    var k := e' - e;
    Shift(c, e, k);
    Pow10Monotone(1, k);
    assert Pow10(1) == 10;
    MulMonotone(10, Pow10(k), c);
    if Value(c * Pow10(k), e) == Value(c, e) {
      ValueInjective(c * Pow10(k), c, e);
    }
  }

  lemma ZeroValue(e: int)
    ensures Value(0, e) == 0.0
  {
  }

  /** Digits rounded away exactly only move into the exponent. */
  lemma KeptValue(ds: string, e: int)
    requires AllDigits(ds) && ExactlyRounded(ds)
    ensures Value(Num(ds[..|ds| - Excess(ds)]), e + Excess(ds)) == Value(Num(ds), e)
  {
    hide Excess, Num, Pow10, Value;
    var kept, tail := ds[..|ds| - Excess(ds)], ds[|ds| - Excess(ds)..];
    NumConcat(kept, tail);
    assert kept + tail == ds;
    assert tail == Zeros(|tail|);
    NumZeros(tail);
    Shift(Num(kept), e, Excess(ds));
  }

  /** Dividing out powers of ten keeps the value. */
  lemma FoldLowValue(c: nat, e: int)
    requires e < -BIAS && FoldExp(c, e).Some?
    ensures var (c', e') := FoldExp(c, e).value; e' == -BIAS && Value(c', e') == Value(c, e)
  {
    var k := -BIAS - e;
    DivModDefinition(c, Pow10(k));
    Shift(c / Pow10(k), e, k);
  }

  /** Multiplying up keeps the value exactly when the product fits in 113 bits. */
  lemma {:induction false} ClampFits(c: nat, e: int)
    requires e > MAX_EXP
    ensures c * Pow10(e - MAX_EXP) < P113 ==> Clamp(c, e) == Some((c * Pow10(e - MAX_EXP), MAX_EXP))
    ensures Clamp(c, e).Some? ==> Clamp(c, e).value.0 < P113 && Clamp(c, e).value.1 == MAX_EXP
    decreases e
  {
    hide Pow10;
    var k := if e - MAX_EXP < 9 then e - MAX_EXP else 9;
    var m := e - MAX_EXP - k;
    Pow10Add(k, m);
    PowZero();
    MulAssoc(c, Pow10(k), Pow10(m));
    var wide := c * Pow10(k);
    if wide * Pow10(m) < P113 {
      MulMonotone(1, Pow10(m), wide);
    }
    if m > 0 && wide % W128 < P113 {
      ClampFits(wide % W128, e - k);
    }
  }

  lemma PowZero()
    ensures Pow10(0) == 1
  {
  }

  lemma MulAssoc(a: int, b: int, c: int)
    ensures a * (b * c) == a * b * c
  {
  }

  /** The coefficient and exponent of a literal before its exponent is folded into range. */
  function Scanned(lit: Literal): (nat, int)
    requires lit.Valid()
  {
    var ds := lit.whole + lit.frac;
    (Num(ds[..|ds| - Excess(ds)]), Excess(ds) - |lit.frac| + if lit.exp.Some? then lit.exp.value else 0)
  }

  /** The inputs whose value the parser keeps. With a written exponent above
      the range the product with the missing powers of ten must fit in the 113
      coefficient bits. Without a written exponent, which is never checked, a
      nonzero number must already be in range, and the exponent field of a zero
      must not spill into the infinities and NaNs. */
  predicate Faithful(lit: Literal)
    requires lit.Valid()
  {
    var (c, e) := Scanned(lit);
    if lit.exp.Some? then e > MAX_EXP ==> c * Pow10(e - MAX_EXP) < P113
    else if c > 0 then -BIAS <= e <= MAX_EXP
    else (e + BIAS) % EXP_MASK < 0x3C00
  }

  lemma ScannedValue(lit: Literal)
    requires lit.Valid() && ExactlyRounded(lit.whole + lit.frac)
    ensures Value(Scanned(lit).0, Scanned(lit).1) == LiteralValue(lit)
  {
    hide Excess, Num, Value;
    KeptValue(lit.whole + lit.frac, (if lit.exp.Some? then lit.exp.value else 0) - |lit.frac|);
  }

  /** What a packed value means when its exponent field has wrapped around. */
  lemma InterpretWrapped(neg: bool, c: nat, e: int)
    requires c < P113
    ensures var (m, f) := (Interpret(Pack(neg, c, e)), (e + BIAS) % EXP_MASK);
      && (f < 0x3000 ==> m == Finite(neg, c, f - BIAS))
      && (0x3000 <= f < 0x3C00 ==> m.Finite? && m.coef == 0 && m.neg == neg)
      && (0x3C00 <= f ==> !m.Finite?)
  {
    DecimalRoundTrip.Fields(neg, (e + BIAS) % EXP_MASK, c / W64);
  }

  /** The stored number and the literal have the same sign and value. */
  predicate SameNumber(m: Meaning, neg: bool, v: real) {
    m.Finite? && m.neg == neg && Value(m.coef, m.exp) == v
  }

  lemma UncheckedExponent(neg: bool, c: nat, e: int)
    requires c < P113
    ensures SameNumber(Interpret(Pack(neg, c, e)), neg, Value(c, e)) <==>
      if c > 0 then -BIAS <= e <= MAX_EXP else (e + BIAS) % EXP_MASK < 0x3C00
  {
    hide Value, Interpret, Pack;
    var f := (e + BIAS) % EXP_MASK;
    InterpretWrapped(neg, c, e);
    if c == 0 {
      ZeroValue(e);
      ZeroValue(f - BIAS);
      if 0x3000 <= f < 0x3C00 {
        ZeroValue(Interpret(Pack(neg, c, e)).exp);
      }
    } else {
      if f < 0x3000 && Value(c, e) == Value(c, f - BIAS) {
        ExponentInjective(c, e, f - BIAS);
      }
      if 0x3000 <= f < 0x3C00 {
        NonzeroValue(c, e);
        ZeroValue(Interpret(Pack(neg, c, e)).exp);
      }
    }
  }

  lemma NonzeroValue(c: nat, e: int)
    requires c > 0
    ensures Value(c, e) > 0.0
  {
    ZeroValue(e);
    ValueOrder(0, c, e);
  }

  lemma CheckedExponent(neg: bool, c: nat, e: int)
    requires c < P113 && FoldExp(c, e).Some?
    ensures FoldExp(c, e).value.0 < P113
    ensures SameNumber(Interpret(Pack(neg, FoldExp(c, e).value.0, FoldExp(c, e).value.1)), neg, Value(c, e)) <==>
      (e > MAX_EXP ==> c * Pow10(e - MAX_EXP) < P113)
  {
    hide Value, Interpret, Pack, Pow10;
    FoldExpBound(c, e);
    var (c', e') := FoldExp(c, e).value;
    DecimalRoundTrip.InterpretPack(neg, c', e');
    if e < -BIAS {
      FoldLowValue(c, e);
    } else if e > MAX_EXP {
      ClampFits(c, e);
      Shift(c, MAX_EXP, e - MAX_EXP);
      if Value(c', MAX_EXP) == Value(c * Pow10(e - MAX_EXP), MAX_EXP) {
        ValueInjective(c', c * Pow10(e - MAX_EXP), MAX_EXP);
      }
    }
  }

  /** A literal that parses keeps its sign and exact value if and only if it is Faithful. */
  lemma ParseExactIff(s: string, d: Decimal128)
    requires Parse(s) == Some(d) && ReadName(Unsign(s).0, Unsign(s).1) == None
    ensures ReadLiteral(Unsign(s).1).Some?
    ensures var lit := ReadLiteral(Unsign(s).1).value;
      SameNumber(Interpret(d), Unsign(s).0, LiteralValue(lit)) <==> Faithful(lit)
  {
    hide Value, Interpret, Pack, ReadLiteral, FoldExp, Excess, Num, SameNumber, Pow10, LiteralValue;
    var (neg, t) := Unsign(s);
    var lit := ReadLiteral(t).value;
    KeptBound(lit.whole + lit.frac);
    ScannedValue(lit);
    var (c, e) := Scanned(lit);
    if lit.exp.Some? {
      CheckedExponent(neg, c, e);
    } else {
      UncheckedExponent(neg, c, e);
    }
  }

  /** Five more digits on a numeral. */
  lemma FiveMore(ds: string, five: string)
    requires AllDigits(ds) && |five| == 5 && AllDigits(five)
    ensures AllDigits(ds + five)
    ensures Num(ds + five) == 100_000 * Num(ds) + 10_000 * DigitValue(five[0]) + 1_000 * DigitValue(five[1])
                              + 100 * DigitValue(five[2]) + 10 * DigitValue(five[3]) + DigitValue(five[4])
  {
    hide Num, DigitValue, IsDigit;
    var d1 := ds + [five[0]];
    var d2, d3 := d1 + [five[1]], d1 + [five[1]] + [five[2]];
    var d4 := d3 + [five[3]];
    NumAppendDigit(ds, five[0]);
    NumAppendDigit(d1, five[1]);
    NumAppendDigit(d2, five[2]);
    NumAppendDigit(d3, five[3]);
    NumAppendDigit(d4, five[4]);
    assert d4 + [five[4]] == ds + five;
  }

  const LOST_COEF: nat := 340282366920938463463374607432
  const LOST_WHOLE: string := "340282366920938463463374607432"
  const LOST: string := "340282366920938463463374607432E6120"

  lemma LostNumeral()
    ensures AllDigits(LOST_WHOLE) && Num(LOST_WHOLE) == LOST_COEF
  {
    hide Num;
    NumEmpty();
    var d1, d2, d3 := "34028", "3402823669", "340282366920938";
    var d4, d5 := "34028236692093846346", "3402823669209384634633746";
    assert "" + "34028" == d1 && d1 + "23669" == d2 && d2 + "20938" == d3;
    assert d3 + "46346" == d4 && d4 + "33746" == d5 && d5 + "07432" == LOST_WHOLE;
    FiveMore("", "34028");
    FiveMore(d1, "23669");
    FiveMore(d2, "20938");
    FiveMore(d3, "46346");
    FiveMore(d4, "33746");
    FiveMore(d5, "07432");
  }

  lemma NumEmpty()
    ensures Num("") == 0 && AllDigits("")
  {
  }

  lemma ReadLostExp()
    ensures ReadExp("E6120") == Some(Some(6120))
  {
    var xs := "E6120"[1..];
    assert xs == "6120";
    assert "6120"[..3] == "612" && "612"[..2] == "61" && "61"[..1] == "6" && "6"[..0] == "";
    assert Num("6") == 6;
    assert Num("61") == 61;
    assert Num("612") == 612;
    assert Num("6120") == 6120;
    assert forall i :: 0 <= i < |xs| ==> IsDigit(xs[i]);
  }

  lemma ReadLost()
    ensures ReadLiteral(LOST) == Some(Literal(LOST_WHOLE, "", Some(6120)))
    ensures Excess(LOST_WHOLE) == 0
  {
    hide ReadLiteral, ReadExp, Num;
    LostNumeral();
    ReadLostExp();
    assert LOST == LOST_WHOLE + "E6120";
    DecimalRoundTrip.ReadPlain(LOST_WHOLE, "E6120");
  }

  lemma LostProduct()
    ensures FoldExp(LOST_COEF, 6120) == Some((231788544, 6111))
    ensures LOST_COEF * Pow10(9) >= P113
  {
    NineDigits();
    assert LOST_COEF * Pow10(9) % W128 == 231788544;
  }

  /** The clamping loop accepts a literal with the wrong value: the product is
      beyond 128 bits, and what is left of it happens to be small. */
  lemma ClampLosesTopWord()
    ensures var s := "340282366920938463463374607432E6120";
      && Parse(s).Some? && ReadLiteral(s).Some?
      && !SameNumber(Interpret(Parse(s).value), false, LiteralValue(ReadLiteral(s).value))
  {
    hide ReadLiteral, FoldExp, Num, SameNumber, Pow10, LiteralValue, Interpret, Pack, Excess, Lower;
    LostNumeral();
    ReadLost();
    LostProduct();
    var lit := Literal(LOST_WHOLE, "", Some(6120));
    assert lit.whole + lit.frac == LOST_WHOLE && LOST_WHOLE[..30] == LOST_WHOLE;
    assert Scanned(lit) == (LOST_COEF, 6120);
    ParseExactIff(LOST, Parse(LOST).value);
  }

  /** Without an E part nothing checks the exponent: a digit at the 6177th place
      after the point makes the exponent field wrap around, and a number comes
      back as something that is no number. */
  lemma UncheckedExponentWraps()
    ensures var s := "0." + (Zeros(6176) + "1");
      && Parse(s).Some? && ReadLiteral(s).Some?
      && !SameNumber(Interpret(Parse(s).value), false, LiteralValue(ReadLiteral(s).value))
  {
    hide ReadLiteral, Num, SameNumber, Pow10, LiteralValue, Interpret, Pack, Excess, Lower, Zeros;
    var s, frac := "0." + (Zeros(6176) + "1"), Zeros(6176) + "1";
    var lit := Literal("0", frac, None);
    ReadTiny();
    assert Scanned(lit) == (1, -6177);
    ParseExactIff(s, Parse(s).value);
  }

  lemma ReadTiny()
    ensures var (s, frac) := ("0." + (Zeros(6176) + "1"), Zeros(6176) + "1");
      var lit := Literal("0", frac, None);
      && AllDigits(frac) && ReadLiteral(s) == Some(lit) && |frac| == 6177
      && Excess("0" + frac) == 0 && Num(("0" + frac)[..|"0" + frac|]) == 1
  {
    hide ReadLiteral, LowDigits, Num, Lead;
    assert Digits(1) == "1" by { OneDigit(); }
    assert Plain("1", 6177) == "0." + (Zeros(6176) + "1");
    DecimalRoundTrip.ReadPlainNumber("1", 6177);
    DecimalRoundTrip.PaddedNumeral(6177, 1);
    ZerosCons(6176, "1");
    NumDigitsAtMost(1, 1);
    var ds := "0" + (Zeros(6176) + "1");
    assert ds == Zeros(6177) + "1" && ds[..|ds|] == ds;
  }

  lemma OneDigit()
    ensures Digits(1) == "1"
  {
    assert NumDigits(1) == 1;
  }

  /** Equal numbers differ by powers of ten that divide the larger coefficient. */
  lemma Align(a: nat, x: int, b: nat, y: int)
    requires Value(a, x) == Value(b, y) && x <= y
    ensures a == b * Pow10(y - x)
  {
    hide Value, Pow10;
    Shift(b, x, y - x);
    ValueInjective(a, b * Pow10(y - x), x);
  }

  lemma {:induction false} NumAtLeast(ds: string)
    requires AllDigits(ds) && Lead(ds) < |ds|
    ensures Num(ds) >= Pow10(|ds| - Lead(ds) - 1)
    decreases |ds|
  {
    var init := ds[..|ds| - 1];
    DecimalParse.LeadAppend(init, ds[|ds| - 1]);
    assert init + [ds[|ds| - 1]] == ds;
    if Lead(init) < |init| {
      NumAtLeast(init);
    }
  }

  /** A digit string divisible by 10^n ends in n zeros. */
  lemma DivisibleTail(ds: string, n: nat)
    requires AllDigits(ds) && n <= |ds| && Num(ds) % Pow10(n) == 0
    ensures forall i :: |ds| - n <= i < |ds| ==> ds[i] == '0'
  {
    hide Num, Pow10;
    var kept, tail := ds[..|ds| - n], ds[|ds| - n..];
    assert kept + tail == ds;
    NumConcat(kept, tail);
    NumBound(tail);
    DivModUnique(Num(ds), Pow10(n), Num(kept), Num(tail));
    NumZeros(tail);
    assert forall i :: |ds| - n <= i < |ds| ==> ds[i] == tail[i - (|ds| - n)];
  }

  lemma MultipleMod(q: nat, m: nat)
    requires m > 0
    ensures q * m % m == 0
  {
    DivModUnique(q * m, m, q, 0);
  }

  lemma PowerDivides(b: nat, j: nat, n: nat)
    requires n <= j
    ensures b * Pow10(j) % Pow10(n) == 0
  {
    hide Pow10;
    Pow10Add(j - n, n);
    MulAssoc(b, Pow10(j - n), Pow10(n));
    MultipleMod(b * Pow10(j - n), Pow10(n));
  }

  lemma LowerExponent(a: nat, x: int, b: nat, y: int)
    requires Value(a, x) == Value(b, y) && y <= x
    ensures b >= a
  {
    hide Value;
    Align(b, y, a, x);
    MulMonotone(1, Pow10(x - y), a);
  }

  /** A representable number never has a nonzero digit beyond the 34th. */
  lemma RepresentableDigits(ds: string, x: int, c: nat, e: int)
    requires AllDigits(ds) && c < Pow10(34) && Value(Num(ds), x) == Value(c, e)
    ensures ExactlyRounded(ds)
  {
    hide Pow10, Num, Value, Lead;
    var n := Excess(ds);
    if n > 0 {
      NumAtLeast(ds);
      Pow10Monotone(34, |ds| - Lead(ds) - 1);
      if e <= x {
        LowerExponent(Num(ds), x, c, e);
      }
      Align(Num(ds), x, c, e);
      if e - x < n {
        Pow10Monotone(e - x, n - 1);
        Pow10Add(34, n - 1);
        MulMonotone(c, Pow10(34), Pow10(e - x));
        MulMonotone(Pow10(e - x), Pow10(n - 1), Pow10(34));
        StrictMul(c, Pow10(34), Pow10(e - x));
        assert false;
      }
      PowerDivides(c, e - x, n);
      DivisibleTail(ds, n);
    }
  }

  lemma StrictMul(a: nat, b: nat, m: nat)
    requires a < b && m > 0
    ensures a * m < b * m
  {
    MulGap(a, b, m);
  }

  /** A representable number survives having its exponent folded into range. */
  lemma RepresentableFold(c: nat, e: int, c': nat, e': int)
    requires c' < Pow10(34) && -BIAS <= e' <= MAX_EXP && Value(c, e) == Value(c', e')
    ensures FoldExp(c, e).Some? && (e > MAX_EXP ==> c * Pow10(e - MAX_EXP) < P113)
  {
    hide Pow10, Value;
    TenTo34();
    if e < -BIAS {
      Align(c, e, c', e');
      PowerDivides(c', e' - e, -BIAS - e);
    } else if e > MAX_EXP {
      Align(c', e', c, e);
      Pow10Monotone(e - MAX_EXP, e - e');
      MulMonotone(Pow10(e - MAX_EXP), Pow10(e - e'), c);
      ClampFits(c, e);
    }
  }

  /** Every literal with a written exponent that denotes a decimal128 number is accepted, exactly. */
  lemma RepresentableAccepted(s: string, c: nat, e: int)
    requires ReadName(Unsign(s).0, Unsign(s).1) == None
    requires ReadLiteral(Unsign(s).1).Some? && ReadLiteral(Unsign(s).1).value.exp.Some?
    requires c < Pow10(34) && -BIAS <= e <= MAX_EXP
    requires LiteralValue(ReadLiteral(Unsign(s).1).value) == Value(c, e)
    ensures Parse(s).Some? && SameNumber(Interpret(Parse(s).value), Unsign(s).0, Value(c, e))
  {
    hide Value, Interpret, Pack, ReadLiteral, FoldExp, Excess, Num, SameNumber, Pow10, ExactlyRounded;
    var (neg, t) := Unsign(s);
    var lit := ReadLiteral(t).value;
    RepresentableDigits(lit.whole + lit.frac, lit.exp.value - |lit.frac|, c, e);
    KeptBound(lit.whole + lit.frac);
    ScannedValue(lit);
    RepresentableFold(Scanned(lit).0, Scanned(lit).1, c, e);
    CheckedExponent(neg, Scanned(lit).0, Scanned(lit).1);
  }
}
