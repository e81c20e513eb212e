/** Printing and parsing again: exactly which decimal128 values survive. */
module DecimalRoundTrip {
  import opened Wrappers
  import opened Numerals
  import opened Words
  import opened DecimalFormat
  import opened DecimalLiteral
  import DecimalParse
  import DecimalPrint

  /** Sign, exponent field and coefficient can be read back from the packed high word. */
  lemma Fields(neg: bool, f: nat, m: nat)
    requires f < EXP_MASK && m < P49
    ensures var h := m + f * P49 + (if neg then P63 else 0);
      && h < W64 && h / P63 % 2 == (if neg then 1 else 0) && h / P58 % 32 == f / 512
      && h / P61 % 4 == f / 4096 && h / P49 % EXP_MASK == f && h % P49 == m
  {
  }

  /** Every high word is made of those fields. */
  lemma Unpack(h: u64)
    ensures h == h % P49 + h / P49 % EXP_MASK * P49 + (if h / P63 % 2 == 1 then P63 else 0)
  {
  }

  /** A packed value in the ordinary encoding means what went into it. */
  lemma InterpretPack(neg: bool, c: nat, e: int)
    requires c < P113 && -BIAS <= e <= MAX_EXP
    ensures Interpret(Pack(neg, c, e)) == Finite(neg, c, e)
    ensures Pack(neg, c, e).h / P61 % 4 != 3
  {
    var m := c / W64;
    CoefficientFits(c);
    Fields(neg, e + BIAS, m);
    assert (e + BIAS) % EXP_MASK == e + BIAS;
    assert (e + BIAS) / 512 < 30;
  }

  lemma CoefficientFits(c: nat)
    requires c < P113
    ensures c / W64 < P49 && Wide(c / W64, c % W64) == c
  {
  }

  /** A value in the ordinary encoding is the packing of its own meaning. */
  lemma PackInterpret(d: Decimal128)
    requires Interpret(d).Finite? && d.h / P61 % 4 != 3
    ensures Interpret(d).coef < P113 && -BIAS <= Interpret(d).exp <= MAX_EXP
    ensures Pack(Interpret(d).neg, Interpret(d).coef, Interpret(d).exp) == d
  {
    Unpack(d.h);
    Fields(d.h / P63 % 2 == 1, d.h / P49 % EXP_MASK, d.h % P49);
    DivModUnique(Wide(d.h % P49, d.l), W64, d.h % P49, d.l);
  }

  /** The literal that the printed form of a coefficient and exponent reads back as. */
  function LiteralOf(c: nat, e: int): (lit: Literal)
    ensures lit.Valid()
  {
    var ds := Digits(c);
    var adj := e + |ds| - 1;
    if e == 0 then Literal(ds, "", None)
    else if e > 0 || adj < -6 then Literal(ds[..1], ds[1..], Some(adj))
    else if |ds| > -e then Literal(ds[..|ds| + e], ds[|ds| + e..], None)
    else Literal("0", Zeros(-e - |ds|) + ds, None)
  }

  lemma {:induction false} LeadZeros(z: nat, ds: string)
    requires ds != "" && ds[0] != '0'
    ensures Lead(Zeros(z) + ds) == z
  {
    if z > 0 {
      LeadZeros(z - 1, ds);
      ZerosCons(z - 1, ds);
      assert (Zeros(z) + ds)[1..] == Zeros(z - 1) + ds;
    } else {
      assert Zeros(0) + ds == ds;
    }
  }

  /** Zeros in front of a numeral neither change its value nor count as significant. */
  lemma PaddedNumeral(z: nat, c: nat)
    ensures var ds := Zeros(z) + Digits(c);
      Num(ds) == c && Excess(ds) == if NumDigits(c) > 34 then NumDigits(c) - 34 else 0
  {
    hide LowDigits, Num, Pow10;
    NumZeros(Zeros(z));
    NumConcat(Zeros(z), Digits(c));
    NumOfDigits(c);
    LeadingDigit(c);
    var ds := Zeros(z) + Digits(c);
    if c > 0 {
      LeadZeros(z, Digits(c));
    } else {
      NumDigitsAtMost(0, 1);
      assert forall i :: 0 <= i < |ds| ==> ds[i] == '0';
    }
  }

  /** How many zeros the literal of a printed number has in front of its numeral. */
  function PadOf(c: nat, e: int): nat {
    var n := NumDigits(c);
    if e < 0 && e + n - 1 >= -6 && n <= -e then 1 - e - n else 0
  }

  lemma PaddedLiteral(c: nat, e: int)
    ensures LiteralOf(c, e).whole + LiteralOf(c, e).frac == Zeros(PadOf(c, e)) + Digits(c)
  {
    hide LowDigits;
    var ds := Digits(c);
    assert Zeros(0) + ds == ds && ds + "" == ds;
    if 0 < PadOf(c, e) {
      ZerosCons(-e - |ds|, ds);
    }
  }

  lemma ReadPlain(whole: string, rest: string)
    requires whole != "" && AllDigits(whole) && (rest == "" || (!IsDigit(rest[0]) && rest[0] != '.'))
    ensures ReadLiteral(whole + rest) == WithExp(whole, "", rest)
  {
    hide WithExp, ReadLiteral;
    var t := whole + rest;
    assert t[..|whole|] == whole && t[|whole|..] == rest;
    DecimalParse.ReadInteger(t, |whole|);
  }

  lemma ReadPointed(whole: string, frac: string, rest: string)
    requires AllDigits(whole) && frac != "" && AllDigits(frac) && Excess(whole) == 0
    requires rest == "" || !IsDigit(rest[0])
    ensures ReadLiteral(whole + "." + frac + rest) == WithExp(whole, frac, rest)
  {
    hide WithExp, ReadLiteral, Excess;
    var t := whole + "." + frac + rest;
    var dot := |whole| + 1;
    assert t[..dot - 1] == whole && t[dot..dot + |frac|] == frac && t[dot + |frac|..] == rest;
    DecimalParse.ReadFraction(t, dot + |frac|, dot);
  }

  lemma ReadExpPart(adj: int)
    requires -99_999 <= adj <= 99_999
    ensures ReadExp(ExpPart(adj)) == Some(if adj == 0 then None else Some(adj))
  {
    hide Digits, NumDigits, Pow10, Num, AllDigits;
    if adj != 0 {
      var a: nat := if adj > 0 then adj else -adj;
      var xs := Digits(a);
      NumOfDigits(a);
      FiveDigits(a);
      assert ExpPart(adj)[2..] == xs;
    }
  }

  lemma FiveDigits(a: nat)
    requires a < 100_000
    ensures AllDigits(Digits(a)) && AllDigits(Digits(a)[..|Digits(a)| - 1]) && Num(Digits(a)[..|Digits(a)| - 1]) < 10_000
  {
    hide Digits, LowDigits;
    assert Pow10(4) == 10_000;
    NumDigitsAtMost(a, 5);
    var init := Digits(a)[..|Digits(a)| - 1];
    NumBound(init);
    Pow10Monotone(|init|, 4);
  }

  lemma ShortWhole(ds: string)
    requires |ds| <= 34
    ensures Excess(ds) == 0
  {
  }

  lemma ReadScientific(ds: string, adj: int)
    requires ds != "" && AllDigits(ds) && -99_999 <= adj <= 99_999 && adj != 0
    ensures ReadLiteral(Scientific(ds) + ExpPart(adj)) == Some(Literal(ds[..1], ds[1..], Some(adj)))
  {
    hide Excess, ReadLiteral, ReadExp, ExpPart;
    ReadExpPart(adj);
    ExpPartHead(adj);
    if |ds| > 1 {
      ShortWhole([ds[0]]);
      assert ds[..1] == [ds[0]];
      ReadPointed([ds[0]], ds[1..], ExpPart(adj));
    } else {
      assert ds[..1] == ds && ds[1..] == "";
      ReadPlain(ds, ExpPart(adj));
    }
  }

  lemma ReadPlainNumber(ds: string, p: nat)
    requires 1 <= |ds| <= 35 && AllDigits(ds) && p > 0
    ensures ReadLiteral(Plain(ds, p)) == Some(if |ds| > p then Literal(ds[..|ds| - p], ds[|ds| - p..], None)
                                              else Literal("0", Zeros(p - |ds|) + ds, None))
  {
    hide Excess, ReadLiteral;
    var u := Plain(ds, p);
    assert u + "" == u;
    if |ds| > p {
      ShortWhole(ds[..|ds| - p]);
      ReadPointed(ds[..|ds| - p], ds[|ds| - p..], "");
    } else {
      ShortWhole("0");
      assert u == "0" + "." + (Zeros(p - |ds|) + ds);
      ReadPointed("0", Zeros(p - |ds|) + ds, "");
    }
  }

  /** The parser reads the printed form as the literal it was printed from. */
  lemma ReadUnsigned(c: nat, e: int)
    requires NumDigits(c) <= 35 && -90_000 <= e <= 90_000
    ensures ReadLiteral(Unsigned(c, e)) == Some(LiteralOf(c, e))
    ensures Unsigned(c, e) != "" && IsDigit(Unsigned(c, e)[0])
  {
    hide LowDigits, Digits, Excess, ReadLiteral, NumDigits;
    var ds := Digits(c);
    var adj := e + |ds| - 1;
    if e == 0 {
      assert ds + "" == ds;
      ReadPlain(ds, "");
    } else if e > 0 || adj < -6 {
      ReadScientific(ds, adj);
    } else {
      ReadPlainNumber(ds, -e);
    }
  }

  lemma ExpPartHead(adj: int)
    ensures ExpPart(adj) == "" || ExpPart(adj)[0] == 'E'
  {
  }

  lemma ClampInRange(c: nat, e: int)
    requires -BIAS <= e <= MAX_EXP
    ensures FoldExp(c, e) == Some((c, e))
  {
  }

  /** Up to 34 digits are all kept. */
  lemma FitShort(c: nat, e: int)
    requires NumDigits(c) <= 34
    ensures var lit := LiteralOf(c, e);
      Fit(lit) == if lit.exp.Some? then FoldExp(c, e) else Some((c, e))
  {
    hide LowDigits, Digits, FoldExp, Num, Lead, Pow10, NumDigits, Excess;
    PaddedLiteral(c, e);
    PaddedNumeral(PadOf(c, e), c);
    var ds := Zeros(PadOf(c, e)) + Digits(c);
    assert ds[..|ds|] == ds;
  }

  /** The last digit of 35 must be a zero, and raises the exponent. */
  lemma FitLong(c: nat, e: int)
    requires NumDigits(c) == 35
    ensures var lit := LiteralOf(c, e);
      Fit(lit) == if c % 10 != 0 then None
                  else if lit.exp.Some? then FoldExp(c / 10, e + 1)
                  else Some((c / 10, e + 1))
  {
    hide FoldExp, Num, Lead, Pow10, NumDigits, LowDigits, Excess;
    PaddedLiteral(c, e);
    PaddedNumeral(PadOf(c, e), c);
    var z := PadOf(c, e);
    var ds := Zeros(z) + Digits(c);
    LastOfNumeral(z, c);
  }

  lemma LastOfNumeral(z: nat, c: nat)
    ensures var ds := Zeros(z) + Digits(c);
      && Num(ds[..|ds| - 1]) == c / 10
      && (ds[|ds| - 1] == '0' <==> c % 10 == 0)
  {
    hide Excess, LowDigits, Digits, Pow10, NumDigits;
    PaddedNumeral(z, c);
    var ds := Zeros(z) + Digits(c);
    assert Num(ds) == 10 * Num(ds[..|ds| - 1]) + DigitValue(ds[|ds| - 1]);
  }

  /** The sign is read back and a number is never taken for a name. */
  lemma ParseFormat(neg: bool, c: nat, e: int)
    requires NumDigits(c) <= 35 && -90_000 <= e <= 90_000
    ensures Parse(Format(Finite(neg, c, e))) == ParseUnsigned(neg, Unsigned(c, e))
  {
    hide Unsigned, ParseUnsigned, NumDigits, Lower, ReadLiteral, LiteralOf;
    ReadUnsigned(c, e);
    var u := Unsigned(c, e);
    assert ("-" + u)[1..] == u && "" + u == u;
  }

  lemma {:induction false} ClampZero(e: int)
    requires e > MAX_EXP
    ensures Clamp(0, e) == Some((0, MAX_EXP))
    decreases e
  {
    var k := if e - MAX_EXP < 9 then e - MAX_EXP else 9;
    assert 0 * Pow10(k) % W128 == 0;
    if e - k > MAX_EXP {
      ClampZero(e - k);
    }
  }

  /** Printed numbers with at most 34 digits parse to the ordinary encoding of the same number. */
  lemma ParseShort(neg: bool, c: nat, e: int)
    requires NumDigits(c) <= 34 && c < P113 && -BIAS <= e <= MAX_EXP
    ensures Parse(Format(Finite(neg, c, e))) == Some(Pack(neg, c, e))
  {
    hide Unsigned, NumDigits, ReadLiteral, Fit, FoldExp, LiteralOf, Pack, Parse, Format;
    ParseFormat(neg, c, e);
    ReadUnsigned(c, e);
    FitShort(c, e);
    ClampInRange(c, e);
  }

  /** Printed numbers with 35 digits lose their last digit to the exponent, and
      get it back only when the exponent would leave its range. */
  lemma ParseLong(neg: bool, c: nat, e: int)
    requires NumDigits(c) == 35 && c < P113 && -BIAS <= e <= MAX_EXP
    ensures Parse(Format(Finite(neg, c, e))) ==
      if c % 10 != 0 then None
      else if e == MAX_EXP then Some(Pack(neg, c, e))
      else Some(Pack(neg, c / 10, e + 1))
  {
    hide Unsigned, NumDigits, ReadLiteral, Fit, Pack, Parse, Format;
    ParseFormat(neg, c, e);
    ReadUnsigned(c, e);
    FitLong(c, e);
    assert Pow10(1) == 10;
    if c % 10 == 0 && e == MAX_EXP {
      assert c / 10 * 10 % W128 == c;
      assert Clamp(c / 10, e + 1) == Clamp(c, e);
    }
  }

  /** The values that survive printing and parsing bit for bit: the canonical
      NaN and infinities, and finite values in the ordinary encoding whose
      coefficient is below 10^34 (or is a 35-digit multiple of ten at the
      greatest exponent). */
  predicate Canonical(d: Decimal128) {
    match Interpret(d)
    case NaN => d == NAN
    case Inf(neg) => d == Decimal128((if neg then P63 else 0) + 0x1E * P58, 0)
    case Finite(neg, c, e) => d.h / P61 % 4 != 3 && (c < Pow10(34) || (c % 10 == 0 && e == MAX_EXP))
  }

  lemma RoundTripOrdinary(d: Decimal128)
    requires Interpret(d).Finite? && d.h / P61 % 4 != 3
    ensures Parse(Format(Interpret(d))) == Some(d) <==> Canonical(d)
  {
    hide Parse, Format, Interpret, Pack, NumDigits, Pow10;
    PackInterpret(d);
    var Finite(neg, c, e) := Interpret(d);
    TenTo34();
    NumDigitsAtMost(c, 34);
    NumDigitsAtMost(c, 35);
    if NumDigits(c) <= 34 {
      ParseShort(neg, c, e);
    } else {
      ParseLong(neg, c, e);
      if c % 10 == 0 && e < MAX_EXP {
        InterpretPack(neg, c / 10, e + 1);
      }
    }
  }

  lemma RoundTripWideForm(d: Decimal128)
    requires Interpret(d).Finite? && d.h / P61 % 4 == 3
    ensures Parse(Format(Interpret(d))) != Some(d)
  {
    hide Parse, Format, Pack, NumDigits, Fit, ReadLiteral, Unsigned;
    var Finite(neg, c, e) := Interpret(d);
    assert c == 0;
    NumDigitsAtMost(0, 1);
    var e' := if e > MAX_EXP then MAX_EXP else e;
    if e > MAX_EXP {
      ParseFormat(neg, 0, e);
      ReadUnsigned(0, e);
      FitShort(0, e);
      ClampZero(e);
    } else {
      ParseShort(neg, 0, e);
    }
    assert Parse(Format(Interpret(d))) == Some(Pack(neg, 0, e'));
    InterpretPack(neg, 0, e');
  }

  lemma ParseNames()
    ensures Parse("NaN") == Some(NAN)
    ensures Parse("Inf") == Some(Decimal128(0x1E * P58, 0))
    ensures Parse("-Inf") == Some(Decimal128(P63 + 0x1E * P58, 0))
  {
    assert Lower("NaN") == "nan" && Lower("Inf") == "inf";
    assert "-Inf"[1..] == "Inf";
  }

  /** Parsing the printed form gives back the same two words exactly for canonical values. */
  lemma RoundTrip(d: Decimal128)
    ensures Parse(Format(Interpret(d))) == Some(d) <==> Canonical(d)
  {
    ParseNames();
    hide Parse;
    match Interpret(d)
    case NaN =>
    case Inf(neg) =>
    case Finite(neg, c, e) =>
      if d.h / P61 % 4 == 3 {
        RoundTripWideForm(d);
      } else {
        RoundTripOrdinary(d);
      }
  }

  /** The printer and the parser, run one after the other. */
  method PrintThenParse(d: Decimal128) returns (r: Option<Decimal128>)
    ensures r == Some(d) <==> Canonical(d)
  {
    hide Parse, Format, Canonical;
    var s := DecimalPrint.ToString(d);
    r := DecimalParse.ParseDecimal128(s);
    RoundTrip(d);
  }
}
