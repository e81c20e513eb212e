/** The decimal strings the parser takes, written down as concatenations, and
    what sign, name and encoding each of them stands for. */
module DecimalSyntax {
  import opened Wrappers
  import opened Numerals
  import opened Words
  import opened DecimalFormat
  import opened DecimalLiteral
  import DecimalParse
  import DecimalRoundTrip
  import DecimalExact

  datatype Sign = Unwritten | Plus | Minus

  function SignText(sign: Sign): string {
    match sign
    case Unwritten => ""
    case Plus => "+"
    case Minus => "-"
  }

  /** An exponent as it is written. */
  datatype Exponent = Absent | Power(upper: bool, sign: Sign, digits: string)

  function ExponentText(x: Exponent): string {
    match x
    case Absent => ""
    case Power(upper, sign, digits) => (if upper then "E" else "e") + SignText(sign) + digits
  }

  predicate ExponentWellFormed(x: Exponent) {
    x.Power? ==> x.digits != "" && AllDigits(x.digits) && Num(x.digits[..|x.digits| - 1]) < 10_000
  }

  function ExponentValue(x: Exponent): Option<int>
    requires ExponentWellFormed(x)
  {
    match x
    case Absent => None
    case Power(_, sign, digits) =>
      var n: int := Num(digits);
      Some(if sign == Minus then -n else n)
  }

  /** An unsigned number as it is written. */
  datatype Numeral =
    | Integer(whole: string, exponent: Exponent)
    | Trailing(whole: string)
    | Pointed(whole: string, frac: string, exponent: Exponent)

  function NumeralText(n: Numeral): string {
    match n
    case Integer(whole, x) => whole + ExponentText(x)
    case Trailing(whole) => whole + "."
    case Pointed(whole, frac, x) => whole + "." + frac + ExponentText(x)
  }

  /** A point with digits behind it may not follow a number of 35 digits or
      more, and a point with none behind it ends the text. */
  predicate NumeralWellFormed(n: Numeral) {
    match n
    case Integer(whole, x) => whole != "" && AllDigits(whole) && ExponentWellFormed(x)
    case Trailing(whole) => whole != "" && AllDigits(whole)
    case Pointed(whole, frac, x) =>
      && AllDigits(whole) && frac != "" && AllDigits(frac) && ExponentWellFormed(x)
      && Num(whole) < 1_0000_00000_00000_00000_00000_00000_00000
  }

  /** The digits on both sides of the point and the exponent a numeral shows. */
  function Shown(n: Numeral): (lit: Literal)
    requires NumeralWellFormed(n)
    ensures lit.Valid()
  {
    match n
    case Integer(whole, x) => Literal(whole, "", ExponentValue(x))
    case Trailing(whole) => Literal(whole, "", None)
    case Pointed(whole, frac, x) => Literal(whole, frac, ExponentValue(x))
  }

  lemma ExponentRead(x: Exponent)
    requires ExponentWellFormed(x)
    ensures ReadExp(ExponentText(x)) == Some(ExponentValue(x))
    ensures ExponentText(x) == "" || (!IsDigit(ExponentText(x)[0]) && ExponentText(x)[0] != '.')
  {
    hide Num;
    if x.Power? {
      var text := ExponentText(x);
      if x.sign == Unwritten {
        assert text[1..] == x.digits;
      } else {
        assert text[2..] == x.digits;
      }
    }
  }

  /** Behind leading zeros at most 34 digits: a number below 10^34. */
  lemma NoExcessIff(ds: string)
    requires AllDigits(ds)
    ensures Excess(ds) == 0 <==> Num(ds) < 1_0000_00000_00000_00000_00000_00000_00000
  {
    hide Num, Lead, Pow10;
    TenTo34();
    NumBelowLead(ds);
    if |ds| - Lead(ds) > 34 {
      DecimalExact.NumAtLeast(ds);
      Pow10Monotone(34, |ds| - Lead(ds) - 1);
    } else {
      Pow10Monotone(|ds| - Lead(ds), 34);
    }
  }

  lemma TrailingRead(whole: string)
    requires whole != "" && AllDigits(whole)
    ensures ReadLiteral(whole + ".") == Some(Literal(whole, "", None))
  {
    hide Excess, WithExp;
    var t := whole + ".";
    assert t[..|whole|] == whole;
    DecimalParse.DigitRunIs(t, |whole|);
  }

  /** Every well-formed numeral is read as what it shows. */
  lemma NumeralRead(n: Numeral)
    requires NumeralWellFormed(n)
    ensures ReadLiteral(NumeralText(n)) == Some(Shown(n))
  {
    hide ReadLiteral, ReadExp, Num, Excess;
    match n
    case Integer(whole, x) =>
      ExponentRead(x);
      DecimalRoundTrip.ReadPlain(whole, ExponentText(x));
    case Trailing(whole) => TrailingRead(whole);
    case Pointed(whole, frac, x) =>
      ExponentRead(x);
      NoExcessIff(whole);
      DecimalRoundTrip.ReadPointed(whole, frac, ExponentText(x));
  }

  /** The exponent a text shows that the parser takes for one. */
  lemma ReadExponent(rest: string) returns (x: Exponent)
    requires ReadExp(rest).Some?
    ensures ExponentWellFormed(x) && ExponentText(x) == rest
  {
    hide Num;
    if rest == "" {
      x := Absent;
    } else {
      var sign := if rest[1] == '-' then Minus else if rest[1] == '+' then Plus else Unwritten;
      x := Power(rest[0] == 'E', sign, if sign == Unwritten then rest[1..] else rest[2..]);
    }
  }

  /** Nothing but well-formed numerals is read. */
  lemma ReadNumeral(t: string) returns (n: Numeral)
    requires ReadLiteral(t).Some?
    ensures NumeralWellFormed(n) && NumeralText(n) == t
  {
    hide ReadExp, DigitRun, Excess, Num, ExponentText, ExponentWellFormed;
    var k := DigitRun(t);
    if k < |t| && t[k] == '.' {
      if k + 1 == |t| {
        n := Trailing(t[..k]);
      } else {
        NoExcessIff(t[..k]);
        var u := t[k + 1..];
        var x := ReadExponent(u[DigitRun(u)..]);
        n := Pointed(t[..k], u[..DigitRun(u)], x);
        assert u[..DigitRun(u)] + u[DigitRun(u)..] == u;
        DigitFirst(u);
      }
    } else {
      var x := ReadExponent(t[k..]);
      n := Integer(t[..k], x);
    }
  }

  lemma DigitFirst(u: string)
    requires u != "" && IsDigit(u[0])
    ensures DigitRun(u) > 0
  {
  }

  /** A text is read as a literal if and only if it is a well-formed numeral that shows it. */
  lemma LiteralIff(t: string, lit: Literal)
    requires lit.Valid()
    ensures ReadLiteral(t) == Some(lit) <==>
      exists n :: NumeralWellFormed(n) && NumeralText(n) == t && Shown(n) == lit
  {
    hide ReadLiteral, NumeralWellFormed, NumeralText, Shown;
    if ReadLiteral(t) == Some(lit) {
      var n := ReadNumeral(t);
      NumeralRead(n);
    }
    if n :| NumeralWellFormed(n) && NumeralText(n) == t && Shown(n) == lit {
      NumeralRead(n);
    }
  }

  /** t is the lower-case word w, each letter in either case. */
  predicate SpelledAs(t: string, w: string) {
    |t| == |w| && forall i :: 0 <= i < |w| ==> t[i] == w[i] || t[i] as int + 32 == w[i] as int
  }

  predicate LowerCase(w: string) {
    forall i :: 0 <= i < |w| ==> 'a' <= w[i] <= 'z'
  }

  lemma LowerIff(t: string, w: string)
    requires LowerCase(w)
    ensures Lower(t) == w <==> SpelledAs(t, w)
  {
    if Lower(t) == w {
      assert forall i :: 0 <= i < |w| ==> Lower(t)[i] == w[i];
    }
    if SpelledAs(t, w) {
      assert forall i :: 0 <= i < |w| ==> Lower(t)[i] == w[i];
    }
  }

  /** A name is found if and only if the text spells one, in whatever case. */
  lemma NameIff(neg: bool, t: string)
    ensures ReadName(neg, t) == Some(Some(Decimal128(0x7C00_0000_0000_0000, 0))) <==> SpelledAs(t, "nan")
    ensures ReadName(neg, t) == Some(Some(Decimal128(if neg then 0xF800_0000_0000_0000 else 0x7800_0000_0000_0000, 0)))
      <==> SpelledAs(t, "inf") || SpelledAs(t, "infinity")
    ensures ReadName(neg, t).Some? && ReadName(neg, t).value.Some? ==>
      SpelledAs(t, "nan") || SpelledAs(t, "inf") || SpelledAs(t, "infinity")
  {
    hide Lower;
    LowerIff(t, "nan");
    LowerIff(t, "inf");
    LowerIff(t, "infinity");
    if SpelledAs(t, "nan") || SpelledAs(t, "inf") || SpelledAs(t, "infinity") {
      assert t[0] == 'N' || t[0] == 'n' || t[0] == 'I' || t[0] == 'i';
    }
  }

  predicate SignFree(t: string) {
    t == "" || (t[0] != '+' && t[0] != '-')
  }

  lemma SignTaken(sign: Sign, t: string)
    requires sign == Unwritten ==> SignFree(t)
    ensures Unsign(SignText(sign) + t) == (sign == Minus, t)
  {
    var s := SignText(sign) + t;
    if sign == Unwritten {
      assert s == t;
    } else {
      assert s[1..] == t;
    }
  }

  /** A plus sign changes nothing. */
  lemma PlusIgnored(t: string)
    requires SignFree(t)
    ensures Parse("+" + t) == Parse(t)
  {
    hide ReadName, ParseUnsigned;
    SignTaken(Plus, t);
  }

  /** The same number with the sign bit set. */
  function Negated(d: Decimal128): Decimal128
    requires d.h < 0x8000_0000_0000_0000
  {
    Decimal128(d.h + 0x8000_0000_0000_0000, d.l)
  }

  lemma PackSign(c: nat, e: int)
    requires c < P113
    ensures Pack(false, c, e).h < 0x8000_0000_0000_0000
    ensures Pack(true, c, e) == Negated(Pack(false, c, e))
  {
  }

  /** A minus sign sets the sign bit and changes nothing else, except that a NaN has no sign. */
  lemma MinusNegates(t: string)
    requires SignFree(t)
    ensures Parse("-" + t).Some? <==> Parse(t).Some?
    ensures Parse(t).Some? ==> Parse(t).value.h < 0x8000_0000_0000_0000
    ensures Parse(t).Some? ==> Parse("-" + t).value == if SpelledAs(t, "nan") then Parse(t).value else Negated(Parse(t).value)
  {
    hide Pack, ReadLiteral, Fit, Lower;
    SignTaken(Minus, t);
    LowerIff(t, "nan");
    if ReadName(false, t).None? && ReadLiteral(t).Some? && Fit(ReadLiteral(t).value).Some? {
      FitBound(ReadLiteral(t).value);
      var (c, e) := Fit(ReadLiteral(t).value).value;
      PackSign(c, e);
      NumeralUnnamed(t);
    }
  }

  lemma NumeralUnnamed(t: string)
    requires ReadName(false, t).None?
    ensures !SpelledAs(t, "nan")
  {
    NameIff(false, t);
  }

  /** Whatever is no NaN is negative if and only if its text begins with a minus sign. */
  lemma SignIff(s: string)
    requires Parse(s).Some? && Interpret(Parse(s).value) != NaN
    ensures s != "" && (Interpret(Parse(s).value).neg <==> s[0] == '-')
  {
    hide Pack, ReadLiteral, Fit, ReadName;
    var (neg, t) := Unsign(s);
    if ReadName(neg, t).Some? {
      NamedSign(neg, t);
    } else {
      var lit := ReadLiteral(t).value;
      FitBound(lit);
      var (c, e) := Fit(lit).value;
      DecimalRoundTrip.CoefficientFits(c);
      PackedSign(neg, c, e);
    }
    EmptyRejected();
  }

  lemma EmptyRejected()
    ensures Parse("").None?
  {
  }

  lemma NamedSign(neg: bool, t: string)
    requires ReadName(neg, t).Some? && ReadName(neg, t).value.Some?
    ensures var m := Interpret(ReadName(neg, t).value.value); m == NaN || m == Inf(neg)
  {
    hide Lower;
  }

  lemma PackedSign(neg: bool, c: nat, e: int)
    requires c < P113
    ensures var m := Interpret(Pack(neg, c, e)); m == NaN || m.neg == neg
  {
    DecimalRoundTrip.CoefficientFits(c);
    DecimalRoundTrip.Fields(neg, (e + BIAS) % EXP_MASK, c / W64);
  }

  /** A string is accepted only if it is a name or a well-formed numeral behind at most one sign. */
  lemma AcceptedForm(s: string) returns (sign: Sign, t: string)
    requires Parse(s).Some?
    ensures s == SignText(sign) + t
    ensures SpelledAs(t, "nan") || SpelledAs(t, "inf") || SpelledAs(t, "infinity")
      || exists n :: NumeralWellFormed(n) && NumeralText(n) == t
  {
    hide ReadName, ReadLiteral, Fit, NumeralWellFormed, NumeralText;
    t := Unsign(s).1;
    sign := if s == "" then Unwritten else if s[0] == '-' then Minus else if s[0] == '+' then Plus else Unwritten;
    NameIff(Unsign(s).0, t);
    if ReadName(Unsign(s).0, t).None? {
      var n := ReadNumeral(t);
    }
  }

  lemma NumeralStart(n: Numeral)
    requires NumeralWellFormed(n)
    ensures NumeralText(n) != "" && (IsDigit(NumeralText(n)[0]) || NumeralText(n)[0] == '.')
  {
    hide Num, ExponentText, ExponentWellFormed;
  }

  /** A signed numeral parses to what its literal fits into, with the sign written in front of it. */
  lemma SignedNumeral(sign: Sign, n: Numeral)
    requires NumeralWellFormed(n)
    ensures var fit := Fit(Shown(n));
      && (fit.Some? ==> fit.value.0 < P113)
      && Parse(SignText(sign) + NumeralText(n)) == if fit.None? then None else Some(Pack(sign == Minus, fit.value.0, fit.value.1))
  {
    hide ReadLiteral, NumeralText, NumeralWellFormed, Shown, Fit, Pack, Lower, IsDigit;
    NumeralStart(n);
    NumeralRead(n);
    FitBound(Shown(n));
    DigitsAreNoLetters();
    SignTaken(sign, NumeralText(n));
  }

  lemma DigitsAreNoLetters()
    ensures forall c :: IsDigit(c) ==> c != '+' && c != '-' && c != 'N' && c != 'n' && c != 'I' && c != 'i'
  {
  }

  predicate TimesPower(v: nat, c: nat, k: nat) {
    v == c * Pow10(k)
  }

  /** At most 34 digits, and zeros behind them. */
  ghost predicate Rounded(v: nat) {
    exists c: nat, k: nat :: c < 1_0000_00000_00000_00000_00000_00000_00000 && TimesPower(v, c, k)
  }

  /** Exactly such numbers are rounded without loss. */
  lemma ExactlyRoundedIff(ds: string)
    requires AllDigits(ds)
    ensures ExactlyRounded(ds) <==> Rounded(Num(ds))
    ensures ExactlyRounded(ds) ==> Num(ds) == Num(ds[..|ds| - Excess(ds)]) * Pow10(Excess(ds))
  {
    hide Num, Pow10, Excess;
    TenTo34();
    if ExactlyRounded(ds) {
      var c, k := Num(ds[..|ds| - Excess(ds)]), Excess(ds);
      KeptBound(ds);
      DecimalExact.KeptValue(ds, 0);
      DecimalExact.Shift(c, 0, k);
      DecimalExact.ValueInjective(c * Pow10(k), Num(ds), 0);
      assert TimesPower(Num(ds), c, k);
    }
    if c: nat, k: nat :| c < 1_0000_00000_00000_00000_00000_00000_00000 && TimesPower(Num(ds), c, k) {
      DecimalExact.Shift(c, 0, k);
      DecimalExact.RepresentableDigits(ds, 0, c, k);
    }
  }

  /** Dividing out a power of ten before or after taking zeros off. */
  lemma DivisibleShift(c: nat, k: nat, n: nat)
    ensures n <= k ==> c * Pow10(k) % Pow10(n) == 0
    ensures n > k ==> (c * Pow10(k) % Pow10(n) == 0 <==> c % Pow10(n - k) == 0)
  {
    hide Pow10;
    if n <= k {
      DecimalExact.PowerDivides(c, k, n);
    } else {
      var (p, m) := (Pow10(k), Pow10(n - k));
      Pow10Add(n - k, k);
      DivModDefinition(c, m);
      var (q, r) := (c / m, c % m);
      Distribute(q, m, r, p);
      MulMonotone(0, r, p);
      DecimalExact.StrictMul(r, m, p);
      DivModUnique(c * p, m * p, q, r * p);
    }
  }

  lemma Distribute(q: nat, m: nat, r: nat, p: nat)
    ensures (q * m + r) * p == q * (m * p) + r * p
    ensures p > 0 ==> (r * p == 0 <==> r == 0)
  {
  }

  /** The power of ten that belongs to the last digit shown. */
  function LastPlace(lit: Literal): int {
    (if lit.exp.Some? then lit.exp.value else 0) - |lit.frac|
  }

  /** A number of at most 34 digits and an exponent in range are stored as they are written. */
  lemma StoredAsWritten(sign: Sign, n: Numeral)
    requires NumeralWellFormed(n)
    requires var lit := Shown(n); Num(lit.whole + lit.frac) < 1_0000_00000_00000_00000_00000_00000_00000
    requires -6176 <= LastPlace(Shown(n)) <= 6111
    ensures var (s, lit) := (SignText(sign) + NumeralText(n), Shown(n));
      Parse(s).Some? && Interpret(Parse(s).value) == Finite(sign == Minus, Num(lit.whole + lit.frac), LastPlace(lit))
  {
    hide Num, Excess, NumeralText, NumeralWellFormed, Shown, Pack, Interpret, Parse;
    var lit := Shown(n);
    var ds := lit.whole + lit.frac;
    NoExcessIff(ds);
    assert ds[..|ds|] == ds;
    SignedNumeral(sign, n);
    FitBound(lit);
    DecimalRoundTrip.InterpretPack(sign == Minus, Num(ds), LastPlace(lit));
  }

  /** Up to the greatest exponent, a number is accepted if and only if it is at
      most 34 digits and zeros, and has only zeros below the least exponent.
      Without a written exponent the least exponent is not looked at. */
  lemma AcceptedIff(sign: Sign, n: Numeral)
    requires NumeralWellFormed(n)
    requires Shown(n).exp.Some? ==> LastPlace(Shown(n)) + Excess(Shown(n).whole + Shown(n).frac) <= 6111
    ensures var lit := Shown(n);
      var v := Num(lit.whole + lit.frac);
      Parse(SignText(sign) + NumeralText(n)).Some? <==>
        Rounded(v) && (lit.exp.Some? && LastPlace(lit) < -6176 ==> v % Pow10(-6176 - LastPlace(lit)) == 0)
  {
    hide Num, Excess, Pow10, NumeralText, NumeralWellFormed, Shown, Pack, Parse, ExactlyRounded, Rounded;
    var lit := Shown(n);
    var ds := lit.whole + lit.frac;
    SignedNumeral(sign, n);
    ExactlyRoundedIff(ds);
    if ExactlyRounded(ds) && lit.exp.Some? && LastPlace(lit) < -6176 {
      DivisibleShift(Num(ds[..|ds| - Excess(ds)]), Excess(ds), -6176 - LastPlace(lit));
    }
  }

  /** The 128 bits of an ordinary number: sign, 14 bits of exponent and 113 of
      coefficient, unless the exponent begins with two ones. */
  lemma OrdinaryBits(neg: bool, f: nat, m: nat, l: u64)
    requires f < 0x3000 && m < 0x2_0000_0000_0000
    ensures var h := (if neg then 0x8000_0000_0000_0000 else 0) + f * 0x2_0000_0000_0000 + m;
      h < W64 && Interpret(Decimal128(h, l)) == Finite(neg, m * 0x1_0000_0000_0000_0000 + l, f - 6176)
  {
    DecimalRoundTrip.Fields(neg, f, m);
  }

  /** The words of a numeral of at most 34 digits within the range of exponents. */
  lemma StoredWords(sign: Sign, n: Numeral, c: nat, e: int)
    requires NumeralWellFormed(n) && c < 1_0000_00000_00000_00000_00000_00000_00000 && -6176 <= e <= 6111
    requires Num(Shown(n).whole + Shown(n).frac) == c && LastPlace(Shown(n)) == e
    ensures c < P113 && Parse(SignText(sign) + NumeralText(n)) == Some(Pack(sign == Minus, c, e))
  {
    hide Num, Excess, NumeralText, NumeralWellFormed, Shown, Pack, Parse;
    var lit := Shown(n);
    var ds := lit.whole + lit.frac;
    TenTo34();
    NoExcessIff(ds);
    assert ds[..|ds|] == ds;
    SignedNumeral(sign, n);
  }

  lemma OnePlace(d: char)
    requires IsDigit(d)
    ensures AllDigits([d]) && Num([d]) == DigitValue(d)
    ensures ExponentWellFormed(Power(true, Plus, [d])) && ExponentWellFormed(Power(false, Minus, [d]))
  {
    NumDigit(d);
    assert [d][..0] == "";
  }

  lemma ThreePlaces(a: char, b: char, c: char)
    requires IsDigit(a) && IsDigit(b) && IsDigit(c)
    ensures AllDigits([a, b]) && Num([a, b]) == 10 * DigitValue(a) + DigitValue(b)
    ensures AllDigits([a, b, c]) && Num([a, b, c]) == 100 * DigitValue(a) + 10 * DigitValue(b) + DigitValue(c)
  {
    hide Num, DigitValue;
    OnePlace(a);
    NumAppendDigit([a], b);
    NumAppendDigit([a, b], c);
    assert [a] + [b] == [a, b] && [a, b] + [c] == [a, b, c];
  }

  /** A few texts with the words they become. */
  lemma OneWords()
    ensures Parse("1") == Some(Decimal128(0x3040_0000_0000_0000, 1))
  {
    hide Parse, Num;
    OnePlace('1');
    assert "1" + "" == "1" && "" + "1" == "1";
    StoredWords(Unwritten, Integer("1", Absent), 1, 0);
  }

  lemma PointedWords()
    ensures Parse("+12.5E+3") == Some(Decimal128(0x3044_0000_0000_0000, 125))
  {
    hide Parse, Num;
    OnePlace('3');
    ThreePlaces('1', '2', '5');
    var n := Pointed("12", "5", Power(true, Plus, "3"));
    assert "12" + "5" == "125" && "+" + NumeralText(n) == "+12.5E+3";
    StoredWords(Plus, n, 125, 2);
  }

  lemma SmallWords()
    ensures Parse("-.007e-2") == Some(Decimal128(0xB036_0000_0000_0000, 7))
  {
    hide Parse, Num;
    OnePlace('2');
    ThreePlaces('0', '0', '7');
    EmptyNumber();
    var n := Pointed("", "007", Power(false, Minus, "2"));
    assert "" + "007" == "007" && "-" + NumeralText(n) == "-.007e-2";
    StoredWords(Minus, n, 7, -5);
  }

  lemma EmptyNumber()
    ensures Num("") == 0
  {
  }

  /** The second form, whose coefficient is out of range and counts as zero. */
  lemma SecondFormBits(neg: bool, f: nat, m: nat, l: u64)
    requires f < 0x3000 && m < 0x8000_0000_0000
    ensures var h := (if neg then 0x8000_0000_0000_0000 else 0) + 0x6000_0000_0000_0000 + f * 0x8000_0000_0000 + m;
      h < W64 && Interpret(Decimal128(h, l)) == Finite(neg, 0, f - 6176)
  {
  }

  /** Infinities and NaNs. */
  lemma SpecialBits(neg: bool, m: nat, l: u64)
    requires m < 0x400_0000_0000_0000
    ensures var h := (if neg then 0x8000_0000_0000_0000 else 0) + 0x7800_0000_0000_0000 + m;
      h < W64 && Interpret(Decimal128(h, l)) == Inf(neg)
    ensures var h := (if neg then 0x8000_0000_0000_0000 else 0) + 0x7C00_0000_0000_0000 + m;
      h < W64 && Interpret(Decimal128(h, l)) == NaN
  {
  }
}
