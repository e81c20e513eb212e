/** The notation of printed decimals, said as a relation between text and number. */
module DecimalNotation {
  import opened Numerals
  import opened Words
  import opened DecimalFormat
  import DecimalExact
  import DecimalPrint

  /** ds is the ordinary numeral of c. */
  predicate Denotes(ds: string, c: nat) {
    ds != "" && AllDigits(ds) && Num(ds) == c && (|ds| == 1 || ds[0] != '0')
  }

  /** c with its last -e digits behind a point, or without a point. */
  predicate PlainForm(t: string, whole: string, frac: string, c: nat, e: int) {
    && t == (if e == 0 then whole else whole + "." + frac)
    && |frac| == -e && AllDigits(frac) && whole != "" && AllDigits(whole)
    && (|whole| == 1 || whole[0] != '0')
    && Num(whole + frac) == c
  }

  /** One digit, the others behind a point, and the power of ten of the first digit with its sign. */
  predicate ScientificForm(t: string, first: char, rest: string, power: string, c: nat, e: int) {
    var x := e + |rest|;
    && t == [first] + (if rest == "" then "" else "." + rest) + "E" + (if x < 0 then "-" else "+") + power
    && Denotes([first] + rest, c) && Denotes(power, if x < 0 then -x else x)
  }

  /** t shows c * 10^e: plainly if the exponent is not positive and the first of
      the n digits is at the sixth place behind the point or before, and
      scientifically otherwise. */
  ghost predicate Shows(t: string, n: nat, c: nat, e: int) {
    if e <= 0 && e + n - 1 >= -6 then exists whole, frac :: PlainForm(t, whole, frac, c, e)
    else exists first, rest, power :: ScientificForm(t, first, rest, power, c, e)
  }

  /** What a printed value looks like. */
  ghost predicate Printed(t: string, m: Meaning) {
    match m
    case NaN => t == "NaN"
    case Inf(neg) => t == if neg then "-Inf" else "Inf"
    case Finite(neg, c, e) =>
      exists ds, u :: Denotes(ds, c) && Shows(u, |ds|, c, e) && t == (if neg then "-" else "") + u
  }

  lemma DigitsDenote(c: nat)
    ensures Denotes(Digits(c), c)
  {
    hide Num, LowDigits;
    NumOfDigits(c);
    LeadingDigit(c);
  }

  /** Digit strings of one length that denote the same number are the same. */
  lemma {:induction false} SameLength(s: string, t: string)
    requires |s| == |t| && AllDigits(s) && AllDigits(t) && Num(s) == Num(t)
    ensures s == t
  {
    hide Num, DigitValue;
    if s != "" {
      LastDigit(s);
      LastDigit(t);
      SameLength(s[..|s| - 1], t[..|t| - 1]);
      LastSplit(s);
      LastSplit(t);
    }
  }

  /** The last digit and what is in front of it, read off the number. */
  lemma LastDigit(s: string)
    requires s != "" && AllDigits(s)
    ensures s[|s| - 1] == DigitChar(Num(s) % 10)
    ensures Num(s[..|s| - 1]) == Num(s) / 10
  {
    hide Num, DigitChar, DigitValue, IsDigit;
    DigitCharOfValue(s[|s| - 1]);
    NumSplit(s);
    TenTimes(Num(s[..|s| - 1]), DigitValue(s[|s| - 1]));
  }

  lemma TenTimes(q: nat, d: nat)
    requires d < 10
    ensures (10 * q + d) / 10 == q && (10 * q + d) % 10 == d
  {
  }

  lemma LastSplit(s: string)
    requires s != ""
    ensures s == s[..|s| - 1] + [s[|s| - 1]]
  {
  }

  lemma NumSplit(s: string)
    requires s != "" && AllDigits(s)
    ensures Num(s) == 10 * Num(s[..|s| - 1]) + DigitValue(s[|s| - 1])
  {
  }

  lemma DenotedLength(ds: string, c: nat)
    requires Denotes(ds, c)
    ensures |ds| == NumDigits(c)
  {
    hide Num, Pow10;
    NumBound(ds);
    NumDigitsAtMost(c, |ds|);
    if |ds| > 1 {
      DecimalExact.NumAtLeast(ds);
      NumDigitsAtMost(c, |ds| - 1);
    }
  }

  /** A number has one numeral. */
  lemma OneNumeral(ds: string, c: nat)
    requires Denotes(ds, c)
    ensures ds == Digits(c)
  {
    hide Num, LowDigits;
    DenotedLength(ds, c);
    NumOfDigits(c);
    SameLength(ds, Digits(c));
  }

  lemma SplitPlain(whole: string, frac: string, c: nat)
    requires whole != "" && AllDigits(whole) && AllDigits(frac) && Num(whole + frac) == c
    requires |whole| == 1 || whole[0] != '0'
    ensures whole == Digits(c / Pow10(|frac|)) && Num(frac) == c % Pow10(|frac|)
  {
    hide Num, Pow10, Digits;
    NumConcat(whole, frac);
    NumBound(frac);
    DivModUnique(c, Pow10(|frac|), Num(whole), Num(frac));
    OneNumeral(whole, Num(whole));
  }

  lemma OnePlainForm(t: string, whole: string, frac: string, t': string, whole': string, frac': string, c: nat, e: int)
    requires PlainForm(t, whole, frac, c, e) && PlainForm(t', whole', frac', c, e)
    ensures t == t'
  {
    hide Num, Pow10, Digits;
    SplitPlain(whole, frac, c);
    SplitPlain(whole', frac', c);
    SameLength(frac, frac');
  }

  lemma OneScientificForm(t: string, first: char, rest: string, power: string,
                          t': string, first': char, rest': string, power': string, c: nat, e: int)
    requires ScientificForm(t, first, rest, power, c, e) && ScientificForm(t', first', rest', power', c, e)
    ensures t == t'
  {
    hide Num, Digits, Denotes;
    OneNumeral([first] + rest, c);
    OneNumeral([first'] + rest', c);
    assert ([first] + rest)[0] == ([first'] + rest')[0] && ([first] + rest)[1..] == rest && ([first'] + rest')[1..] == rest';
    var x := e + |rest|;
    OneNumeral(power, if x < 0 then -x else x);
    OneNumeral(power', if x < 0 then -x else x);
  }

  lemma PlainShown(c: nat, e: int)
    requires e <= 0 && e + NumDigits(c) - 1 >= -6
    ensures exists whole, frac :: PlainForm(Unsigned(c, e), whole, frac, c, e)
  {
    hide Num, LowDigits, NumDigits;
    var ds := Digits(c);
    DigitsDenote(c);
    if e == 0 {
      assert ds + "" == ds;
      assert PlainForm(Unsigned(c, e), ds, "", c, 0);
    } else if |ds| > -e {
      var whole, frac := ds[..|ds| + e], ds[|ds| + e..];
      assert whole + frac == ds;
      assert PlainForm(Unsigned(c, e), whole, frac, c, e);
    } else {
      var frac := Zeros(-e - |ds|) + ds;
      ZerosFirst(-e - |ds|, ds);
      assert Unsigned(c, e) == "0" + "." + frac;
      assert PlainForm(Unsigned(c, e), "0", frac, c, e);
    }
  }

  lemma ZerosFirst(z: nat, ds: string)
    requires AllDigits(ds)
    ensures Num("0" + (Zeros(z) + ds)) == Num(ds)
  {
    hide Num, Pow10;
    ZerosCons(z, ds);
    NumConcat(Zeros(z + 1), ds);
    NumZeros(Zeros(z + 1));
  }

  lemma ScientificText(ds: string)
    requires ds != ""
    ensures Scientific(ds) == [ds[0]] + (if ds[1..] == "" then "" else "." + ds[1..])
    ensures [ds[0]] + ds[1..] == ds
  {
  }

  lemma ExpPartText(x: int)
    requires x != 0
    ensures ExpPart(x) == "E" + (if x < 0 then "-" else "+") + Digits(if x < 0 then -x else x)
  {
    hide Digits;
  }

  lemma ScientificShown(c: nat, e: int)
    requires e > 0 || e + NumDigits(c) - 1 < -6
    ensures exists first, rest, power :: ScientificForm(Unsigned(c, e), first, rest, power, c, e)
  {
    hide Num, LowDigits, NumDigits, Digits, Plain, Scientific, ExpPart, Denotes;
    var ds := Digits(c);
    var x := e + |ds| - 1;
    var power := Digits(if x < 0 then -x else x);
    DigitsDenote(c);
    DigitsDenote(if x < 0 then -x else x);
    ScientificText(ds);
    ExpPartText(x);
    Joined(Unsigned(c, e), ds[0], ds[1..], power, if x < 0 then "-" else "+");
    assert ScientificForm(Unsigned(c, e), ds[0], ds[1..], power, c, e);
  }

  lemma Joined(t: string, first: char, rest: string, power: string, sign: string)
    requires t == ([first] + (if rest == "" then "" else "." + rest)) + ("E" + sign + power)
    ensures t == [first] + (if rest == "" then "" else "." + rest) + "E" + sign + power
  {
  }

  lemma UnsignedIff(t: string, c: nat, e: int)
    ensures Unsigned(c, e) == t <==> Shows(t, NumDigits(c), c, e)
  {
    hide Unsigned, PlainForm, ScientificForm, NumDigits;
    if e <= 0 && e + NumDigits(c) - 1 >= -6 {
      PlainShown(c, e);
      var whole, frac :| PlainForm(Unsigned(c, e), whole, frac, c, e);
      if whole', frac' :| PlainForm(t, whole', frac', c, e) {
        OnePlainForm(Unsigned(c, e), whole, frac, t, whole', frac', c, e);
      }
    } else {
      ScientificShown(c, e);
      var first, rest, power :| ScientificForm(Unsigned(c, e), first, rest, power, c, e);
      if first', rest', power' :| ScientificForm(t, first', rest', power', c, e) {
        OneScientificForm(Unsigned(c, e), first, rest, power, t, first', rest', power', c, e);
      }
    }
  }

  /** The printer writes exactly this notation, and a value has one text in it. */
  lemma FormatIff(t: string, m: Meaning)
    ensures Format(m) == t <==> Printed(t, m)
  {
    hide Unsigned, Shows, NumDigits, Denotes;
    if m.Finite? {
      var Finite(neg, c, e) := m;
      DigitsDenote(c);
      UnsignedIff(Unsigned(c, e), c, e);
      if ds, u :| Denotes(ds, c) && Shows(u, |ds|, c, e) && t == (if neg then "-" else "") + u {
        DenotedLength(ds, c);
        UnsignedIff(u, c, e);
      }
      assert Denotes(Digits(c), c) && Shows(Unsigned(c, e), |Digits(c)|, c, e);
    }
  }

  /** The printing routine, against the relation. */
  method PrintNotation(d: Decimal128) returns (t: string)
    ensures Printed(t, Interpret(d))
    ensures forall t' :: Printed(t', Interpret(d)) ==> t' == t
  {
    hide Printed, Interpret, Format;
    t := DecimalPrint.ToString(d);
    FormatIff(t, Interpret(d));
    forall t' | Printed(t', Interpret(d)) ensures t' == t {
      FormatIff(t', Interpret(d));
    }
  }
}
