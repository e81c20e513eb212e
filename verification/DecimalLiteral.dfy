/** Decimal literals as the parser accepts them, and the decimal128 each one becomes. */
module DecimalLiteral {
  import opened Wrappers
  import opened Numerals
  import opened Words
  import opened DecimalFormat

  const P113: nat := 0x2_0000_0000_0000_0000_0000_0000_0000
  const NAN := Decimal128(0x7C00_0000_0000_0000, 0)

  /** The length of the longest prefix of digits. */
  function DigitRun(s: string): (k: nat)
    ensures k <= |s| && AllDigits(s[..k]) && (k == |s| || !IsDigit(s[k]))
  {
    if s == "" || !IsDigit(s[0]) then 0 else 1 + DigitRun(s[1..])
  }

  /** The number of leading zeros of a digit string. */
  function Lead(ds: string): (k: nat)
    ensures k <= |ds| && (forall i :: 0 <= i < k ==> ds[i] == '0') && (k == |ds| || ds[k] != '0')
  {
    if ds == "" || ds[0] != '0' then 0 else 1 + Lead(ds[1..])
  }

  /** How many digits go beyond the 34 significant ones a decimal128 can hold. */
  function Excess(ds: string): (n: nat)
    ensures n <= |ds|
  {
    if |ds| - Lead(ds) > 34 then |ds| - Lead(ds) - 34 else 0
  }

  /** Every digit beyond the 34 significant ones is a zero. */
  predicate ExactlyRounded(ds: string) {
    forall i :: |ds| - Excess(ds) <= i < |ds| ==> ds[i] == '0'
  }

  /** An unsigned numeric literal: digits before and after the point, and the
      exponent if it is written. */
  datatype Literal = Literal(whole: string, frac: string, exp: Option<int>) {
    predicate Valid() {
      AllDigits(whole) && AllDigits(frac)
    }
  }

  /** What may follow the digits: nothing, or an exponent. An exponent part may
      be any number of digits long as long as it stays below 10000 before its
      last digit. */
  function ReadExp(rest: string): Option<Option<int>> {
    if rest == "" then Some(None)
    else if |rest| >= 2 && (rest[0] == 'E' || rest[0] == 'e') then
      var xs := if rest[1] == '-' || rest[1] == '+' then rest[2..] else rest[1..];
      if xs != "" && AllDigits(xs) && Num(xs[..|xs| - 1]) < 10_000 then
        var n: int := Num(xs);
        Some(Some(if rest[1] == '-' then -n else n))
      else None
    else None
  }

  function WithExp(whole: string, frac: string, rest: string): (r: Option<Literal>)
    requires AllDigits(whole) && AllDigits(frac)
    ensures r.Some? ==> r.value.Valid()
  {
    match ReadExp(rest)
    case None => None
    case Some(exp) => Some(Literal(whole, frac, exp))
  }

  /** The syntax of unsigned literals. A point must have a digit on at least one
      side, and may not follow digits that were already dropped by rounding. */
  function ReadLiteral(t: string): (r: Option<Literal>)
    ensures r.Some? ==> r.value.Valid()
  {
    var k := DigitRun(t);
    if k < |t| && t[k] == '.' then
      if k + 1 == |t| then
        if k == 0 then None else Some(Literal(t[..k], "", None))
      else if !IsDigit(t[k + 1]) || Excess(t[..k]) > 0 then None
      else
        var u := t[k + 1..];
        WithExp(t[..k], u[..DigitRun(u)], u[DigitRun(u)..])
    else if k == 0 then None
    else WithExp(t[..k], "", t[k..])
  }

  /** Multiplies a coefficient up until its exponent is in range, nine powers of
      ten at a time, on 128-bit words. */
  function Clamp(c: nat, e: int): Option<(nat, int)>
    decreases e
  {
    if e <= MAX_EXP then Some((c, e))
    else
      var k := if e - MAX_EXP < 9 then e - MAX_EXP else 9;
      var c' := c * Pow10(k) % W128;
      if c' >= P113 then None else Clamp(c', e - k)
  }

  /** Brings a written exponent into range. */
  function FoldExp(c: nat, e: int): Option<(nat, int)> {
    if e < -BIAS then
      var p := Pow10(-BIAS - e);
      if c % p == 0 then Some((c / p, -BIAS)) else None
    else Clamp(c, e)
  }

  /** The coefficient and exponent a literal is stored with. Without a written
      exponent the range is not checked. */
  function Fit(lit: Literal): Option<(nat, int)>
    requires lit.Valid()
  {
    var ds := lit.whole + lit.frac;
    if !ExactlyRounded(ds) then None
    else
      var c := Num(ds[..|ds| - Excess(ds)]);
      var e := Excess(ds) - |lit.frac|;
      if lit.exp.Some? then FoldExp(c, e + lit.exp.value) else Some((c, e))
  }

  /** Sign, 14 exponent bits and 113 coefficient bits. */
  function Pack(neg: bool, c: nat, e: int): Decimal128
    requires c < P113
  {
    Decimal128(c / W64 + (e + BIAS) % EXP_MASK * P49 + (if neg then P63 else 0), c % W64)
  }

  function Lower(s: string): (r: string)
    ensures |r| == |s|
  {
    seq(|s|, i requires 0 <= i < |s| => if 'A' <= s[i] <= 'Z' then (s[i] as int + 32) as char else s[i])
  }

  /** Words such as "NaN" and "Infinity"; Some(None) is a word that is neither. */
  function ReadName(neg: bool, t: string): Option<Option<Decimal128>> {
    if (|t| == 3 || |t| == 8) && (t[0] == 'N' || t[0] == 'n' || t[0] == 'I' || t[0] == 'i') then
      Some(if Lower(t) == "nan" then Some(NAN)
           else if Lower(t) == "inf" || Lower(t) == "infinity" then
             Some(Decimal128((if neg then P63 else 0) + 0x1E * P58, 0))
           else None)
    else None
  }

  /** A literal without its sign. */
  function Unsign(s: string): (r: (bool, string)) {
    if s != "" && s[0] == '-' then (true, s[1..])
    else if s != "" && s[0] == '+' then (false, s[1..])
    else (false, s)
  }

  lemma {:induction false} NumBelowLead(ds: string)
    requires AllDigits(ds)
    ensures Num(ds) < Pow10(|ds| - Lead(ds))
  {
    hide Lead, Num, Pow10;
    var k := Lead(ds);
    NumConcat(ds[..k], ds[k..]);
    NumZeros(ds[..k]);
    NumBound(ds[k..]);
    assert ds[..k] == Zeros(k);
    assert ds[..k] + ds[k..] == ds;
  }

  lemma TenTo34()
    ensures Pow10(34) == 1_0000_00000_00000_00000_00000_00000_00000
    ensures Pow10(34) < P113 < Pow10(35)
  {
    assert Pow10(4) == 10000;
    assert Pow10(8) == 1_0000_0000;
    Pow10Add(8, 8);
    Pow10Add(16, 16);
    assert Pow10(34) == 100 * Pow10(32);
  }

  /** Kept digits always fit. */
  lemma KeptBound(ds: string)
    requires AllDigits(ds)
    ensures Num(ds[..|ds| - Excess(ds)]) < Pow10(34) < P113
  {
    var kept := ds[..|ds| - Excess(ds)];
    NumBelowLead(kept);
    Pow10Monotone(|kept| - Lead(kept), 34);
    TenTo34();
  }

  lemma {:induction false} ClampBound(c: nat, e: int)
    requires c < P113
    ensures Clamp(c, e).Some? ==> Clamp(c, e).value.0 < P113 && Clamp(c, e).value.1 <= MAX_EXP
    ensures Clamp(c, e).Some? && e >= -BIAS ==> Clamp(c, e).value.1 >= -BIAS
    decreases e
  {
    if e > MAX_EXP {
      var k := if e - MAX_EXP < 9 then e - MAX_EXP else 9;
      var c' := c * Pow10(k) % W128;
      if c' < P113 {
        ClampBound(c', e - k);
      }
    }
  }

  lemma FoldExpBound(c: nat, e: int)
    requires c < P113
    ensures FoldExp(c, e).Some? ==> FoldExp(c, e).value.0 < P113 && -BIAS <= FoldExp(c, e).value.1 <= MAX_EXP
  {
    if e < -BIAS {
      var p := Pow10(-BIAS - e);
      DivModDefinition(c, p);
      QuotientAtMost(c, p);
    } else {
      ClampBound(c, e);
    }
  }

  lemma QuotientAtMost(c: nat, p: nat)
    requires p > 0
    ensures c / p <= c
  {
    DivModDefinition(c, p);
    MulMonotone(1, p, c / p);
  }

  lemma FitBound(lit: Literal)
    requires lit.Valid()
    ensures Fit(lit).Some? ==> Fit(lit).value.0 < P113
  {
    hide Num, Excess, FoldExp, ExactlyRounded, IsDigit;
    var ds := lit.whole + lit.frac;
    KeptBound(ds);
    var c := Num(ds[..|ds| - Excess(ds)]);
    if lit.exp.Some? {
      FoldExpBound(c, Excess(ds) - |lit.frac| + lit.exp.value);
    }
  }

  /** What the parser makes of a number without its sign. */
  function ParseUnsigned(neg: bool, t: string): Option<Decimal128> {
    match ReadLiteral(t)
    case None => None
    case Some(lit) =>
      match Fit(lit)
      case None => None
      case Some((c, e)) => FitBound(lit); Some(Pack(neg, c, e))
  }

  /** What ParseDecimal128 makes of a string. */
  function Parse(s: string): Option<Decimal128> {
    var (neg, t) := Unsign(s);
    match ReadName(neg, t)
    case Some(d) => d
    case None => ParseUnsigned(neg, t)
  }
}
