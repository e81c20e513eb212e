/** The decimal128 value, its fields, and its printer. */
module DecimalFormat {
  import opened Numerals
  import opened Words

  datatype Decimal128 = Decimal128(h: u64, l: u64)

  const P47: nat := 0x8000_0000_0000
  const P49: nat := 0x2_0000_0000_0000
  const P58: nat := 0x400_0000_0000_0000
  const P61: nat := 0x2000_0000_0000_0000
  const P63: nat := 0x8000_0000_0000_0000
  const EXP_MASK: nat := 0x4000
  const BIAS: int := 6176
  const MAX_EXP: int := 6111

  /** What the bits of a decimal128 denote. */
  datatype Meaning =
    | NaN
    | Inf(neg: bool)
    | Finite(neg: bool, coef: nat, exp: int)

  function Interpret(d: Decimal128): Meaning {
    var neg := d.h / P63 % 2 == 1;
    var top := d.h / P58 % 32;
    if top == 0x1F then NaN
    else if top == 0x1E then Inf(neg)
    else if d.h / P61 % 4 == 3 then Finite(neg, 0, d.h / P47 % EXP_MASK - BIAS)
    else Finite(neg, Wide(d.h % P49, d.l), d.h / P49 % EXP_MASK - BIAS)
  }

  /** Scientific mantissa: one digit before the point, the rest after it. */
  function Scientific(ds: string): string
    requires |ds| >= 1
  {
    if |ds| > 1 then [ds[0]] + "." + ds[1..] else ds
  }

  /** Plain form with p > 0 digits after the point. */
  function Plain(ds: string, p: nat): string {
    if |ds| > p then ds[..|ds| - p] + "." + ds[|ds| - p..]
    else "0." + (Zeros(p - |ds|) + ds)
  }

  /** The exponent part; a zero exponent is not written. */
  function ExpPart(e: int): string {
    if e > 0 then "E+" + Digits(e) else if e < 0 then "E-" + Digits(-e) else ""
  }

  /** The scientific-string conversion of a coefficient and an exponent:
      plain notation when the exponent is not positive and the adjusted
      exponent is at least -6, otherwise scientific notation. */
  function Unsigned(c: nat, e: int): string {
    var ds := Digits(c);
    var adj := e + |ds| - 1;
    if e == 0 then ds
    else if e > 0 || adj < -6 then Scientific(ds) + ExpPart(adj)
    else Plain(ds, -e)
  }

  function Format(m: Meaning): string {
    match m
    case NaN => "NaN"
    case Inf(neg) => if neg then "-Inf" else "Inf"
    case Finite(neg, c, e) => (if neg then "-" else "") + Unsigned(c, e)
  }

  /** The integer numeral strconv.Itoa produces. */
  function Itoa(n: int): string {
    if n < 0 then "-" + Digits(-n) else Digits(n)
  }

  /** The low j digits of c with a point before the last p of them. */
  function Dotted(c: nat, j: nat, p: nat): string
    requires p <= j
  {
    LowDigits(c, j)[..j - p] + "." + LowDigits(c, p)
  }

  /** Dividing by ten moves one digit out of the current nine-digit chunk. */
  lemma ChunkStep(wide: nat, rem: nat, m: nat)
    requires m > 0 && rem < 10 * m
    ensures (wide * (10 * m) + rem) / 10 == wide * m + rem / 10
    ensures (wide * (10 * m) + rem) % 10 == rem % 10
    ensures rem / 10 < m
  {
    assert wide * (10 * m) == 10 * (wide * m);
  }

  /** Where the printer puts its point: in plain notation before the last -e
      digits, in scientific notation behind the leading digit. */
  predicate PointPlace(c: nat, e: int, p: nat) {
    var n := NumDigits(c);
    (p == -e && e < 0 && e + n - 1 >= -6) || (p == n - 1 && p >= 1 && (e > 0 || e + n - 1 < -6))
  }

  /** What is in the buffer after j digits, with or without the point. */
  ghost predicate Written(c: nat, e0: int, j: nat, placed: bool, p: nat, txt: string, e: int, dot: int) {
    if placed then
      p < j && PointPlace(c, e0, p) && txt == Dotted(c, j, p) && e == e0 + p && dot == 48
    else
      txt == LowDigits(c, j) && e == e0 && dot == 48 + e0 && (e0 < 0 ==> j <= -e0)
  }

  /** There is a digit or a zero before the point still to write. */
  ghost predicate Pending(c: nat, e0: int, j: nat, placed: bool) {
    || j < NumDigits(c)
    || (!placed && e0 < 0 && j <= -e0 && e0 + NumDigits(c) - 1 >= -6)
  }

  /** The buffer together with the exponent part is the whole unsigned numeral. */
  ghost predicate Complete(c: nat, e0: int, txt: string, e: int) {
    Unsigned(c, e0) == txt + ExpPart(e)
  }

  lemma DottedStep(c: nat, j: nat, p: nat)
    requires p <= j
    ensures Dotted(c, j + 1, p) == [DigitChar(Drop(c, j) % 10)] + Dotted(c, j, p)
  {
    assert LowDigits(c, j + 1)[..j + 1 - p] == [DigitChar(Drop(c, j) % 10)] + LowDigits(c, j)[..j - p];
  }

  lemma {:induction false} LowDigitsSuffix(c: nat, n: nat, p: nat)
    requires p <= n
    ensures LowDigits(c, n)[n - p..] == LowDigits(c, p)
  {
    if p < n {
      LowDigitsSuffix(c, n - 1, p);
      assert LowDigits(c, n)[1..] == LowDigits(c, n - 1);
      assert LowDigits(c, n)[n - p..] == LowDigits(c, n)[1..][n - 1 - p..];
    }
  }

  lemma CompletePlainInteger(c: nat)
    ensures Complete(c, 0, LowDigits(c, NumDigits(c)), 0)
  {
  }

  lemma DottedWhole(c: nat, p: nat)
    requires p < NumDigits(c)
    ensures var ds := Digits(c);
      Dotted(c, |ds|, p) == ds[..|ds| - p] + "." + ds[|ds| - p..]
  {
    LowDigitsSuffix(c, NumDigits(c), p);
  }

  lemma DottedSmall(c: nat, p: nat)
    requires p >= NumDigits(c)
    ensures Dotted(c, p + 1, p) == Plain(Digits(c), p)
  {
    LowDigitsPad(c, p);
    LowDigitsZero(c, p);
    assert LowDigits(c, p + 1)[..1] == "0";
  }

  lemma CompletePlain(c: nat, e0: int, j: nat)
    requires e0 < 0 && e0 + NumDigits(c) - 1 >= -6
    requires if -e0 < NumDigits(c) then j == NumDigits(c) else j == -e0 + 1
    ensures Complete(c, e0, Dotted(c, j, -e0), 0)
  {
    if -e0 < NumDigits(c) {
      DottedWhole(c, -e0);
    } else {
      DottedSmall(c, -e0);
    }
  }

  lemma HeadPoint(ds: string)
    requires |ds| > 1
    ensures ds[..1] + "." + ds[1..] == Scientific(ds)
  {
    assert ds[..1] == [ds[0]];
  }

  lemma CompleteScientific(c: nat, e0: int)
    requires NumDigits(c) > 1 && (e0 > 0 || e0 + NumDigits(c) - 1 < -6)
    ensures Complete(c, e0, Dotted(c, NumDigits(c), NumDigits(c) - 1), e0 + NumDigits(c) - 1)
  {
    hide LowDigits, Dotted, ExpPart, NumDigits, Scientific, Digits, Plain;
    DottedWhole(c, NumDigits(c) - 1);
    HeadPoint(Digits(c));
  }

  /** A pointed numeral is finished when no digit is left. */
  lemma CompletePointed(c: nat, e0: int, j: nat, p: nat)
    requires PointPlace(c, e0, p) && p < j && NumDigits(c) <= j
    requires j == NumDigits(c) || j == p + 1
    ensures Complete(c, e0, Dotted(c, j, p), e0 + p)
  {
    if e0 < 0 && e0 + NumDigits(c) - 1 >= -6 {
      CompletePlain(c, e0, j);
    } else {
      CompleteScientific(c, e0);
    }
  }
}
