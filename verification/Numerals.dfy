/** Powers of ten and decimal numerals, most significant digit first. */
module Numerals {

  function Pow10(n: nat): (r: nat)
    ensures r > 0
  {
    if n == 0 then 1 else 10 * Pow10(n - 1)
  }

  lemma {:induction false} Pow10Add(a: nat, b: nat)
    ensures Pow10(a + b) == Pow10(a) * Pow10(b)
  {
    if a > 0 {
      Pow10Add(a - 1, b);
      assert Pow10(a + b) == 10 * Pow10(a - 1 + b);
      assert 10 * (Pow10(a - 1) * Pow10(b)) == (10 * Pow10(a - 1)) * Pow10(b);
    }
  }

  lemma {:induction false} Pow10Monotone(a: nat, b: nat)
    requires a <= b
    ensures Pow10(a) <= Pow10(b)
    decreases b
  {
    if a < b {
      Pow10Monotone(a, b - 1);
    }
  }

  lemma NineDigits()
    ensures Pow10(9) == 1_000_000_000
  {
    assert Pow10(3) == 1000;
    assert Pow10(6) == 1000000;
  }

  predicate IsDigit(c: char) {
    '0' <= c <= '9'
  }

  predicate AllDigits(s: string) {
    forall i :: 0 <= i < |s| ==> IsDigit(s[i])
  }

  function DigitChar(d: nat): (c: char)
    requires d < 10
    ensures IsDigit(c) && DigitValue(c) == d
  {
    (('0' as int) + d) as char
  }

  function DigitValue(c: char): (d: nat)
    requires IsDigit(c)
    ensures d < 10
  {
    (c as int) - ('0' as int)
  }

  lemma DigitCharOfValue(c: char)
    requires IsDigit(c)
    ensures DigitChar(DigitValue(c)) == c
  {
  }

  /** The number a digit string denotes; the empty string denotes zero. */
  function Num(s: string): nat
    requires AllDigits(s)
  {
    if s == "" then 0 else 10 * Num(s[..|s| - 1]) + DigitValue(s[|s| - 1])
  }

  lemma NumAppendDigit(s: string, c: char)
    requires AllDigits(s) && IsDigit(c)
    ensures AllDigits(s + [c])
    ensures Num(s + [c]) == 10 * Num(s) + DigitValue(c)
  {
    assert (s + [c])[..|s|] == s;
  }

  lemma MulTen(a: int, b: int)
    ensures 10 * (a * b) == a * (10 * b)
  {
  }

  lemma {:induction false} NumConcat(s: string, t: string)
    requires AllDigits(s) && AllDigits(t)
    ensures AllDigits(s + t)
    ensures Num(s + t) == Num(s) * Pow10(|t|) + Num(t)
  {
    if t == "" {
      assert s + t == s;
    } else {
      var t' := t[..|t| - 1];
      NumConcat(s, t');
      NumAppendDigit(s + t', t[|t| - 1]);
      assert s + t == (s + t') + [t[|t| - 1]];
      MulTen(Num(s), Pow10(|t'|));
    }
  }

  lemma {:induction false} NumBound(s: string)
    requires AllDigits(s)
    ensures Num(s) < Pow10(|s|)
  {
    if s != "" {
      NumBound(s[..|s| - 1]);
    }
  }

  /** A string of n zeros. */
  function Zeros(n: nat): (s: string)
    ensures |s| == n && AllDigits(s) && forall i :: 0 <= i < n ==> s[i] == '0'
  {
    seq(n, i => '0')
  }

  lemma {:induction false} NumZeros(s: string)
    requires AllDigits(s)
    ensures Num(s) == 0 <==> s == Zeros(|s|)
  {
    if s != "" {
      var s' := s[..|s| - 1];
      NumZeros(s');
      if s == Zeros(|s|) {
        assert s' == Zeros(|s'|);
      }
      if Num(s) == 0 {
        DigitCharOfValue(s[|s| - 1]);
        assert s == s' + [s[|s| - 1]];
      }
    }
  }

  /** c without its j least significant digits. */
  function Drop(c: nat, j: nat): (r: nat)
    ensures r <= c
  {
    if j == 0 then c else Drop(c, j - 1) / 10
  }

  lemma {:induction false} DropInner(c: nat, j: nat)
    ensures Drop(c, j + 1) == Drop(c / 10, j)
  {
    if j > 0 {
      DropInner(c, j - 1);
    }
  }

  lemma {:induction false} DropIsDivision(c: nat, j: nat)
    ensures Drop(c, j) == c / Pow10(j)
  {
    if j > 0 {
      DropIsDivision(c, j - 1);
      DivModSplit(c, Pow10(j - 1));
    }
  }

  /** The j least significant digits of c, padded with zeros. */
  function LowDigits(c: nat, j: nat): (s: string)
    ensures |s| == j && AllDigits(s)
  {
    if j == 0 then "" else [DigitChar(Drop(c, j - 1) % 10)] + LowDigits(c, j - 1)
  }

  lemma MulMonotone(a: int, b: int, m: int)
    requires a <= b && m >= 0
    ensures a * m <= b * m
  {
  }

  lemma MulGap(a: int, b: int, m: int)
    requires a < b && m >= 0
    ensures a * m + m <= b * m
  {
    MulMonotone(a + 1, b, m);
    assert (a + 1) * m == a * m + m;
  }

  /** Quotient and remainder are determined by their defining equation. */
  lemma DivModUnique(c: int, m: int, q: int, r: int)
    requires m > 0 && c == q * m + r && 0 <= r < m
    ensures c / m == q && c % m == r
  {
    var q' := c / m;
    DivModDefinition(c, m);
    if q' < q {
      MulGap(q', q, m);
    } else if q < q' {
      MulGap(q, q', m);
    }
  }

  lemma MulSplitTen(q: int, r: int, m: int)
    ensures (10 * q + r) * m == q * (10 * m) + r * m
  {
  }

  /** Taking one digit off a quotient. */
  lemma DivModSplit(c: nat, m: nat)
    requires m > 0
    ensures c / (10 * m) == c / m / 10
    ensures c % (10 * m) == (c / m % 10) * m + c % m
  {
    var q, r := c / m, c % m;
    DivModDefinition(c, m);
    MulSplitTen(q / 10, q % 10, m);
    MulGap(q % 10, 10, m);
    MulMonotone(0, q % 10, m);
    DivModUnique(c, 10 * m, q / 10, q % 10 * m + r);
  }

  lemma DivModDefinition(c: int, m: int)
    requires m > 0
    ensures c == c / m * m + c % m && 0 <= c % m < m
  {
  }

  lemma NumDigit(c: char)
    requires IsDigit(c)
    ensures Num([c]) == DigitValue(c)
  {
    assert [c][..0] == "";
  }

  lemma {:induction false} NumLowDigits(c: nat, j: nat)
    ensures Num(LowDigits(c, j)) == c % Pow10(j)
  {
    if j > 0 {
      var d := Drop(c, j - 1) % 10;
      NumLowDigits(c, j - 1);
      NumConcat([DigitChar(d)], LowDigits(c, j - 1));
      NumDigit(DigitChar(d));
      DropIsDivision(c, j - 1);
      DivModSplit(c, Pow10(j - 1));
    }
  }

  /** How many digits the numeral of c has; zero has one. */
  function NumDigits(c: nat): (n: nat)
    ensures n >= 1
  {
    if c < 10 then 1 else 1 + NumDigits(c / 10)
  }

  lemma {:induction false} NumDigitsBound(c: nat)
    ensures c < Pow10(NumDigits(c))
    ensures NumDigits(c) == 1 || Pow10(NumDigits(c) - 1) <= c
  {
    if c >= 10 {
      NumDigitsBound(c / 10);
    } else {
      assert Pow10(1) == 10;
    }
  }

  lemma NumDigitsAtMost(c: nat, n: nat)
    requires n >= 1
    ensures NumDigits(c) <= n <==> c < Pow10(n)
  {
    NumDigitsBound(c);
    if NumDigits(c) <= n {
      Pow10Monotone(NumDigits(c), n);
    } else {
      Pow10Monotone(n, NumDigits(c) - 1);
    }
  }

  /** Dropping digits leaves nothing exactly when all digits are dropped. */
  lemma {:induction false} DropAll(c: nat, j: nat)
    ensures Drop(c, j) == 0 <==> j >= NumDigits(c) || c == 0
  {
    if j > 0 {
      DropInner(c, j - 1);
      if c >= 10 {
        DropAll(c / 10, j - 1);
      } else {
        DropZero(j - 1);
      }
    }
  }

  lemma {:induction false} DropZero(j: nat)
    ensures Drop(0, j) == 0
  {
    if j > 0 {
      DropZero(j - 1);
    }
  }

  /** What is left is a single digit exactly when at most one digit is left. */
  lemma DropToOne(c: nat, j: nat)
    ensures Drop(c, j) < 10 <==> j + 1 >= NumDigits(c)
  {
    DropAll(c, j + 1);
  }

  /** The ordinary decimal numeral of c, without leading zeros. */
  function Digits(c: nat): (s: string)
    ensures |s| == NumDigits(c) && AllDigits(s)
  {
    LowDigits(c, NumDigits(c))
  }

  lemma NumOfDigits(c: nat)
    ensures Num(Digits(c)) == c
  {
    NumLowDigits(c, NumDigits(c));
    NumDigitsBound(c);
    DivModUnique(c, Pow10(NumDigits(c)), 0, c);
  }

  /** Only zero has a numeral that begins with '0'. */
  lemma LeadingDigit(c: nat)
    ensures Digits(c)[0] == '0' <==> c == 0
  {
    DropToOne(c, NumDigits(c) - 1);
    DropAll(c, NumDigits(c) - 1);
  }

  lemma LowDigitsZero(c: nat, j: nat)
    requires j >= NumDigits(c)
    ensures LowDigits(c, j + 1) == ['0'] + LowDigits(c, j)
  {
    DropAll(c, j);
  }

  lemma ZerosCons(n: nat, s: string)
    ensures Zeros(n + 1) + s == ['0'] + (Zeros(n) + s)
  {
  }

  /** Digits above the numeral are zeros. */
  lemma {:induction false} LowDigitsPad(c: nat, j: nat)
    requires j >= NumDigits(c)
    ensures LowDigits(c, j) == Zeros(j - NumDigits(c)) + Digits(c)
  {
    var n := NumDigits(c);
    if j > n {
      LowDigitsPad(c, j - 1);
      LowDigitsZero(c, j - 1);
      ZerosCons(j - 1 - n, Digits(c));
    }
  }
}
