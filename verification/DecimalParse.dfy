/** The decimal128 parser: digits are gathered nine at a time and multiplied into two words. */
module DecimalParse {
  import opened Wrappers
  import opened Numerals
  import opened Words
  import opened DecimalFormat
  import opened DecimalLiteral

  const HIGH_BITS: nat := 0xFFFE_0000_0000_0000

  /** The test for bits above the 113 of a coefficient. */
  predicate TooWide(h: u64) {
    h / P49 > 0
  }

  lemma TooWideIff(h: u64, l: u64)
    ensures TooWide(h) <==> Wide(h, l) >= P113
  {
  }

  /** The digits of t[..i], leaving out the point in front of index dot. */
  function Gathered(t: string, i: nat, dot: int): string
    requires i <= |t| && dot <= i
  {
    if dot < 1 then t[..i] else t[..dot - 1] + t[dot..i]
  }

  /** What the scanning loop knows about the text in front of index i. */
  ghost predicate Scanned(t: string, i: nat, dot: int, digits: nat, e: nat) {
    && i <= |t| && dot <= i && dot != 0
    && AllDigits(Gathered(t, i, dot))
    && (dot >= 1 ==> t[dot - 1] == '.' && dot < |t| && IsDigit(t[dot]) && Excess(t[..dot - 1]) == 0)
    && digits == |Gathered(t, i, dot)| - Lead(Gathered(t, i, dot))
    && e == Excess(Gathered(t, i, dot))
    && ExactlyRounded(Gathered(t, i, dot))
  }

  /** The words and the current chunk together hold the kept digits. */
  ghost predicate Accumulated(ds: string, h: u64, l: u64, mul: u32, add: u32, k: nat) {
    && AllDigits(ds)
    && k <= 9 && mul == Pow10(k) && add < mul
    && Wide(h, l) * mul + add == Num(ds[..|ds| - Excess(ds)])
  }

  lemma {:induction false} LeadAppend(ds: string, c: char)
    ensures Lead(ds + [c]) == if Lead(ds) == |ds| && c == '0' then |ds| + 1 else Lead(ds)
  {
    if ds != "" && ds[0] == '0' {
      LeadAppend(ds[1..], c);
      assert (ds + [c])[1..] == ds[1..] + [c];
    }
  }

  /** One more digit: either it is kept, or it is a zero beyond the 34th, or the
      literal cannot be represented exactly. */
  lemma DigitStep(ds: string, c: char)
    requires AllDigits(ds) && IsDigit(c) && ExactlyRounded(ds)
    ensures var ds' := ds + [c];
      var sig := |ds| - Lead(ds);
      var sig' := if c > '0' || sig > 0 then sig + 1 else sig;
      && |ds'| - Lead(ds') == sig'
      && (sig' <= 34 ==> Excess(ds') == 0 == Excess(ds) && ds[..|ds| - Excess(ds)] == ds && ExactlyRounded(ds'))
      && (sig' > 34 ==> Excess(ds') == Excess(ds) + 1 && ds'[..|ds'| - Excess(ds')] == ds[..|ds| - Excess(ds)])
      && (sig' > 34 ==> (ExactlyRounded(ds') <==> c == '0'))
  {
    LeadAppend(ds, c);
    var ds' := ds + [c];
    assert ds'[|ds|] == c;
    assert forall i :: 0 <= i < |ds| ==> ds'[i] == ds[i];
  }

  /** Further digits cannot repair a nonzero digit that was rounded away. */
  lemma {:induction false} StaysInexact(ds: string, more: string)
    requires AllDigits(ds) && AllDigits(more) && !ExactlyRounded(ds)
    ensures !ExactlyRounded(ds + more) && Excess(ds + more) > 0
    decreases |more|
  {
    if more == "" {
      assert ds + more == ds;
    } else {
      var ds' := ds + [more[0]];
      LeadAppend(ds, more[0]);
      var i :| |ds| - Excess(ds) <= i < |ds| && ds[i] != '0';
      assert ds'[i] == ds[i];
      StaysInexact(ds', more[1..]);
      assert ds' + more[1..] == ds + more;
    }
  }

  lemma DigitRunIs(t: string, k: nat)
    requires k <= |t| && AllDigits(t[..k]) && (k == |t| || !IsDigit(t[k]))
    ensures DigitRun(t) == k
  {
    assert forall i :: 0 <= i < k ==> IsDigit(t[..k][i]) && t[..k][i] == t[i];
    assert forall i :: 0 <= i < DigitRun(t) ==> IsDigit(t[..DigitRun(t)][i]) && t[..DigitRun(t)][i] == t[i];
  }

  /** The literal is malformed, or has more significant digits than fit. */
  ghost predicate Rejected(t: string) {
    ReadLiteral(t).None? || !ExactlyRounded(ReadLiteral(t).value.whole + ReadLiteral(t).value.frac)
  }

  /** What the whole scan found: the digits on both sides of the point and where they end. */
  ghost predicate Found(t: string, whole: string, frac: string, i: nat, h: u64, l: u64, e: int) {
    && i <= |t| && AllDigits(whole) && AllDigits(frac)
    && ReadLiteral(t) == WithExp(whole, frac, t[i..])
    && ExactlyRounded(whole + frac)
    && Wide(h, l) == Num((whole + frac)[..|whole + frac| - Excess(whole + frac)])
    && e == Excess(whole + frac) - |frac|
  }

  lemma GatheredStep(t: string, i: nat, dot: int)
    requires i < |t| && dot <= i
    ensures Gathered(t, i + 1, dot) == Gathered(t, i, dot) + [t[i]]
  {
    if dot >= 1 {
      assert t[dot..i + 1] == t[dot..i] + [t[i]];
    }
  }

  /** A run of digits behind what was gathered so far. */
  lemma ReadInteger(t: string, i: nat)
    requires i <= |t| && AllDigits(t[..i]) && (i == |t| || (!IsDigit(t[i]) && t[i] != '.'))
    ensures ReadLiteral(t) == if i == 0 then None else WithExp(t[..i], "", t[i..])
  {
    DigitRunIs(t, i);
  }

  lemma ReadFraction(t: string, i: nat, dot: nat)
    requires 1 <= dot <= i <= |t| && dot < |t| && t[dot - 1] == '.' && IsDigit(t[dot])
    requires AllDigits(t[..dot - 1]) && AllDigits(t[dot..i]) && Excess(t[..dot - 1]) == 0
    requires i == |t| || !IsDigit(t[i])
    ensures ReadLiteral(t) == WithExp(t[..dot - 1], t[dot..i], t[i..])
  {
    hide Lead, WithExp, Excess, DigitRun, ReadExp;
    DigitRunIs(t, dot - 1);
    var u := t[dot..];
    assert u[..i - dot] == t[dot..i] && u[i - dot..] == t[i..];
    DigitRunIs(u, i - dot);
  }

  lemma RejectInteger(t: string, i: nat)
    requires i <= |t| && AllDigits(t[..i]) && !ExactlyRounded(t[..i])
    ensures Rejected(t)
  {
    hide Lead, ExactlyRounded, Excess, ReadExp;
    var k := DigitRun(t[i..]);
    StaysInexact(t[..i], t[i..][..k]);
    assert t[..i + k] == t[..i] + t[i..][..k];
    assert t[..i + k] + "" == t[..i + k];
    NothingInexact(t[..i]);
    DigitRunIs(t, i + k);
  }

  lemma NothingInexact(ds: string)
    requires !ExactlyRounded(ds)
    ensures ds != ""
  {
  }

  lemma RejectFraction(t: string, i: nat, dot: nat)
    requires 1 <= dot <= i <= |t| && AllDigits(Gathered(t, i, dot)) && !ExactlyRounded(Gathered(t, i, dot))
    requires t[dot - 1] == '.' && dot < |t| && IsDigit(t[dot]) && Excess(t[..dot - 1]) == 0
    ensures Rejected(t)
  {
    hide Lead, ExactlyRounded, Excess, ReadExp, ReadLiteral;
    var k := DigitRun(t[i..]);
    StaysInexact(Gathered(t, i, dot), t[i..][..k]);
    assert t[dot..i + k] == t[dot..i] + t[i..][..k];
    assert t[..dot - 1] + t[dot..i] + t[i..][..k] == t[..dot - 1] + t[dot..i + k];
    GatheredDigits(t, i, dot);
    ReadFraction(t, i + k, dot);
  }

  /** A digit that cannot be rounded away exactly makes the parser give up. */
  lemma RejectInexact(t: string, i: nat, dot: int)
    requires i <= |t| && dot <= i && dot != 0
    requires AllDigits(Gathered(t, i, dot)) && !ExactlyRounded(Gathered(t, i, dot))
    requires dot >= 1 ==> t[dot - 1] == '.' && dot < |t| && IsDigit(t[dot]) && Excess(t[..dot - 1]) == 0
    ensures Rejected(t)
  {
    if dot < 1 {
      RejectInteger(t, i);
    } else {
      RejectFraction(t, i, dot);
    }
  }

  lemma GatheredDigits(t: string, i: nat, dot: nat)
    requires 1 <= dot <= i <= |t| && AllDigits(Gathered(t, i, dot))
    ensures AllDigits(t[..dot - 1]) && AllDigits(t[dot..i])
  {
    var g := Gathered(t, i, dot);
    assert g[..dot - 1] == t[..dot - 1];
    assert g[dot - 1..] == t[dot..i];
  }

  /** Moving the chunk into the words never overflows: 34 digits fit in 113 bits. */
  lemma FlushFits(ds: string, h: u64, l: u64, mul: u32, add: u32, k: nat)
    requires Accumulated(ds, h, l, mul, add, k)
    ensures var r := MulAdd(h, l, mul, add);
      r.2 == 0 && !TooWide(r.0) && Accumulated(ds, r.0, r.1, 1, 0, 0)
  {
    KeptBound(ds);
    MulAddExactIff(h, l, mul, add);
    var r := MulAdd(h, l, mul, add);
    TooWideIff(r.0, r.1);
  }

  /** The accumulator after one more digit. */
  lemma AccumulateDigit(ds: string, c: char, h: u64, l: u64, mul: u32, add: u32, k: nat)
    requires Accumulated(ds, h, l, mul, add, k) && k < 9 && IsDigit(c) && Excess(ds) == 0 == Excess(ds + [c])
    ensures 10 * mul <= 1_000_000_000 && 10 * add + DigitValue(c) < 10 * mul
    ensures Accumulated(ds + [c], h, l, 10 * mul, 10 * add + DigitValue(c), k + 1)
  {
    hide Wide, Pow10, Num, Excess, DigitValue;
    NumAppendDigit(ds, c);
    assert ds[..|ds|] == ds && (ds + [c])[..|ds| + 1] == ds + [c];
    PowerStep(k);
    MulTen(Wide(h, l), mul);
  }

  lemma PowerStep(k: nat)
    requires k < 9
    ensures Pow10(k + 1) == 10 * Pow10(k) && Pow10(k + 1) <= 1_000_000_000
  {
    Pow10Monotone(k + 1, 9);
    NineDigits();
  }

  lemma ScanStart(t: string)
    ensures Scanned(t, 0, -1, 0, 0) && Accumulated(Gathered(t, 0, -1), 0, 0, 1, 0, 0)
  {
  }

  /** A digit that is kept. */
  lemma ScanKept(t: string, i: nat, dot: int, digits: nat, e: nat, h: u64, l: u64, mul: u32, add: u32, k: nat)
    requires Scanned(t, i, dot, digits, e) && i < |t| && IsDigit(t[i])
    requires Accumulated(Gathered(t, i, dot), h, l, mul, add, k) && k < 9
    requires (if t[i] > '0' || digits > 0 then digits + 1 else digits) <= 34
    ensures Scanned(t, i + 1, dot, if t[i] > '0' || digits > 0 then digits + 1 else digits, e)
    ensures 10 * mul <= 1_000_000_000 && 10 * add + DigitValue(t[i]) < 10 * mul
    ensures Accumulated(Gathered(t, i + 1, dot), h, l, 10 * mul, 10 * add + DigitValue(t[i]), k + 1)
  {
    var ds := Gathered(t, i, dot);
    GatheredStep(t, i, dot);
    DigitStep(ds, t[i]);
    hide Gathered, Lead, ExactlyRounded, Accumulated, Excess, DigitValue;
    AccumulateDigit(ds, t[i], h, l, mul, add, k);
  }

  /** A digit beyond the 34th: a zero raises the exponent, anything else is an error. */
  lemma ScanBeyond(t: string, i: nat, dot: int, digits: nat, e: nat, h: u64, l: u64, mul: u32, add: u32, k: nat)
    requires Scanned(t, i, dot, digits, e) && i < |t| && IsDigit(t[i])
    requires Accumulated(Gathered(t, i, dot), h, l, mul, add, k)
    requires (if t[i] > '0' || digits > 0 then digits + 1 else digits) > 34
    ensures t[i] == '0' ==> Scanned(t, i + 1, dot, digits + 1, e + 1)
    ensures t[i] == '0' ==> Accumulated(Gathered(t, i + 1, dot), h, l, mul, add, k)
    ensures t[i] != '0' ==> Rejected(t)
  {
    hide Rejected, Num, Pow10, Wide, Accumulated, Gathered, Lead, Excess, ExactlyRounded, AllDigits, IsDigit;
    var ds := Gathered(t, i, dot);
    GatheredStep(t, i, dot);
    DigitStep(ds, t[i]);
    MoreDigits(ds, t[i]);
    if t[i] != '0' {
      RejectInexact(t, i + 1, dot);
    } else {
      SameAccumulated(ds, ds + [t[i]], h, l, mul, add, k);
    }
  }

  lemma MoreDigits(ds: string, c: char)
    requires AllDigits(ds) && IsDigit(c)
    ensures AllDigits(ds + [c])
  {
    hide IsDigit;
  }

  /** Digits that are not kept do not matter to the accumulator. */
  lemma SameAccumulated(ds: string, ds': string, h: u64, l: u64, mul: u32, add: u32, k: nat)
    requires Accumulated(ds, h, l, mul, add, k) && AllDigits(ds')
    requires ds'[..|ds'| - Excess(ds')] == ds[..|ds| - Excess(ds)]
    ensures Accumulated(ds', h, l, mul, add, k)
  {
    hide Num, Pow10, Wide, Excess;
  }

  /** The point, with a digit behind it. */
  lemma ScanPoint(t: string, i: nat, digits: nat, e: nat)
    requires Scanned(t, i, -1, digits, e) && i + 1 < |t| && t[i] == '.'
    ensures IsDigit(t[i + 1]) && e == 0 ==> Scanned(t, i + 1, i + 1, digits, e) && Gathered(t, i + 1, i + 1) == Gathered(t, i, -1)
    ensures !(IsDigit(t[i + 1]) && e == 0) ==> Rejected(t)
  {
    assert t[i + 1..i + 1] == "" && t[..i] + "" == t[..i];
    DigitRunIs(t, i);
  }

  lemma SecondPoint(t: string, i: nat, dot: nat, digits: nat, e: nat)
    requires Scanned(t, i, dot, digits, e) && dot >= 1 && i < |t| && t[i] == '.'
    ensures Rejected(t)
  {
    GatheredDigits(t, i, dot);
    ReadFraction(t, i, dot);
    assert t[i..][0] == '.';
  }

  /** The scan ends at the first character that is neither a digit nor a point. */
  lemma ScanEnd(t: string, i: nat, dot: int, digits: nat, e: nat, h: u64, l: u64)
    requires Scanned(t, i, dot, digits, e) && (i == |t| || (!IsDigit(t[i]) && t[i] != '.'))
    requires Accumulated(Gathered(t, i, dot), h, l, 1, 0, 0)
    ensures i == 0 ==> Rejected(t)
    ensures i > 0 && dot < 0 ==> Found(t, t[..i], "", i, h, l, e)
    ensures dot >= 1 ==> Found(t, t[..dot - 1], t[dot..i], i, h, l, e + dot - i)
  {
    hide *;
    ScannedDigits(t, i, dot, digits, e);
    AccumulatorRead(Gathered(t, i, dot), h, l);
    if dot < 1 {
      ReadInteger(t, i);
      if i == 0 {
        NoLiteral(t);
      } else {
        FoundHere(t, t[..i], "", i, h, l, e);
      }
    } else {
      GatheredDigits(t, i, dot);
      ReadFraction(t, i, dot);
      FoundHere(t, t[..dot - 1], t[dot..i], i, h, l, e + dot - i);
    }
  }

  lemma ScannedDigits(t: string, i: nat, dot: int, digits: nat, e: nat)
    requires Scanned(t, i, dot, digits, e)
    ensures i <= |t| && dot <= i && dot != 0
    ensures var ds := Gathered(t, i, dot);
      && AllDigits(ds) && ExactlyRounded(ds) && e == Excess(ds)
      && (dot < 1 ==> ds == t[..i] == t[..i] + "")
      && (dot >= 1 ==> ds == t[..dot - 1] + t[dot..i])
    ensures dot >= 1 ==> t[dot - 1] == '.' && dot < |t| && IsDigit(t[dot]) && Excess(t[..dot - 1]) == 0
  {
    hide AllDigits, ExactlyRounded, Excess, IsDigit, Lead;
  }

  lemma NoLiteral(t: string)
    requires ReadLiteral(t) == None
    ensures Rejected(t)
  {
    hide ReadLiteral, ExactlyRounded;
  }

  lemma FoundHere(t: string, whole: string, frac: string, i: nat, h: u64, l: u64, e: int)
    requires i <= |t| && AllDigits(whole) && (frac == "" || AllDigits(frac))
    requires ReadLiteral(t) == WithExp(whole, frac, t[i..])
    requires ExactlyRounded(whole + frac) && e == Excess(whole + frac) - |frac|
    requires Wide(h, l) == Num((whole + frac)[..|whole + frac| - Excess(whole + frac)])
    ensures Found(t, whole, frac, i, h, l, e)
  {
    hide ReadLiteral, WithExp, ExactlyRounded, Excess, Wide, Num, IsDigit;
  }

  /** An accumulator with no open chunk holds the kept digits in its words. */
  lemma AccumulatorRead(ds: string, h: u64, l: u64)
    requires Accumulated(ds, h, l, 1, 0, 0)
    ensures Wide(h, l) == Num(ds[..|ds| - Excess(ds)])
  {
    hide Num, Wide, Excess;
  }

  /** A point at the very end of the text. */
  lemma TrailingPoint(t: string, i: nat, digits: nat, e: nat, h: u64, l: u64)
    requires Scanned(t, i, -1, digits, e) && i + 1 == |t| && t[i] == '.'
    requires Accumulated(Gathered(t, i, -1), h, l, 1, 0, 0)
    ensures i == 0 ==> Rejected(t)
    ensures i > 0 ==> Found(t, t[..i], "", |t|, h, l, e)
  {
    DigitRunIs(t, i);
    assert t[|t|..] == "" && t[..i] + "" == t[..i];
  }

  lemma LonePoint(t: string)
    requires t == "."
    ensures Rejected(t)
  {
  }

  lemma ScanNothing(t: string, dot: int, digits: nat, e: nat)
    requires Scanned(t, 0, dot, digits, e) && (0 == |t| || (!IsDigit(t[0]) && t[0] != '.'))
    ensures Rejected(t)
  {
    ReadInteger(t, 0);
  }

  lemma ChunkOpen(ds: string, h: u64, l: u64, mul: u32, add: u32, k: nat)
    requires Accumulated(ds, h, l, mul, add, k) && mul != 1_000_000_000
    ensures k < 9
  {
    NineDigits();
  }

  /** A chunk with no digits in it holds nothing. */
  lemma ChunkEmpty(ds: string, h: u64, l: u64, mul: u32, add: u32, k: nat)
    requires Accumulated(ds, h, l, mul, add, k)
    ensures mul <= 1 ==> Accumulated(ds, h, l, 1, 0, 0)
  {
  }

  /** Scans the digits and the point, gathering nine digits at a time. */
  method ScanDigits(t: string)
    returns (ok: bool, h: u64, l: u64, i: nat, e: int, ghost whole: string, ghost frac: string)
    ensures ok ==> Found(t, whole, frac, i, h, l, e) && i > 0
    ensures !ok ==> Rejected(t)
  {
    hide *;
    ok, h, l, i, e, whole, frac := false, 0, 0, 0, 0, "", "";
    var add: u32, mul: u32, ovr: u32 := 0, 1, 0;
    var dot: int, digits: nat := -1, 0;
    ghost var k, n := 0, 0;
    ScanStart(t);
    while i < |t|
      invariant n == i <= |t| && dot <= i && dot != 0 && 0 <= e
      invariant Scanned(t, i, dot, digits, e) && Accumulated(Gathered(t, i, dot), h, l, mul, add, k)
      decreases |t| - i
    {
      var c := t[i];
      if mul == 1_000_000_000 {
        FlushFits(Gathered(t, i, dot), h, l, mul, add, k);
        var r := MulAdd(h, l, mul, add);
        h, l, ovr := r.0, r.1, r.2;
        mul, add, k := 1, 0, 0;
        if ovr > 0 || TooWide(h) {
          assert false;
        }
      }
      ChunkOpen(Gathered(t, i, dot), h, l, mul, add, k);
      if IsDigit(c) {
        ghost var digits0 := digits;
        if c > '0' || digits > 0 {
          digits := digits + 1;
        }
        if digits > 34 {
          ScanBeyond(t, i, dot, digits0, e, h, l, mul, add, k);
          if c == '0' {
            i, n := i + 1, n + 1;
            e := e + 1;
            continue;
          }
          return;
        }
        ScanKept(t, i, dot, digits0, e, h, l, mul, add, k);
        i, n := i + 1, n + 1;
        mul := mul * 10;
        add := add * 10 + DigitValue(c);
        k := k + 1;
        continue;
      }
      if c == '.' {
        i := i + 1;
        if dot >= 0 {
          SecondPoint(t, n, dot, digits, e);
          return;
        }
        if i == 1 && |t| == 1 {
          LonePoint(t);
          return;
        }
        if i == |t| {
          break;
        }
        ScanPoint(t, n, digits, e);
        if !IsDigit(t[i]) || e > 0 {
          return;
        }
        dot, n := i, i;
        continue;
      }
      break;
    }
    if i == 0 {
      ScanNothing(t, dot, digits, e);
      return;
    }
    ChunkEmpty(Gathered(t, n, dot), h, l, mul, add, k);
    if mul > 1 {
      FlushFits(Gathered(t, n, dot), h, l, mul, add, k);
      var r := MulAdd(h, l, mul, add);
      h, l, ovr := r.0, r.1, r.2;
      if ovr > 0 || TooWide(h) {
        assert false;
      }
    }
    if n < i {
      TrailingPoint(t, n, digits, e, h, l);
      whole := t[..n];
    } else {
      ScanEnd(t, i, dot, digits, e, h, l);
      whole, frac := if dot < 0 then t[..i] else t[..dot - 1], if dot < 0 then "" else t[dot..i];
    }
    if dot >= 0 {
      e := e + dot - i;
    }
    ok := true;
  }

  lemma {:induction false} NumMonotone(xs: string, j: nat, k: nat)
    requires AllDigits(xs) && j <= k <= |xs|
    ensures Num(xs[..j]) <= Num(xs[..k])
    decreases k
  {
    if j < k {
      NumMonotone(xs, j, k - 1);
      assert xs[..k][..k - 1] == xs[..k - 1];
    }
  }

  lemma NumPrefixStep(xs: string, k: nat)
    requires k < |xs| && AllDigits(xs[..k]) && IsDigit(xs[k])
    ensures AllDigits(xs[..k + 1]) && Num(xs[..k + 1]) == 10 * Num(xs[..k]) + DigitValue(xs[k])
  {
    assert xs[..k + 1] == xs[..k] + [xs[k]];
    NumAppendDigit(xs[..k], xs[k]);
  }

  /** Reads exponent digits, but no further than the first value of 10000 or more. */
  method ScanExponent(xs: string) returns (ok: bool, k: nat, n: nat)
    ensures !ok ==> !AllDigits(xs)
    ensures ok ==> k <= |xs| && AllDigits(xs[..k]) && n == Num(xs[..k])
    ensures ok ==> k == |xs| || n >= 10_000
    ensures ok && k > 0 ==> AllDigits(xs[..k - 1]) && Num(xs[..k - 1]) < 10_000
  {
    hide *;
    ok, k, n := true, 0, 0;
    NumEmpty(xs);
    while k < |xs| && n < 10_000
      invariant k <= |xs| && AllDigits(xs[..k]) && n == Num(xs[..k])
      invariant k > 0 ==> AllDigits(xs[..k - 1]) && Num(xs[..k - 1]) < 10_000
    {
      var c := xs[k];
      if !IsDigit(c) {
        NotAllDigits(xs, k);
        ok := false;
        return;
      }
      NumPrefixStep(xs, k);
      n := n * 10 + DigitValue(c);
      k := k + 1;
    }
  }

  lemma NumEmpty(xs: string)
    ensures AllDigits(xs[..0]) && Num(xs[..0]) == 0
  {
  }

  lemma NotAllDigits(xs: string, k: nat)
    requires k < |xs| && !IsDigit(xs[k])
    ensures !AllDigits(xs)
  {
  }

  /** An exponent is accepted exactly when the scan consumed all of it. */
  lemma ExponentConsumed(xs: string, k: nat)
    requires 0 < |xs| && k <= |xs| && AllDigits(xs[..k])
    requires k == |xs| || Num(xs[..k]) >= 10_000
    requires k > 0 ==> AllDigits(xs[..k - 1]) && Num(xs[..k - 1]) < 10_000
    ensures k == |xs| <==> AllDigits(xs) && Num(xs[..|xs| - 1]) < 10_000
  {
    assert xs[..|xs|] == xs;
    if k < |xs| && AllDigits(xs) {
      NumMonotone(xs, k, |xs| - 1);
    }
  }

  /** The exponent's digits and what stands in front of them. */
  lemma ExponentShape(rest: string, xs: string, k: nat, n: int)
    requires |rest| >= 2 && (rest[0] == 'E' || rest[0] == 'e')
    requires xs == if rest[1] == '-' || rest[1] == '+' then rest[2..] else rest[1..]
    requires xs != "" && k <= |xs| && AllDigits(xs[..k]) && n == Num(xs[..k])
    requires k == |xs| || n >= 10_000
    requires k > 0 ==> AllDigits(xs[..k - 1]) && Num(xs[..k - 1]) < 10_000
    ensures ReadExp(rest) == if k == |xs| then Some(Some(if rest[1] == '-' then -n else n)) else None
  {
    ExponentConsumed(xs, k);
    assert xs[..|xs|] == xs;
  }

  /** Dividing out powers of ten can be done in several steps. */
  lemma DivideInSteps(c: nat, p: nat, q: nat)
    requires p > 0 && q > 0
    ensures p * q > 0
    ensures c % (p * q) == 0 <==> c % p == 0 && c / p % q == 0
    ensures c % (p * q) == 0 ==> c / (p * q) == c / p / q
  {
    MulMonotone(1, p, q);
    var d, r := c / p, c % p;
    var d', r' := d / q, d % q;
    DivModDefinition(c, p);
    DivModDefinition(d, q);
    MulStep(d', q, r', p, r);
    MulMonotone(0, r', p);
    MulGap(r', q, p);
    DivModUnique(c, p * q, d', r' * p + r);
    if r' > 0 {
      MulMonotone(1, r', p);
    }
  }

  lemma MulStep(d: int, q: int, r: int, p: int, s: int)
    ensures (d * q + r) * p + s == d * (p * q) + (r * p + s)
  {
  }

  /** Dividing by 10^k while the exponent is k too low does not change the outcome. */
  lemma FoldLowStep(c: nat, e: int, k: nat)
    requires e + k <= -BIAS && k >= 1
    ensures c % Pow10(k) != 0 ==> FoldExp(c, e).None?
    ensures c % Pow10(k) == 0 ==> FoldExp(c, e) == FoldExp(c / Pow10(k), e + k)
  {
    var m := -BIAS - e - k;
    Pow10Add(k, m);
    DivideInSteps(c, Pow10(k), Pow10(m));
    if m == 0 {
      assert Pow10(0) == 1;
    }
  }

  /** The power of ten the next division or multiplication uses. */
  method NextPower(room: nat) returns (p: u32, k: nat)
    requires room > 0
    ensures k == (if room < 9 then room else 9) && p == Pow10(k)
  {
    p, k := 1, 0;
    while p < 1_000_000_000 && k < room
      invariant k <= room && k <= 9 && p == Pow10(k)
    {
      PowerOpen(p, k);
      p := p * 10;
      k := k + 1;
    }
    NineDigits();
  }

  lemma PowerOpen(p: nat, k: nat)
    requires k <= 9 && p == Pow10(k) && p < 1_000_000_000
    ensures k < 9 && Pow10(k + 1) == p * 10 && p * 10 <= 1_000_000_000
  {
    NineDigits();
    PowerStep(if k < 9 then k else 8);
  }

  /** Subnormal numbers: divides by powers of ten as long as nothing is lost. */
  method FoldLow(h0: u64, l0: u64, e0: int) returns (ok: bool, h: u64, l: u64, e: int)
    ensures ok ==> FoldExp(Wide(h0, l0), e0) == FoldExp(Wide(h, l), e) && e >= -BIAS
    ensures ok ==> Wide(h, l) <= Wide(h0, l0)
    ensures !ok ==> FoldExp(Wide(h0, l0), e0) == None
  {
    hide FoldExp, Clamp, Wide, DivMod, Pow10;
    ok, h, l, e := true, h0, l0, e0;
    while e < -BIAS
      invariant FoldExp(Wide(h0, l0), e0) == FoldExp(Wide(h, l), e) && Wide(h, l) <= Wide(h0, l0)
      decreases -BIAS - e
    {
      var div, k := NextPower(-BIAS - e);
      FoldLowStep(Wide(h, l), e, k);
      DivModIsDivision(h, l, div);
      QuotientAtMost(Wide(h, l), div);
      var q := DivMod(h, l, div);
      h, l, e := q.0, q.1, e + k;
      if q.2 > 0 {
        ok := false;
        return;
      }
    }
  }

  lemma ClampStep(h: u64, l: u64, e: int, mul: u32, k: nat)
    requires e > MAX_EXP && k == (if e - MAX_EXP < 9 then e - MAX_EXP else 9) && mul == Pow10(k)
    ensures var r := MulAdd(h, l, mul, 0);
      && r.2 == 0
      && Clamp(Wide(h, l), e) == if TooWide(r.0) then None else Clamp(Wide(r.0, r.1), e - k)
  {
    var r := MulAdd(h, l, mul, 0);
    TooWideIff(r.0, r.1);
  }

  /** Exponents that are too large: multiplies by powers of ten. */
  method FoldHigh(h0: u64, l0: u64, e0: int) returns (ok: bool, h: u64, l: u64, e: int)
    ensures ok ==> Clamp(Wide(h0, l0), e0) == Some((Wide(h, l), e))
    ensures !ok ==> Clamp(Wide(h0, l0), e0) == None
  {
    hide Clamp, Wide, MulAdd, Pow10;
    ok, h, l, e := true, h0, l0, e0;
    while e > MAX_EXP
      invariant Clamp(Wide(h0, l0), e0) == Clamp(Wide(h, l), e)
    {
      var mul, k := NextPower(e - MAX_EXP);
      ClampStep(h, l, e, mul, k);
      var r := MulAdd(h, l, mul, 0);
      h, l, e := r.0, r.1, e - k;
      if r.2 > 0 || TooWide(h) {
        ok := false;
        return;
      }
    }
    ClampDone(Wide(h, l), e);
  }

  lemma ClampDone(c: nat, e: int)
    requires e <= MAX_EXP
    ensures Clamp(c, e) == Some((c, e))
  {
  }

  lemma NoExponent(rest: string)
    ensures rest == "" ==> ReadExp(rest) == Some(None)
    ensures rest != "" && !(|rest| >= 2 && (rest[0] == 'E' || rest[0] == 'e')) ==> ReadExp(rest) == None
  {
  }

  lemma BadExponent(rest: string, xs: string)
    requires |rest| >= 2 && (rest[0] == 'E' || rest[0] == 'e')
    requires xs == if rest[1] == '-' || rest[1] == '+' then rest[2..] else rest[1..]
    requires xs == "" || !AllDigits(xs)
    ensures ReadExp(rest) == None
  {
  }

  /** Ties what the scan found to the literal and its fit. */
  lemma FoundFit(t: string, whole: string, frac: string, i: nat, h: u64, l: u64, e: int)
    requires Found(t, whole, frac, i, h, l, e)
    ensures ReadExp(t[i..]) == None ==> ReadLiteral(t) == None
    ensures ReadExp(t[i..]) == Some(None) ==>
      ReadLiteral(t).Some? && Fit(ReadLiteral(t).value) == Some((Wide(h, l), e))
    ensures ReadExp(t[i..]).Some? && ReadExp(t[i..]).value.Some? ==>
      ReadLiteral(t).Some? && Fit(ReadLiteral(t).value) == FoldExp(Wide(h, l), e + ReadExp(t[i..]).value.value)
    ensures Wide(h, l) < P113 && i <= |t|
  {
    hide Num, Excess, FoldExp, ReadExp, ReadLiteral, ExactlyRounded, Wide;
    KeptBound(whole + frac);
  }

  lemma PackWords(neg: bool, h: u64, l: u64, e: int)
    requires Wide(h, l) < P113
    ensures h + (e + BIAS) % EXP_MASK * P49 + (if neg then P63 else 0) < W64
    ensures Pack(neg, Wide(h, l), e) == Decimal128(h + (e + BIAS) % EXP_MASK * P49 + (if neg then P63 else 0), l)
  {
    DivModUnique(Wide(h, l), W64, h, l);
  }

  lemma UnsignedOutcome(neg: bool, t: string)
    ensures ReadLiteral(t).None? || Fit(ReadLiteral(t).value).None? ==> ParseUnsigned(neg, t) == None
    ensures ReadLiteral(t).Some? && Fit(ReadLiteral(t).value).Some? ==>
      var (c, e) := Fit(ReadLiteral(t).value).value; c < P113 && ParseUnsigned(neg, t) == Some(Pack(neg, c, e))
    ensures Rejected(t) ==> ParseUnsigned(neg, t) == None
  {
    if ReadLiteral(t).Some? {
      FitBound(ReadLiteral(t).value);
    }
  }

  /** Reads and folds in the exponent part t[i..]. */
  method ReadExponent(t: string, i: nat, h0: u64, l0: u64, e0: int)
    returns (ok: bool, h: u64, l: u64, e: int)
    requires i <= |t| && Wide(h0, l0) < P113
    ensures ok && ReadExp(t[i..]) == Some(None) ==> h == h0 && l == l0 && e == e0
    ensures ok ==> ReadExp(t[i..]).Some?
    ensures ok && ReadExp(t[i..]).value.Some? ==>
      FoldExp(Wide(h0, l0), e0 + ReadExp(t[i..]).value.value) == Some((Wide(h, l), e))
    ensures !ok && ReadExp(t[i..]).Some? ==>
      ReadExp(t[i..]).value.Some? && FoldExp(Wide(h0, l0), e0 + ReadExp(t[i..]).value.value) == None
  {
    hide *;
    ok, h, l, e := false, h0, l0, e0;
    ghost var rest := t[i..];
    NoExponent(rest);
    if i + 1 < |t| && (t[i] == 'E' || t[i] == 'e') {
      var j := i + 1;
      var eneg := t[j] == '-';
      if eneg || t[j] == '+' {
        j := j + 1;
      }
      ghost var xs := t[j..];
      assert xs == if rest[1] == '-' || rest[1] == '+' then rest[2..] else rest[1..];
      if j == |t| {
        BadExponent(rest, xs);
        return;
      }
      var fine, k, m := ScanExponent(t[j..]);
      if !fine {
        BadExponent(rest, xs);
        return;
      }
      var n: int := m;
      ExponentShape(rest, xs, k, n);
      if eneg {
        n := -n;
      }
      ghost var written := e0 + n;
      fine, h, l, e := FoldLow(h0, l0, e0 + n);
      if fine {
        FoldHighFirst(Wide(h, l), e);
        fine, h, l, e := FoldHigh(h, l, e);
      }
      if !fine {
        return;
      }
      FoldExpBound(Wide(h0, l0), written);
      if e < -BIAS || e > MAX_EXP {
        return;
      }
      ok := j + k == |t|;
    } else {
      ok := i == |t|;
    }
  }

  lemma FoldHighFirst(c: nat, e: int)
    requires e >= -BIAS
    ensures FoldExp(c, e) == Clamp(c, e)
  {
  }

  /** ParseDecimal128. */
  method ParseDecimal128(s: string) returns (r: Option<Decimal128>)
    ensures r == Parse(s)
  {
    hide ParseUnsigned, Pack, ReadLiteral, Fit, Rejected, FoldExp, ReadExp, Wide, Found, Lower;
    if s == "" {
      EmptyFails(false);
      return None;
    }
    var t := s;
    var neg := s[0] == '-';
    if neg || s[0] == '+' {
      t := s[1..];
    }
    if (|t| == 3 || |t| == 8) && (t[0] == 'N' || t[0] == 'n' || t[0] == 'I' || t[0] == 'i') {
      if Lower(t) == "nan" {
        return Some(NAN);
      }
      if Lower(t) == "inf" || Lower(t) == "infinity" {
        if neg {
          return Some(Decimal128(0x3E * P58, 0));
        }
        return Some(Decimal128(0x1E * P58, 0));
      }
      return None;
    }
    var ok, h, l, i, e;
    ghost var whole, frac;
    ok, h, l, i, e, whole, frac := ScanDigits(t);
    UnsignedOutcome(neg, t);
    if !ok {
      return None;
    }
    FoundFit(t, whole, frac, i, h, l, e);
    ok, h, l, e := ReadExponent(t, i, h, l, e);
    if !ok {
      return None;
    }
    PackWords(neg, h, l, e);
    h := h + (e + BIAS) % EXP_MASK * P49;
    if neg {
      h := h + P63;
    }
    return Some(Decimal128(h, l));
  }

  lemma EmptyFails(neg: bool)
    ensures ParseUnsigned(neg, "") == None
  {
  }
}
