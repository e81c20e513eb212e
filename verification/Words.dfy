/** Unsigned machine words, and the 128-by-32-bit arithmetic built from them. */
module Words {
  import opened Numerals

  const W32: nat := 0x1_0000_0000
  const W64: nat := 0x1_0000_0000_0000_0000
  const W128: nat := 0x1_0000_0000_0000_0000_0000_0000_0000_0000

  type u32 = x: nat | x < 0x1_0000_0000
  type u64 = x: nat | x < 0x1_0000_0000_0000_0000

  /** The 128-bit number held in a high and a low word. */
  function Wide(h: u64, l: u64): (v: nat)
    ensures v < W128
  {
    h * W64 + l
  }

  /** One step of schoolbook long division in base 2^32: quotient digit and remainder. */
  function LongDivisionStep(carry: nat, low: nat, div: nat): (r: (nat, nat))
    requires 0 < div < W32 && carry < div && low < W32
    ensures r.0 < W32 && r.1 < div && r.0 * div + r.1 == carry * W32 + low
  {
    var b: u64 := carry * W32 + low;
    var q := b / div;
    QuotientBound(b, div);
    (q, b % div)
  }

  lemma QuotientBound(b: nat, div: nat)
    requires 0 < div && b < div * W32
    ensures b / div < W32 && b / div * div + b % div == b
  {
    var q := b / div;
    if q >= W32 {
      MulMonotone(W32, q, div);
    }
  }

  lemma LongDivisionSum(aq: nat, bq: nat, cq: nat, dq: nat, div: nat)
    ensures ((aq * W32 + bq) * W64 + (cq * W32 + dq)) * div
         == (aq * div) * W32 * W64 + (bq * div) * W64 + (cq * div) * W32 + dq * div
  {
  }

  /** Divides the 128-bit (h, l) by div, four 32-bit digits at a time. */
  function DivMod(h: u64, l: u64, div: u32): (r: (u64, u64, u32))
    requires div > 0
    ensures Wide(r.0, r.1) * div + r.2 == Wide(h, l)
    ensures r.2 < div
  {
    var a := LongDivisionStep(0, h / W32, div);
    var b := LongDivisionStep(a.1, h % W32, div);
    var c := LongDivisionStep(b.1, l / W32, div);
    var d := LongDivisionStep(c.1, l % W32, div);
    LongDivisionSum(a.0, b.0, c.0, d.0, div);
    (a.0 * W32 + b.0, c.0 * W32 + d.0, d.1)
  }

  /** The quotient and remainder of DivMod are the mathematical ones. */
  lemma DivModIsDivision(h: u64, l: u64, div: u32)
    requires div > 0
    ensures Wide(DivMod(h, l, div).0, DivMod(h, l, div).1) == Wide(h, l) / div
    ensures DivMod(h, l, div).2 == Wide(h, l) % div
  {
    var r := DivMod(h, l, div);
    DivModUnique(Wide(h, l), div, Wide(r.0, r.1), r.2);
  }

  lemma WordProduct(m: u32, x: u32)
    ensures 0 <= m * x <= 0xFFFF_FFFE_0000_0001
  {
    MulMonotone(0, m, x);
    MulMonotone(m, 0xFFFF_FFFF, x);
  }

  lemma MulWide(m: nat, h1: nat, h0: nat, l1: nat, l0: nat)
    ensures ((h1 * W32 + h0) * W64 + (l1 * W32 + l0)) * m
         == (m * h1) * W32 * W64 + (m * h0) * W64 + (m * l1) * W32 + m * l0
  {
  }

  /** Four columns of partial products, lowest first. */
  datatype Columns = Columns(k0: u64, k1: u64, k2: u64, k3: u64)

  /** The 128-bit number formed by the low halves of the columns. */
  function LowHalves(k: Columns): (v: nat)
    ensures v < W128
  {
    ((k.k3 % W32 * W32 + k.k2 % W32) * W32 + k.k1 % W32) * W32 + k.k0 % W32
  }

  /** The first pass of MulAdd: partial products with their high halves carried upwards. */
  function Products(h: u64, l: u64, mul: u32): (k: Columns)
    ensures k.k3 / W32 * W128 + LowHalves(k) == Wide(h, l) * mul
  {
    WordProduct(mul, l % W32);
    WordProduct(mul, l / W32);
    WordProduct(mul, h % W32);
    WordProduct(mul, h / W32);
    MulWide(mul, h / W32, h % W32, l / W32, l % W32);
    var a: u64 := mul * (l % W32);
    var b: u64 := a / W32 + mul * (l / W32);
    var c: u64 := b / W32 + mul * (h % W32);
    var d: u64 := c / W32 + mul * (h / W32);
    Columns(a, b, c, d)
  }

  /** The second pass of MulAdd: adding to the low column and carrying upwards. */
  function CarryUp(k: Columns, add: u32): (r: (u64, u64, u32))
    ensures LowHalves(k) + add == r.2 * W128 + Wide(r.0, r.1)
  {
    var a: u64 := k.k0 % W32 + add;
    var b: u64 := k.k1 % W32 + a / W32;
    var c: u64 := k.k2 % W32 + b / W32;
    var d: u64 := k.k3 % W32 + c / W32;
    (d % W32 * W32 + c % W32, b % W32 * W32 + a % W32, d / W32)
  }

  lemma CarryOut(p: nat, add: nat, top: nat, low: nat, carry: nat, sum: nat)
    requires p == top * W128 + low && low < W128
    requires low + add == carry * W128 + sum && sum < W128
    ensures (p + add) % W128 == sum && (p + add) / W128 - p / W128 == carry
  {
    DivModUnique(p, W128, top, low);
    DivModUnique(p + add, W128, top + carry, sum);
  }

  /** Multiplies (h, l) by mul and adds add. The third component is the carry
      that the second pass leaves; the word above the product is masked off. */
  function MulAdd(h: u64, l: u64, mul: u32, add: u32): (r: (u64, u64, u32))
    ensures Wide(r.0, r.1) == (Wide(h, l) * mul + add) % W128
    ensures r.2 == (Wide(h, l) * mul + add) / W128 - Wide(h, l) * mul / W128
  {
    var k := Products(h, l, mul);
    var r := CarryUp(k, add);
    CarryOut(Wide(h, l) * mul, add, k.k3 / W32, LowHalves(k), r.2, Wide(r.0, r.1));
    r
  }

  /** The carry is exact precisely when the product alone fits in 128 bits: a
      larger product loses its top word without any trace in the carry. */
  lemma MulAddExactIff(h: u64, l: u64, mul: u32, add: u32)
    ensures var r := MulAdd(h, l, mul, add);
      r.2 * W128 + Wide(r.0, r.1) == Wide(h, l) * mul + add <==> Wide(h, l) * mul < W128
  {
    var r := MulAdd(h, l, mul, add);
    var p := Wide(h, l) * mul;
    assert p + add == (p + add) / W128 * W128 + (p + add) % W128;
    assert r.2 == (p + add) / W128 - p / W128;
    assert p / W128 == 0 <==> p < W128;
  }
}
