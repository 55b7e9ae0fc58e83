/** The fixed-point division: shift and subtract on 64 bits in place of a divide the CPU lacks. */
module FixedPoint {
  import opened Bits

  const TWO64: nat := 0x1_0000_0000_0000_0000

  type UInt64 = d: int | 0 <= d < TWO64
  type Signed = s: int | -0x8000_0000 <= s < 0x8000_0000

  // Floor division told by the remainder it leaves.
  lemma QuotientIs(n: nat, base: nat, q: nat, r: nat)
    requires base > 0 && n == base * q + r && r < base
    ensures n / base == q
  {
    assert n == q * base + r;
    DivModUnique(q, r, base);
  }

  // Taking whole bases out of the high half first changes nothing.
  lemma HighFirst(n: nat, base: nat, h: nat)
    requires base > 0 && n >= h * base * TWO32
    ensures n / base == h * TWO32 + (n - h * base * TWO32) / base
  {
    var rest := n - h * base * TWO32;
    var q, r := rest / base, rest % base;
    assert rest == base * q + r;
    assert base * (h * TWO32 + q) == h * base * TWO32 + base * q;
    QuotientIs(n, base, h * TWO32 + q, r);
  }

  // Doubles the divisor as far as it stays useful. A set top bit ends it: nothing is above that.
  method DoubleUp(rem: UInt64, base: Word) returns (b: UInt64, d: UInt64, ghost k: nat)
    requires base > 0
    ensures b == base * d && d == Pow2(k) && rem < 2 * b
  {
    b, d, k := base, 1, 0;
    assert b == base * d;
    while b < 0x8000_0000_0000_0000 && b < rem
      invariant b == base * d && d == Pow2(k) && 0 < b
      decreases rem - b
    {
      assert base * (d + d) == b + b;
      assert d <= b by { MulMono(1, base, d); }
      b, d, k := b + b, d + d, k + 1;
    }
  }

  // Subtracts its way back down, collecting the powers of two that fit.
  method SubtractDown(rem0: UInt64, base: Word, b0: UInt64, d0: UInt64, res0: nat, ghost k0: nat) returns (res: nat)
    requires base > 0 && b0 == base * d0 && d0 == Pow2(k0) && rem0 < 2 * b0
    ensures res == res0 + rem0 / base
  {
    var rem: nat, b: nat, d: nat := rem0, b0, d0;
    ghost var k := k0;
    res := res0;
    assert base * (res - res0) == 0;
    while d > 0
      invariant res >= res0 && rem0 == base * (res - res0) + rem
      invariant if d > 0 then b == base * d && d == Pow2(k) && rem < 2 * b else rem < base
      decreases d
    {
      if rem >= b {
        rem := rem - b;
        res := res + d;
      }
      if k > 0 {
        Bits.Double(base, Pow2(k - 1));
        k := k - 1;
      } else {
        assert d == 1;
      }
      b, d := b / 2, d / 2;
    }
    QuotientIs(rem0, base, res - res0, rem);
  }

  // The quotient of what a 64-bit product holds, in its low 32 bits.
  function Quotient(rem: UInt64, base: Word, scale: Word): Word
    requires base > 0
  {
    rem * scale % TWO64 / base % TWO32
  }

  // For all inputs but base 0.
  method IDiv(rem_: UInt64, base: Word, scale: Word) returns (r: Word)
    requires base > 0
    ensures r == Quotient(rem_, base, scale)
  {
    var rem: UInt64 := rem_ * scale % TWO64;
    ghost var n: nat := rem;
    var high := rem / TWO32;
    var res: nat := 0;
    if high >= base {
      high := high / base;
      HighFirst(n, base, high);
      res := high * TWO32;
      rem := rem - high * base * TWO32;
    }
    var b, d;
    ghost var k;
    b, d, k := DoubleUp(rem, base);
    res := SubtractDown(rem, base, b, d, res, k);
    r := res % TWO32;
  }

  // C's conversion of 32 bits to a signed int.
  function AsSigned(w: Word): Signed {
    if w < 0x8000_0000 then w else w - TWO32
  }

  // The product of a 32-bit quotient and a sign, in 32 bits.
  function TimesSign(w: Word, s: int): Word {
    w * s % TWO32
  }

  function Abs(a: int): nat {
    if a < 0 then -a else a
  }

  // The quotient rounded toward zero.
  function Truncated(a: int, b: int): int
    requires b != 0
  {
    if (a < 0) == (b < 0) then Abs(a) / Abs(b) else -(Abs(a) / Abs(b))
  }

  // The signed division: the exact quotient rounded toward zero whenever that fits 32 bits.
  method DDiv(a_: Signed, b_: Signed, scale: Word) returns (r: Signed)
    requires b_ != 0 && a_ != -0x8000_0000 && b_ != -0x8000_0000
    ensures var q := Truncated(a_ * scale, b_);
      -0x8000_0000 <= q < 0x8000_0000 ==> r == q
  {
    hide AsSigned;
    hide TimesSign;
    hide Quotient;
    hide Truncated;
    var s, a: int, b: int := 1, a_, b_;
    if a < 0 { a, s := -a, -1; }
    if b < 0 { b, s := -b, -s; }
    var w := IDiv(a, b, scale);
    r := AsSigned(TimesSign(w, s));
    QuotientSigned(a_, b_, scale, a, b, s, w, r);
  }

  lemma QuotientSigned(a_: Signed, b_: Signed, scale: Word, a: nat, b: nat, s: int, w: Word, r: Signed)
    requires b_ != 0 && a == Abs(a_) < 0x8000_0000 && b == Abs(b_)
    requires s == if (a_ < 0) == (b_ < 0) then 1 else -1
    requires w == Quotient(a, b, scale) && r == AsSigned(TimesSign(w, s))
    ensures var q := Truncated(a_ * scale, b_);
      -0x8000_0000 <= q < 0x8000_0000 ==> r == q
  {
    hide Truncated;
    hide AsSigned;
    ProductFits(a, scale);
    TruncatedIs(a_, b_, scale, a, b, s);
    SignedBack(a * scale / b, w, s);
  }

  lemma TruncatedIs(a_: int, b_: int, scale: Word, a: nat, b: nat, s: int)
    requires b_ != 0 && a == Abs(a_) && b == Abs(b_) && s == if (a_ < 0) == (b_ < 0) then 1 else -1
    ensures Truncated(a_ * scale, b_) == a * scale / b * s
  {
    var p, q := a * scale, a * scale / b;
    assert a_ * scale == if a_ < 0 then -p else p;
    assert p >= 0 && q >= 0;
    if p == 0 { assert 0 / b == 0; }
  }

  lemma ProductFits(a: nat, scale: Word)
    requires a < 0x8000_0000
    ensures a * scale < TWO64 && a * scale % TWO64 == a * scale
  {
    MulMono(a, 0x8000_0000, scale);
  }

  lemma SignedBack(q: nat, w: Word, s: int)
    requires w == q % TWO32 && (s == 1 || s == -1)
    ensures -0x8000_0000 <= q * s < 0x8000_0000 ==> AsSigned(TimesSign(w, s)) == q * s
  {
  }
}
