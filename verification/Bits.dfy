/** Most-significant-first bit strings and the unsigned arithmetic that C's shifts spell. */
module Bits {

  type Bit = b: int | 0 <= b <= 1
  type Byte = b: int | 0 <= b < 256
  type Half = h: int | 0 <= h < 0x1_0000
  type Word = w: int | 0 <= w < 0x1_0000_0000

  const TWO32: nat := 0x1_0000_0000

  function Pow2(n: nat): (p: nat)
    ensures p > 0
  {
    if n == 0 then 1 else 2 * Pow2(n - 1)
  }

  lemma {:induction false} Pow2Add(a: nat, b: nat)
    ensures Pow2(a + b) == Pow2(a) * Pow2(b)
  {
    if b == 0 {
    } else {
      Pow2Add(a, b - 1);
      assert Pow2(a + b) == 2 * (Pow2(a) * Pow2(b - 1));
      assert 2 * (Pow2(a) * Pow2(b - 1)) == Pow2(a) * (2 * Pow2(b - 1));
    }
  }

  lemma Pow2Values()
    ensures Pow2(9) == 512 && Pow2(10) == 1024 && Pow2(16) == 0x1_0000 && Pow2(23) == 0x80_0000
    ensures Pow2(21) == 0x20_0000 && Pow2(31) == 0x8000_0000 && Pow2(32) == TWO32
  {
    assert Pow2(4) == 16;
    assert Pow2(8) == 256 by { Pow2Add(4, 4); }
    assert Pow2(9) == 512;
    assert Pow2(10) == 1024;
    assert Pow2(16) == 0x1_0000 by { Pow2Add(8, 8); }
    assert Pow2(18) == 0x4_0000 by { assert Pow2(17) == 0x2_0000; }
    assert Pow2(21) == 0x20_0000;
    assert Pow2(23) == 0x80_0000 by { assert Pow2(5) == 32; Pow2Add(18, 5); }
    assert Pow2(32) == TWO32 by { Pow2Add(16, 16); }
  }

  lemma SmallPowers()
    ensures Pow2(0) == 1 && Pow2(1) == 2 && Pow2(2) == 4 && Pow2(3) == 8 && Pow2(4) == 16
    ensures Pow2(5) == 32 && Pow2(6) == 64 && Pow2(7) == 128 && Pow2(8) == 256
  {
  }

  // The number a bit string spells, most significant bit first.
  function Val(s: seq<Bit>): nat {
    if s == [] then 0 else 2 * Val(s[..|s| - 1]) + s[|s| - 1]
  }

  // The low n bits of v, most significant first.
  function BitsOf(v: nat, n: nat): (s: seq<Bit>)
    ensures |s| == n
  {
    if n == 0 then [] else BitsOf(v / 2, n - 1) + [v % 2]
  }

  function Zeros(n: nat): (s: seq<Bit>)
    ensures |s| == n && forall i :: 0 <= i < n ==> s[i] == 0
  {
    seq(n, _ => 0)
  }

  predicate AllZero(s: seq<Bit>) {
    forall i :: 0 <= i < |s| ==> s[i] == 0
  }

  lemma Double(x: nat, p: nat)
    ensures 2 * (x * p) == x * (2 * p)
  {
  }

  lemma {:induction false} ValConcat(a: seq<Bit>, b: seq<Bit>)
    ensures Val(a + b) == Val(a) * Pow2(|b|) + Val(b)
  {
    if b == [] {
      assert a + b == a;
    } else {
      var b' := b[..|b| - 1];
      assert (a + b)[..|a + b| - 1] == a + b';
      ValConcat(a, b');
      Double(Val(a), Pow2(|b'|));
    }
  }

  lemma {:induction false} ValBound(s: seq<Bit>)
    ensures Val(s) < Pow2(|s|)
  {
    if s != [] {
      ValBound(s[..|s| - 1]);
    }
  }

  lemma {:induction false} ValZero(s: seq<Bit>)
    ensures Val(s) == 0 <==> AllZero(s)
  {
    if s != [] {
      ValZero(s[..|s| - 1]);
      assert s == s[..|s| - 1] + [s[|s| - 1]];
    }
  }

  lemma {:induction false} BitsOfVal(s: seq<Bit>)
    ensures BitsOf(Val(s), |s|) == s
  {
    if s != [] {
      BitsOfVal(s[..|s| - 1]);
      assert Val(s) / 2 == Val(s[..|s| - 1]);
    }
  }

  lemma {:induction false} ValBitsOf(v: nat, n: nat)
    requires v < Pow2(n)
    ensures Val(BitsOf(v, n)) == v
  {
    if n > 0 {
      ValBitsOf(v / 2, n - 1);
      assert BitsOf(v, n)[..n - 1] == BitsOf(v / 2, n - 1);
    }
  }

  lemma MulMono(a: int, b: int, d: nat)
    requires a <= b
    ensures a * d <= b * d
  {
  }

  lemma DivModUnique(q: nat, r: nat, d: nat)
    requires r < d
    ensures (q * d + r) / d == q && (q * d + r) % d == r
  {
    var q' := (q * d + r) / d;
    if q' < q {
      MulMono(q' + 1, q, d);
    } else if q < q' {
      MulMono(q + 1, q', d);
    }
  }

  function Least(a: nat, b: nat): nat {
    if a < b then a else b
  }

  // A counter kept modulo 2^32 adds as the full one does.
  lemma AddMod(len: nat, total: nat, b: nat)
    requires len == total % TWO32
    ensures (len + b) % TWO32 == (total + b) % TWO32
  {
  }

  // C's shifts of a 32-bit operand, defined for amounts 0..31 only.
  function Shl(w: Word, k: nat): Word
    requires k <= 31
    decreases k, w
  {
    if k == 0 then w else Shl((2 * w) % TWO32, k - 1)
  }

  function Shr(w: Word, k: nat): Word
    requires k <= 31
    decreases k, w
  {
    if k == 0 then w else Shr(w / 2, k - 1)
  }

  lemma DivTwice(w: nat, p: nat)
    requires p > 0
    ensures (w / 2) / p == w / (2 * p)
  {
    var q, r := (w / 2) / p, (w / 2) % p;
    assert w / 2 == q * p + r;
    assert q * (2 * p) == 2 * (q * p);
    DivModUnique(q, 2 * r + w % 2, 2 * p);
  }

  lemma {:induction false} ShrDivides(w: Word, k: nat)
    requires k <= 31
    ensures Shr(w, k) == w / Pow2(k)
    decreases k
  {
    if k > 0 {
      ShrDivides(w / 2, k - 1);
      DivTwice(w, Pow2(k - 1));
    }
  }

  lemma {:induction false} TopOfBits(v: nat, n: nat, k: nat)
    requires k <= n
    ensures BitsOf(v, n)[..k] == BitsOf(v / Pow2(n - k), k)
    decreases n
  {
    if k < n {
      TopOfBits(v / 2, n - 1, k);
      assert BitsOf(v, n)[..k] == BitsOf(v / 2, n - 1)[..k];
      DivTwice(v, Pow2(n - 1 - k));
    } else {
      assert BitsOf(v, n)[..n] == BitsOf(v, n);
    }
  }

  lemma TopFits(v: nat, n: nat, k: nat)
    requires k <= n && v < Pow2(n)
    ensures v / Pow2(n - k) < Pow2(k)
  {
    var q, d := v / Pow2(n - k), Pow2(n - k);
    Pow2Add(k, n - k);
    assert q * d <= v;
    if Pow2(k) <= q {
      MulMono(Pow2(k), q, d);
    }
  }

  lemma ValIsWord(s: seq<Bit>)
    requires |s| <= 32
    ensures Val(s) < TWO32
  {
    ValBound(Zeros(32 - |s|) + s);
    ValConcat(Zeros(32 - |s|), s);
    Pow2Values();
    ValZero(Zeros(32 - |s|));
  }

  lemma ShiftOne(s: seq<Bit>)
    requires |s| == 32
    ensures Val(s) < TWO32
    ensures (2 * Val(s)) % TWO32 == Val(s[1..] + [0])
  {
    ValIsWord(s);
    var rest := s[1..];
    assert Val(s) == s[0] * 0x8000_0000 + Val(rest) by {
      assert s == [s[0]] + rest;
      ValConcat([s[0]], rest);
      Pow2Values();
    }
    assert Val(rest) < 0x8000_0000 by {
      ValBound(rest);
      Pow2Values();
    }
    assert (rest + [0])[..31] == rest;
  }

  // A left shift in a 32-bit register drops the top k bits and feeds zeros in.
  lemma {:induction false} ShlBits(s: seq<Bit>, k: nat)
    requires |s| == 32 && k <= 31
    ensures Val(s) < TWO32 && Shl(Val(s), k) == Val(s[k..] + Zeros(k))
    decreases k
  {
    ValIsWord(s);
    if k == 0 {
      assert s[0..] + Zeros(0) == s;
    } else {
      ShiftOne(s);
      ShlBits(s[1..] + [0], k - 1);
      assert (s[1..] + [0])[k - 1..] + Zeros(k - 1) == s[k..] + Zeros(k);
    }
  }

  // A right shift keeps the bits above the k lowest.
  lemma {:induction false} ShrBits(s: seq<Bit>, k: nat)
    requires k <= |s| <= 32 && k <= 31
    ensures Val(s) < TWO32 && Shr(Val(s), k) == Val(s[..|s| - k])
    decreases k
  {
    ValIsWord(s);
    if k == 0 {
      assert s[..|s|] == s;
    } else {
      ShrBits(s[..|s| - 1], k - 1);
      assert s[..|s| - 1][..|s| - k] == s[..|s| - k];
    }
  }

  // Bitwise or of two unsigned values.
  function BitOr(a: nat, b: nat): nat
    decreases a + b
  {
    if a == 0 then b else if b == 0 then a
    else 2 * BitOr(a / 2, b / 2) + (if a % 2 == 1 || b % 2 == 1 then 1 else 0)
  }

  function OrBits(a: seq<Bit>, b: seq<Bit>): (c: seq<Bit>)
    requires |a| == |b|
    ensures |c| == |a|
  {
    seq<Bit>(|a|, i requires 0 <= i < |a| => if a[i] == 1 then 1 else b[i])
  }

  lemma {:induction false} ValOr(a: seq<Bit>, b: seq<Bit>)
    requires |a| == |b|
    ensures BitOr(Val(a), Val(b)) == Val(OrBits(a, b))
  {
    if Val(a) == 0 {
      ValZero(a);
      assert OrBits(a, b) == b;
    } else if Val(b) == 0 {
      ValZero(b);
      assert OrBits(a, b) == a;
    } else {
      var n := |a| - 1;
      ValOr(a[..n], b[..n]);
      assert OrBits(a, b)[..n] == OrBits(a[..n], b[..n]);
    }
  }

  // Byte j of a word, counted from the low end.
  function ByteOfWord(w: Word, j: nat): Byte
    requires j < 4
  {
    match j
    case 0 => w % 0x100
    case 1 => w / 0x100 % 0x100
    case 2 => w / 0x1_0000 % 0x100
    case _ => w / 0x100_0000
  }

  lemma WordSpells(b0: Byte, b1: Byte, b2: Byte, b3: Byte)
    ensures var w := b0 + 0x100 * b1 + 0x1_0000 * b2 + 0x100_0000 * b3;
      ByteOfWord(w, 0) == b0 && ByteOfWord(w, 1) == b1 && ByteOfWord(w, 2) == b2 && ByteOfWord(w, 3) == b3
  {
    var r1: nat, r2: nat := b1 + 0x100 * b2 + 0x1_0000 * b3, b2 + 0x100 * b3;
    DivModUnique(r1, b0, 0x100);
    DivModUnique(r2, b1, 0x100);
    DivModUnique(b3, b2, 0x100);
    DivModUnique(r2, b0 + 0x100 * b1, 0x1_0000);
    DivModUnique(b3, b0 + 0x100 * b1 + 0x1_0000 * b2, 0x100_0000);
  }
}
