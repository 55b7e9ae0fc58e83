/** The frame checksum: two 32-bit accumulators with the modulo left to the end. */
module Fletcher {
  import opened Bits

  const M: nat := 65535

  datatype Sums = Sums(s1: Word, s2: Word)

  const FRESH := Sums(0, 0)

  // One word into both accumulators, with C's wrap-around.
  function Add(s: Sums, w: Half): Sums {
    var s1 := (s.s1 + w) % TWO32;
    Sums(s1, (s.s2 + s1) % TWO32)
  }

  function Sum(s: Sums, words: seq<Half>): Sums
    decreases |words|
  {
    if words == [] then s else Sum(Add(s, words[0]), words[1..])
  }

  lemma {:induction false} SumAppends(s: Sums, a: seq<Half>, b: seq<Half>)
    ensures Sum(s, a + b) == Sum(Sum(s, a), b)
    decreases |a|
  {
    if a == [] {
      assert a + b == b;
    } else {
      assert (a + b)[1..] == a[1..] + b;
      SumAppends(Add(s, a[0]), a[1..], b);
    }
  }

  // The checksum sent: the residues side by side, and never 0.
  function Finish(s: Sums): (ck: Word) {
    var ck := s.s2 % M * 0x1_0000 + s.s1 % M;
    if ck == 0 then 0xffff_ffff else ck
  }

  // The first sum's residue is the low half and the second's the high half, but for the pair of
  // zeros, which is sent as all ones.
  lemma FinishHalves(s: Sums)
    ensures var ck, lo, hi := Finish(s), s.s1 % M, s.s2 % M;
            if lo == 0 && hi == 0 then ck == 0xffff_ffff else ck % 0x1_0000 == lo && ck / 0x1_0000 == hi
  {
    DivModUnique(s.s2 % M, s.s1 % M, 0x1_0000);
  }

  // It is never 0, and different pairs of residues give different checksums.
  lemma FinishInjective(s: Sums, t: Sums)
    ensures Finish(s) != 0
    ensures Finish(s) == Finish(t) <==> s.s1 % M == t.s1 % M && s.s2 % M == t.s2 % M
  {
    FinishSplits(s.s1 % M, s.s2 % M, t.s1 % M, t.s2 % M);
  }

  lemma FinishSplits(a: nat, b: nat, c: nat, d: nat)
    requires a < M && b < M && c < M && d < M
    ensures b * 0x1_0000 + a == d * 0x1_0000 + c <==> a == c && b == d
    ensures b * 0x1_0000 + a < 0xffff_ffff
  {
  }

  // --- what the sums would be without the wrap ----------------------------------------------------

  function Total(words: seq<Half>): nat {
    if words == [] then 0 else words[0] as nat + Total(words[1..])
  }

  // Every word counts once for itself and once for each word after it.
  function Weighted(words: seq<Half>): nat {
    if words == [] then 0 else |words| * words[0] as nat + Weighted(words[1..])
  }

  lemma {:induction false} TotalBound(words: seq<Half>)
    ensures Total(words) <= M * |words|
  {
    if words != [] { TotalBound(words[1..]); }
  }

  lemma {:induction false} WeightedBound(words: seq<Half>)
    ensures 2 * Weighted(words) <= M * (|words| * (|words| + 1))
  {
    if words != [] {
      WeightedBound(words[1..]);
      var n := |words|;
      assert 2 * (n * words[0] as nat) <= 2 * (n * M) by { Scale(words[0] as nat, M, n); }
      assert M * (n * (n + 1)) == M * ((n - 1) * n) + 2 * (n * M) by { Triangle(n); }
    }
  }

  lemma Scale(a: nat, b: nat, n: nat)
    requires a <= b
    ensures n * a <= n * b
  {
  }

  lemma Triangle(n: nat)
    ensures M * (n * (n + 1)) == M * ((n - 1) * n) + 2 * (n * M)
  {
    assert n * (n + 1) == (n - 1) * n + 2 * n;
  }

  lemma ModAdd(a: nat, b: nat, c: nat, m: nat)
    requires m > 0 && a % m == b % m
    ensures (a + c) % m == (b + c) % m
  {
    var p, q := a / m, b / m;
    assert a + c == p * m + (a % m + c) && b + c == q * m + (b % m + c);
    Multiple(p, a % m + c, m);
    Multiple(q, b % m + c, m);
  }

  lemma Multiple(p: nat, r: nat, m: nat)
    requires m > 0
    ensures (p * m + r) % m == r % m
  {
    var q, s := r / m, r % m;
    assert p * m + r == (p + q) * m + s;
    DivModUnique(p + q, s, m);
  }

  // The accumulators are those totals modulo 2^32, from any start.
  lemma {:induction false} SumIsTotals(s: Sums, words: seq<Half>)
    ensures Sum(s, words).s1 == (s.s1 + Total(words)) % TWO32
    ensures Sum(s, words).s2 == (s.s2 + |words| * s.s1 + Weighted(words)) % TWO32
    decreases |words|
  {
    hide Add;
    if words == [] {
      NoTotals(s);
    } else {
      var t, w, n := Add(s, words[0]), words[0] as nat, |words|;
      SumIsTotals(t, words[1..]);
      TotalsUnfold(words);
      hide Total;
      hide Weighted;
      AddIs(s, words[0], t);
      FirstSum(s.s1, w, Total(words[1..]), TWO32);
      SecondSum(s, t, w, n, Weighted(words[1..]));
    }
  }

  lemma NoTotals(s: Sums)
    ensures s.s1 == (s.s1 + Total([])) % TWO32 && s.s2 == (s.s2 + 0 * s.s1 + Weighted([])) % TWO32
  {
  }

  lemma TotalsUnfold(words: seq<Half>)
    requires words != []
    ensures Total(words) == words[0] as nat + Total(words[1..])
    ensures Weighted(words) == |words| * words[0] as nat + Weighted(words[1..])
  {
  }

  lemma AddIs(s: Sums, w: Half, t: Sums)
    requires t == Add(s, w)
    ensures t.s1 == (s.s1 + w) % TWO32 && t.s2 == (s.s2 + t.s1) % TWO32
  {
  }

  lemma FirstSum(a: nat, w: nat, rest: nat, m: nat)
    requires m > 0
    ensures ((a + w) % m + rest) % m == (a + (w + rest)) % m
  {
    ModAdd((a + w) % m, a + w, rest, m);
  }

  lemma SecondSum(s: Sums, t: Sums, w: nat, n: nat, rest: nat)
    requires n > 0 && t.s1 == (s.s1 + w) % TWO32 && t.s2 == (s.s2 + t.s1) % TWO32
    ensures (t.s2 + (n - 1) * t.s1 + rest) % TWO32 == (s.s2 + n * s.s1 + (n * w + rest)) % TWO32
  {
    var k, full := (s.s1 + w) / TWO32, s.s1 + w;
    ModAdd(t.s2, s.s2 + t.s1, (n - 1) * t.s1 + rest, TWO32);
    assert t.s1 + (n - 1) * t.s1 == n * t.s1;
    assert full == k * TWO32 + t.s1;
    ScaledSum(n, s.s1, w, k, t.s1, TWO32);
    Multiple(n * k, s.s2 + n * t.s1 + rest, TWO32);
  }

  // The first sum never wraps, whatever a frame of up to 65535 payload words holds besides TYPE
  // and LEN.
  lemma FirstSumExact(words: seq<Half>)
    requires |words| <= 65537
    ensures Sum(FRESH, words).s1 == Total(words)
  {
    hide Sum;
    hide Total;
    SumIsTotals(FRESH, words);
    TotalBound(words);
    Scale(|words|, 65537, M);
  }

  // --- Fletcher-32 proper --------------------------------------------------------------------------

  // The textbook form: reduced after every word.
  function Reduced(a: nat, b: nat, words: seq<Half>): (nat, nat)
    decreases |words|
  {
    if words == [] then (a, b)
    else var a' := (a + words[0] as nat) % M; Reduced(a', (b + a') % M, words[1..])
  }

  lemma {:induction false} ReducedIsTotals(a: nat, b: nat, words: seq<Half>)
    requires a < M && b < M
    ensures Reduced(a, b, words) == ((a + Total(words)) % M, (b + |words| * a + Weighted(words)) % M)
    decreases |words|
  {
    if words == [] {
      NothingReduced(a, b);
    } else {
      var w, n, rest := words[0] as nat, |words|, words[1..];
      var a' := (a + w) % M;
      var b' := (b + a') % M;
      ReducedUnfold(a, b, words);
      ReducedIsTotals(a', b', rest);
      TotalsUnfold(words);
      hide Total;
      hide Weighted;
      hide Reduced;
      FirstSum(a, w, Total(rest), M);
      SecondReduced(a, b, w, n, Weighted(rest));
    }
  }

  lemma NothingReduced(a: nat, b: nat)
    requires a < M && b < M
    ensures Reduced(a, b, []) == ((a + Total([])) % M, (b + 0 * a + Weighted([])) % M)
  {
  }

  lemma ReducedUnfold(a: nat, b: nat, words: seq<Half>)
    requires words != []
    ensures var a' := (a + words[0] as nat) % M;
      Reduced(a, b, words) == Reduced(a', (b + a') % M, words[1..])
  {
  }

  lemma SecondReduced(a: nat, b: nat, w: nat, n: nat, rest: nat)
    requires n > 0
    ensures var a' := (a + w) % M;
      ((b + a') % M + (n - 1) * a' + rest) % M == (b + n * a + (n * w + rest)) % M
  {
    var full, a', k := a + w, (a + w) % M, (a + w) / M;
    ModAdd((b + a') % M, b + a', (n - 1) * a' + rest, M);
    assert a' + (n - 1) * a' == n * a';
    assert full == k * M + a';
    ScaledSum(n, a, w, k, a', M);
    Multiple(n * k, b + n * a' + rest, M);
  }

  lemma ScaledSum(n: nat, a: nat, w: nat, k: nat, a': nat, m: nat)
    requires a + w == k * m + a'
    ensures n * a + n * w == (n * k) * m + n * a'
  {
    assert n * a + n * w == n * (k * m + a');
  }

  // Leaving the modulo to the end gives Fletcher-32 exactly when the second sum did not wrap:
  // 2^32 is 1 modulo 65535, and no frame wraps 65535 times.
  lemma DeferredIsFletcher(words: seq<Half>)
    requires |words| <= 65537
    ensures var s, r := Sum(FRESH, words), Reduced(0, 0, words);
      && s.s1 % M == r.0
      && (s.s2 % M == r.1 <==> Weighted(words) < TWO32)
  {
    FirstSumExact(words);
    SumIsTotals(FRESH, words);
    ReducedIsTotals(0, 0, words);
    WeightedBound(words);
    WrapShifts(Weighted(words), |words|);
  }

  lemma WrapShifts(u: nat, n: nat)
    requires n <= 65537 && 2 * u <= M * (n * (n + 1))
    ensures u % TWO32 % M == u % M <==> u < TWO32
  {
    assert n * (n + 1) <= 65537 * 65538 by { Scale(n + 1, 65538, n); Scale(n, 65537, 65538); }
    var k, r := u / TWO32, u % TWO32;
    assert u == k * TWO32 + r && TWO32 == 65537 * M + 1;
    assert k * TWO32 == (k * 65537) * M + k;
    assert k < M;
    Multiple(k * 65537, k + r, M);
    Shifted(k, r);
  }

  lemma Shifted(k: nat, r: nat)
    requires k < M
    ensures (k + r) % M == r % M <==> k == 0
  {
    var q, s := r / M, r % M;
    assert r == q * M + s;
    if k + s < M {
      DivModUnique(q, k + s, M);
    } else {
      assert (q + 1) * M == q * M + M;
      DivModUnique(q + 1, k + s - M, M);
    }
  }

  // Up to 361 words never wrap, and 362 can.
  lemma ShortIsFletcher(words: seq<Half>)
    requires |words| <= 361
    ensures var s, r := Sum(FRESH, words), Reduced(0, 0, words); (s.s1 % M, s.s2 % M) == r
  {
    WeightedBound(words);
    var n := |words|;
    assert n * (n + 1) <= 361 * 362 by { Scale(n + 1, 362, n); Scale(n, 361, 362); }
    DeferredIsFletcher(words);
  }

  function Repeat(n: nat, w: Half): (s: seq<Half>)
    ensures |s| == n
  {
    if n == 0 then [] else [w] + Repeat(n - 1, w)
  }

  lemma {:induction false} TotalRepeat(n: nat, w: Half)
    ensures Total(Repeat(n, w)) == n * w as nat
    decreases n, w
  {
    if n > 0 {
      TotalRepeat(n - 1, w);
      assert Repeat(n, w)[1..] == Repeat(n - 1, w);
    }
  }

  // And there is no room left: the largest frame of the largest words brings it to 2^32 - 1.
  lemma FirstSumFills(n: nat, words: seq<Half>)
    requires n == 65537 && words == Repeat(n, 0xffff)
    ensures Sum(FRESH, words).s1 == Total(words) == TWO32 - 1
  {
    hide Sum;
    hide Total;
    FirstSumExact(words);
    TotalRepeat(n, 0xffff);
  }

  lemma {:induction false} WeightedRepeat(n: nat, w: Half)
    ensures 2 * Weighted(Repeat(n, w)) == n * (n + 1) * w as nat
    decreases n, w
  {
    if n > 0 {
      WeightedRepeat(n - 1, w);
      assert Repeat(n, w)[1..] == Repeat(n - 1, w);
      RepeatStep(n, w as nat);
    }
  }

  lemma RepeatStep(n: nat, w: nat)
    requires n > 0
    ensures n * (n + 1) * w == 2 * (n * w) + (n - 1) * n * w
  {
    assert n * (n + 1) == 2 * n + (n - 1) * n;
    assert (2 * n + (n - 1) * n) * w == 2 * (n * w) + (n - 1) * n * w;
  }

  lemma LongerIsNot(n: nat, words: seq<Half>)
    requires n == 362 && words == Repeat(n, 0xffff)
    ensures Sum(FRESH, words).s2 % M != Reduced(0, 0, words).1
  {
    WeightedRepeat(n, 0xffff);
    DeferredIsFletcher(words);
  }

  // --- a changed word --------------------------------------------------------------------------------

  lemma {:induction false} TotalAppends(a: seq<Half>, b: seq<Half>)
    ensures Total(a + b) == Total(a) + Total(b)
    decreases |a|
  {
    if a == [] {
      assert a + b == b;
    } else {
      assert (a + b)[1..] == a[1..] + b;
      TotalAppends(a[1..], b);
    }
  }

  // Replacing one word by another that is not congruent to it always changes the checksum.
  lemma ChangeShows(words: seq<Half>, k: nat, w: Half)
    requires |words| <= 65537 && k < |words| && w % M != words[k] % M
    ensures Finish(Sum(FRESH, words[k := w])) != Finish(Sum(FRESH, words))
  {
    var other := words[k := w];
    assert words == words[..k] + [words[k]] + words[k + 1..];
    assert other == words[..k] + [w] + words[k + 1..];
    TotalAppends(words[..k] + [words[k]], words[k + 1..]);
    TotalAppends(words[..k], [words[k]]);
    TotalAppends(words[..k] + [w], words[k + 1..]);
    TotalAppends(words[..k], [w]);
    assert Total([words[k]]) == words[k] as nat + Total([]) && Total([w]) == w as nat + Total([]);
    FirstSumExact(words);
    FirstSumExact(other);
    var rest := Total(words[..k]) + Total(words[k + 1..]);
    NotCongruent(rest, words[k] as nat, w as nat);
    FinishInjective(Sum(FRESH, words), Sum(FRESH, other));
  }

  lemma NotCongruent(rest: nat, a: nat, b: nat)
    requires a % M != b % M
    ensures (rest + a) % M != (rest + b) % M
  {
    if (rest + a) % M == (rest + b) % M {
      var up := (rest / M + 1) * M - rest;
      assert (rest / M + 1) * M == (rest / M) * M + M;
      ModAdd(rest + a, rest + b, up, M);
      Multiple(rest / M + 1, a, M);
      Multiple(rest / M + 1, b, M);
    }
  }

  // The textbook sums see a word only modulo 65535.
  lemma {:induction false} ReducedCongruent(a: nat, b: nat, words: seq<Half>, k: nat, w: Half)
    requires k < |words| && w % M == words[k] % M
    ensures Reduced(a, b, words[k := w]) == Reduced(a, b, words)
    decreases |words|
  {
    var other := words[k := w];
    if k == 0 {
      ModAdd(w as nat, words[0] as nat, a, M);
      assert other[1..] == words[1..];
    } else {
      var a' := (a + words[0] as nat) % M;
      assert other[1..] == words[1..][k - 1 := w];
      ReducedCongruent(a', (b + a') % M, words[1..], k - 1, w);
    }
  }

  // So in a short frame a congruent word passes for the right one.
  lemma CongruentPasses(words: seq<Half>, k: nat, w: Half)
    requires |words| <= 361 && k < |words| && w % M == words[k] % M
    ensures Finish(Sum(FRESH, words[k := w])) == Finish(Sum(FRESH, words))
  {
    ShortIsFletcher(words);
    ShortIsFletcher(words[k := w]);
    ReducedCongruent(0, 0, words, k, w);
    FinishInjective(Sum(FRESH, words), Sum(FRESH, words[k := w]));
  }
}
