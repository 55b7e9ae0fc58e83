/**
 * Sony's standard MDEC AC code book, as bsdec/bsdec-vlc.h carries it: twelve groups by
 * leading zeros, each one or two runs of suffixes that count up.
 */
module SonyBook {
  import opened Bits
  import opened CodeBook
  import GenTable

  datatype Meaning = Meaning(kind: nat, run: nat, level: int)

  // Codes whose suffixes are `width` bits wide and count up from `first`.
  datatype Span = Span(width: nat, first: nat, meanings: seq<Meaning>)

  // Each run and level comes twice, its sign in the last bit.
  function Signed(pairs: seq<(nat, nat)>): (m: seq<Meaning>)
    ensures |m| == 2 * |pairs|
    ensures forall i :: 0 <= i < |m| ==> m[i].kind == NORMAL
  {
    seq(2 * |pairs|, i requires 0 <= i < 2 * |pairs| =>
      var (run, level: int) := pairs[i / 2];
      Meaning(NORMAL, run, if i % 2 == 0 then level else 0 - level))
  }

  // The runs and levels of each group's widest codes.
  function Runs0(): seq<(nat, nat)> {
    [(0, 1)]
  }

  function Runs1(): seq<(nat, nat)> {
    [(0, 2), (2, 1)]
  }

  function Runs2(): seq<(nat, nat)> {
    [(13, 1), (0, 6), (12, 1), (11, 1), (3, 2), (1, 3), (0, 5), (10, 1)]
  }

  function Runs3(): seq<(nat, nat)> {
    [(7, 1), (6, 1), (1, 2), (5, 1)]
  }

  function Runs4(): seq<(nat, nat)> {
    [(2, 2), (9, 1), (0, 4), (8, 1)]
  }

  function Runs6(): seq<(nat, nat)> {
    [(16, 1), (5, 2), (0, 7), (2, 3), (1, 4), (15, 1), (14, 1), (4, 2)]
  }

  function Runs7(): seq<(nat, nat)> {
    [(0, 11), (8, 2), (4, 3), (0, 10), (2, 4), (7, 2), (21, 1), (20, 1), (0, 9), (19, 1), (18, 1), (1, 5),
     (3, 3), (0, 8), (6, 2), (17, 1)]
  }

  function Runs8(): seq<(nat, nat)> {
    [(10, 2), (9, 2), (5, 3), (3, 4), (2, 5), (1, 7), (1, 6), (0, 15), (0, 14), (0, 13), (0, 12), (26, 1),
     (25, 1), (24, 1), (23, 1), (22, 1)]
  }

  function Runs9(): seq<(nat, nat)> {
    [(0, 31), (0, 30), (0, 29), (0, 28), (0, 27), (0, 26), (0, 25), (0, 24), (0, 23), (0, 22), (0, 21), (0, 20),
     (0, 19), (0, 18), (0, 17), (0, 16)]
  }

  function Runs10(): seq<(nat, nat)> {
    [(0, 40), (0, 39), (0, 38), (0, 37), (0, 36), (0, 35), (0, 34), (0, 33), (0, 32), (1, 14), (1, 13), (1, 12),
     (1, 11), (1, 10), (1, 9), (1, 8)]
  }

  function Runs11(): seq<(nat, nat)> {
    [(1, 18), (1, 17), (1, 16), (1, 15), (6, 3), (16, 2), (15, 2), (14, 2), (13, 2), (12, 2), (11, 2), (31, 1),
     (30, 1), (29, 1), (28, 1), (27, 1)]
  }

  // The group's widest codes.
  function Wide(n: nat): Span {
    match n
    case 0 => Span(2, 2, Signed(Runs0()))
    case 1 => Span(3, 0, Signed(Runs1()))
    case 2 => Span(6, 0, Signed(Runs2()))
    case 3 => Span(3, 0, Signed(Runs3()))
    case 4 => Span(3, 0, Signed(Runs4()))
    case 5 => Span(0, 0, [Meaning(ESCAPE, 0, 0)])
    case 6 => Span(4, 0, Signed(Runs6()))
    case 7 => Span(5, 0, Signed(Runs7()))
    case 8 => Span(5, 0, Signed(Runs8()))
    case 9 => Span(5, 0, Signed(Runs9()))
    case 10 => Span(5, 0, Signed(Runs10()))
    case _ => Span(5, 0, Signed(Runs11()))
  }

  function ShortRuns2(): seq<(nat, nat)> {
    [(0, 3), (4, 1), (3, 1)]
  }

  // Its shorter codes, in the three groups that have some.
  function Short(n: nat): Span {
    match n
    case 0 => Span(1, 0, [Meaning(EOB, 0, 0)])
    case 1 => Span(2, 2, Signed([(1, 1)]))
    case 2 => Span(3, 2, Signed(ShortRuns2()))
    case _ => Span(0, 0, [])
  }

  function SpanCodes(n: nat, sp: Span): (codes: seq<Sym>)
    ensures |codes| == |sp.meanings|
  {
    seq(|sp.meanings|, i requires 0 <= i < |sp.meanings| =>
      Sym(Marked(n, BitsOf(sp.first + i, sp.width)), sp.meanings[i].kind, sp.meanings[i].run, sp.meanings[i].level))
  }

  function Group(n: nat): seq<Sym> {
    SpanCodes(n, Wide(n)) + SpanCodes(n, Short(n))
  }

  // The groups below m, in order.
  function Groups(m: nat): seq<Sym> {
    if m == 0 then [] else Groups(m - 1) + Group(m - 1)
  }

  function Book(): seq<Sym> {
    Groups(MAXNZ + 1)
  }

  // --- one group ---------------------------------------------------------------------

  // The two spans split the suffixes of the wide one between them.
  ghost predicate Layout(wide: Span, short: Span) {
    && short.width <= wide.width
    && wide.first + |wide.meanings| <= Pow2(wide.width)
    && short.first + |short.meanings| <= Pow2(short.width)
    && (forall m :: m in wide.meanings || m in short.meanings ==> m.kind <= 2)
    && (forall v: nat {:trigger BitsOf(v, wide.width)} :: v < Pow2(wide.width) ==>
          (wide.first <= v < wide.first + |wide.meanings|
           <==> !(short.first <= v / Pow2(wide.width - short.width) < short.first + |short.meanings|)))
  }

  function WidthOf(n: nat): nat {
    match n
    case 0 => 2 case 1 => 3 case 2 => 6 case 3 => 3 case 4 => 3 case 5 => 0 case 6 => 4 case _ => 5
  }

  lemma GroupLayout(n: nat)
    requires n <= MAXNZ
    ensures Layout(Wide(n), Short(n))
    ensures Wide(n).width == WidthOf(n) && |Wide(n).meanings| > 0 && (n >= 6 ==> Short(n).meanings == [])
  {
    if n <= 2 {
      SplitLayout(n);
    } else {
      PlainLayout(n);
    }
  }

  lemma SplitLayout(n: nat)
    requires n <= 2
    ensures Layout(Wide(n), Short(n)) && Wide(n).width == WidthOf(n) && |Wide(n).meanings| > 0
  {
    SmallPowers();
  }

  lemma PlainLayout(n: nat)
    requires 3 <= n <= MAXNZ
    ensures Layout(Wide(n), Short(n)) && Wide(n).width == WidthOf(n) && |Wide(n).meanings| > 0
    ensures Short(n).meanings == []
  {
    SmallPowers();
  }

  // What the assembly of the book needs of one group.
  ghost predicate GoodGroup(n: nat, width: nat, group: seq<Sym>) {
    && (forall k {:trigger group[k]} :: 0 <= k < |group| ==>
          WellFormedSym(group[k]) && LeadingZeros(group[k].code) == n && |group[k].code| <= n + 1 + width)
    && (n >= 6 ==> forall k {:trigger group[k]} :: 0 <= k < |group| ==> |group[k].code| == n + 1 + width)
    && PrefixFree(group)
    && (forall suffix: seq<Bit> {:trigger Marked(n, suffix)} :: |suffix| == width ==> Covered(group, Marked(n, suffix)))
    && (exists k :: 0 <= k < |group| && |group[k].code| == n + 1 + width)
  }

  lemma MarkedZeros(n: nat, suffix: seq<Bit>)
    ensures LeadingZeros(Marked(n, suffix)) == n
  {
    assert Marked(n, suffix)[..n] == Zeros(n);
    LeadingZerosIs(Marked(n, suffix), n);
  }

  // Two different codes of a group do not start one another.
  lemma SuffixesApart(v: nat, w: nat, v': nat, w': nat)
    requires v < Pow2(w) && v' < Pow2(w') && w <= w'
    ensures BitsOf(v, w) <= BitsOf(v', w') <==> v == v' / Pow2(w' - w)
  {
    GenTable.SuffixSlots(BitsOf(v, w), w', v');
    ValBitsOf(v, w);
  }

  lemma CodesApart(n: nat, wide: Span, short: Span, j: nat, k: nat)
    requires Layout(wide, short)
    requires j < |wide.meanings| + |short.meanings| && k < |wide.meanings| + |short.meanings| && j != k
    ensures var group := SpanCodes(n, wide) + SpanCodes(n, short);
            !Starts(group[j], group[k])
  {
    hide BitsOf;
    hide Marked;
    hide SpanCodes;
    hide Layout;
    hide Pow2;
    hide SuffixAt;
    var (v, w) := SuffixAt(wide, short, j);
    var (v', w') := SuffixAt(wide, short, k);
    CodeAt(n, wide, short, j);
    CodeAt(n, wide, short, k);
    GenTable.MarkedPrefix(n, BitsOf(v, w), BitsOf(v', w'));
    SuffixInRange(wide, short, j);
    SuffixInRange(wide, short, k);
    if w <= w' {
      SuffixesApart(v, w, v', w');
      SuffixesDiffer(wide, short, j, k);
    }
  }

  lemma SuffixInRange(wide: Span, short: Span, k: nat)
    requires Layout(wide, short) && k < |wide.meanings| + |short.meanings|
    ensures var (v, w) := SuffixAt(wide, short, k); v < Pow2(w)
  {
  }

  // A short suffix never starts a wide one, nor two of one width each other.
  lemma SuffixesDiffer(wide: Span, short: Span, j: nat, k: nat)
    requires Layout(wide, short)
    requires j < |wide.meanings| + |short.meanings| && k < |wide.meanings| + |short.meanings| && j != k
    requires SuffixAt(wide, short, j).1 <= SuffixAt(wide, short, k).1
    ensures var (v, w) := SuffixAt(wide, short, j);
      var (v', w') := SuffixAt(wide, short, k);
      v != v' / Pow2(w' - w)
  {
    if j < |wide.meanings| <= k {
      SpansDisjoint(wide, short, wide.first + j);
    } else if k < |wide.meanings| <= j {
      SpansDisjoint(wide, short, wide.first + k);
    }
    hide Layout;
    assert Pow2(0) == 1;
    hide Pow2;
  }

  lemma SpansDisjoint(wide: Span, short: Span, v: nat)
    requires Layout(wide, short) && wide.first <= v < wide.first + |wide.meanings|
    ensures !(short.first <= v / Pow2(wide.width - short.width) < short.first + |short.meanings|)
  {
    assert |BitsOf(v, wide.width)| == wide.width;
    hide BitsOf;
  }

  // The suffix of the k-th code of a group and its width.
  function SuffixAt(wide: Span, short: Span, k: nat): (nat, nat) {
    if k < |wide.meanings| then (wide.first + k, wide.width)
    else (short.first + k - |wide.meanings|, short.width)
  }

  lemma CodeAt(n: nat, wide: Span, short: Span, k: nat)
    requires k < |wide.meanings| + |short.meanings|
    ensures var (v, w) := SuffixAt(wide, short, k);
      (SpanCodes(n, wide) + SpanCodes(n, short))[k].code == Marked(n, BitsOf(v, w))
  {
  }

  lemma SuffixCovered(n: nat, wide: Span, short: Span, suffix: seq<Bit>)
    requires Layout(wide, short) && |suffix| == wide.width
    ensures Covered(SpanCodes(n, wide) + SpanCodes(n, short), Marked(n, suffix))
  {
    var group := SpanCodes(n, wide) + SpanCodes(n, short);
    var v := Val(suffix);
    ValBound(suffix);
    BitsOfVal(suffix);
    if wide.first <= v < wide.first + |wide.meanings| {
      assert group[v - wide.first].code == Marked(n, suffix);
    } else {
      var top := v / Pow2(wide.width - short.width);
      assert BitsOf(v, wide.width) == suffix;
      var k := |wide.meanings| + top - short.first;
      TopFits(v, wide.width, short.width);
      SuffixesApart(top, short.width, v, wide.width);
      GenTable.MarkedPrefix(n, BitsOf(top, short.width), suffix);
      assert group[k].code == Marked(n, BitsOf(top, short.width));
    }
  }

  lemma CodeShape(n: nat, wide: Span, short: Span, k: nat)
    requires Layout(wide, short) && n <= MAXNZ && n + 1 + wide.width <= LONGEST
    requires k < |wide.meanings| + |short.meanings|
    ensures var s := (SpanCodes(n, wide) + SpanCodes(n, short))[k];
            && WellFormedSym(s) && LeadingZeros(s.code) == n && |s.code| <= n + 1 + wide.width
            && (k < |wide.meanings| ==> |s.code| == n + 1 + wide.width)
  {
    if k < |wide.meanings| {
      MarkedZeros(n, BitsOf(wide.first + k, wide.width));
      assert wide.meanings[k] in wide.meanings;
    } else {
      MarkedZeros(n, BitsOf(short.first + k - |wide.meanings|, short.width));
      assert short.meanings[k - |wide.meanings|] in short.meanings;
    }
  }

  lemma SpansAreGood(n: nat, wide: Span, short: Span)
    requires Layout(wide, short) && n <= MAXNZ && n + 1 + wide.width <= LONGEST
    requires |wide.meanings| > 0 && (n >= 6 ==> short.meanings == [])
    ensures GoodGroup(n, wide.width, SpanCodes(n, wide) + SpanCodes(n, short))
  {
    var group := SpanCodes(n, wide) + SpanCodes(n, short);
    forall k | 0 <= k < |group|
      ensures WellFormedSym(group[k]) && LeadingZeros(group[k].code) == n && |group[k].code| <= n + 1 + wide.width
      ensures k < |wide.meanings| ==> |group[k].code| == n + 1 + wide.width
    {
      CodeShape(n, wide, short, k);
    }
    assert PrefixFree(group) by {
      forall j, k | 0 <= j < |group| && 0 <= k < |group| && j != k
        ensures !Starts(group[j], group[k])
      {
        CodesApart(n, wide, short, j, k);
      }
    }
    forall suffix: seq<Bit> | |suffix| == wide.width
      ensures Covered(group, Marked(n, suffix))
    {
      SuffixCovered(n, wide, short, suffix);
    }
    assert |group[0].code| == n + 1 + wide.width;
  }

  lemma GroupIsGood(n: nat)
    requires n <= MAXNZ
    ensures GoodGroup(n, WidthOf(n), Group(n))
  {
    GroupLayout(n);
    SpansAreGood(n, Wide(n), Short(n));
  }

  // --- the whole book ----------------------------------------------------------------

  // What every code below group m looks like.
  ghost predicate Shaped(m: nat, s: Sym) {
    var n := LeadingZeros(s.code);
    && WellFormedSym(s) && n < m && |s.code| <= n + 1 + WidthOf(n)
    && (n >= 6 ==> |s.code| == n + 1 + WidthOf(n))
  }

  ghost predicate AllCovered(m: nat, book: seq<Sym>) {
    forall n: nat, suffix: seq<Bit> {:trigger Marked(n, suffix)} ::
      n < m && |suffix| == WidthOf(n) ==> Covered(book, Marked(n, suffix))
  }

  ghost predicate HasWidest(m: nat, book: seq<Sym>) {
    forall n: nat {:trigger IsWide(book, n)} :: n < m ==> IsWide(book, n)
  }

  // The group has a code of its full width.
  ghost predicate IsWide(book: seq<Sym>, n: nat) {
    exists k {:trigger book[k]} ::
      0 <= k < |book| && LeadingZeros(book[k].code) == n && |book[k].code| == n + 1 + WidthOf(n)
  }

  // The groups below m, assembled.
  ghost predicate Assembled(m: nat, book: seq<Sym>) {
    && (forall k {:trigger book[k]} :: 0 <= k < |book| ==> Shaped(m, book[k]))
    && PrefixFree(book) && AllCovered(m, book) && HasWidest(m, book)
  }

  lemma SameGroup(a: seq<Bit>, b: seq<Bit>)
    requires LeadingZeros(a) < |a| && a <= b
    ensures LeadingZeros(b) == LeadingZeros(a)
  {
    LeadingZerosShape(a);
    assert b[..LeadingZeros(a)] == a[..LeadingZeros(a)];
    LeadingZerosIs(b, LeadingZeros(a));
  }

  lemma AppendPrefixFree(m: nat, book: seq<Sym>, group: seq<Sym>)
    requires Assembled(m, book) && GoodGroup(m, WidthOf(m), group)
    ensures PrefixFree(book + group)
  {
    var all, c := book + group, |book|;
    forall j, k | 0 <= j < |all| && 0 <= k < |all| && j != k
      ensures !Starts(all[j], all[k])
    {
      assert WellFormedSym(all[j]);
      assert j < c && k < c ==> !Starts(book[j], book[k]);
      assert j >= c && k >= c ==> !Starts(group[j - c], group[k - c]);
      if Starts(all[j], all[k]) {
        SameGroup(all[j].code, all[k].code);
      }
    }
  }

  lemma AppendShape(m: nat, book: seq<Sym>, group: seq<Sym>)
    requires Assembled(m, book) && GoodGroup(m, WidthOf(m), group)
    ensures forall k {:trigger (book + group)[k]} :: 0 <= k < |book + group| ==> Shaped(m + 1, (book + group)[k])
  {
    forall k | 0 <= k < |book + group|
      ensures Shaped(m + 1, (book + group)[k])
    {
      if k < |book| {
        assert Shaped(m, book[k]);
      } else {
        assert WellFormedSym(group[k - |book|]);
      }
    }
  }

  lemma AppendCovers(m: nat, book: seq<Sym>, group: seq<Sym>, n: nat, suffix: seq<Bit>)
    requires Assembled(m, book) && GoodGroup(m, WidthOf(m), group) && n < m + 1 && |suffix| == WidthOf(n)
    ensures Covered(book + group, Marked(n, suffix))
  {
    var bits := Marked(n, suffix);
    if n < m {
      var k :| 0 <= k < |book| && book[k].code <= bits;
      assert (book + group)[k].code <= bits;
    } else {
      var k :| 0 <= k < |group| && group[k].code <= bits;
      assert (book + group)[|book| + k].code <= bits;
    }
  }

  lemma AppendWidest(m: nat, book: seq<Sym>, group: seq<Sym>, n: nat)
    requires Assembled(m, book) && GoodGroup(m, WidthOf(m), group) && n < m + 1
    ensures IsWide(book + group, n)
  {
    var w := WidthOf(n);
    if n < m {
      assert IsWide(book, n);
      var k :| 0 <= k < |book| && LeadingZeros(book[k].code) == n && |book[k].code| == n + 1 + w;
      assert (book + group)[k] == book[k];
    } else {
      var k :| 0 <= k < |group| && |group[k].code| == m + 1 + w;
      assert (book + group)[|book| + k] == group[k];
    }
  }

  lemma AppendAllCovered(m: nat, book: seq<Sym>, group: seq<Sym>)
    requires Assembled(m, book) && GoodGroup(m, WidthOf(m), group)
    ensures AllCovered(m + 1, book + group)
  {
    hide Covered;
    hide PrefixFree;
    hide Shaped;
    hide Marked;
    forall n: nat, suffix: seq<Bit> {:trigger Marked(n, suffix)} | n < m + 1 && |suffix| == WidthOf(n)
      ensures Covered(book + group, Marked(n, suffix))
    {
      AppendCovers(m, book, group, n, suffix);
    }
  }

  lemma AppendHasWidest(m: nat, book: seq<Sym>, group: seq<Sym>)
    requires Assembled(m, book) && GoodGroup(m, WidthOf(m), group)
    ensures HasWidest(m + 1, book + group)
  {
    hide Covered;
    hide PrefixFree;
    hide Shaped;
    hide IsWide;
    forall n: nat {:trigger IsWide(book + group, n)} | n < m + 1
      ensures IsWide(book + group, n)
    {
      AppendWidest(m, book, group, n);
    }
  }

  lemma Append(m: nat, book: seq<Sym>, group: seq<Sym>, m': nat, all: seq<Sym>)
    requires Assembled(m, book) && GoodGroup(m, WidthOf(m), group) && m' == m + 1 && all == book + group
    ensures Assembled(m', all)
  {
    hide PrefixFree;
    hide Shaped;
    hide AllCovered;
    hide HasWidest;
    hide GoodGroup;
    AppendPrefixFree(m, book, group);
    AppendShape(m, book, group);
    AppendAllCovered(m, book, group);
    AppendHasWidest(m, book, group);
  }

  lemma NothingAssembled()
    ensures Assembled(0, [])
  {
  }

  lemma {:induction false} GroupsAssemble(m: nat)
    requires m <= MAXNZ + 1
    ensures Assembled(m, Groups(m))
  {
    hide Group;
    hide GoodGroup;
    hide Shaped;
    hide AllCovered;
    hide HasWidest;
    if m == 0 {
      NothingAssembled();
    } else {
      hide Assembled;
      var n: nat := m - 1;
      GroupsAssemble(n);
      GroupIsGood(n);
      Append(n, Groups(n), Group(n), m, Groups(m));
    }
  }

  lemma WidthOfAssembled(m: nat, book: seq<Sym>, n: nat)
    requires Assembled(m, book) && n < m
    ensures Width(book, n) == WidthOf(n)
  {
    var w := WidthOf(n);
    WidthIsWidest(book, n);
    assert IsWide(book, n);
    var k :| 0 <= k < |book| && LeadingZeros(book[k].code) == n && |book[k].code| == n + 1 + w;
    if Width(book, n) != 0 {
      var j :| 0 <= j < |book| && LeadingZeros(book[j].code) == n && |book[j].code| == n + 1 + Width(book, n);
      assert WellFormedSym(book[j]);
    }
  }

  // Bits are covered exactly when their leading zeros are few enough for the group's widest
  // code to fit them.
  lemma FitsIsCovered(book: seq<Sym>, bits: seq<Bit>, n: nat)
    requires Assembled(MAXNZ + 1, book) && n == LeadingZeros(bits) <= MAXNZ && n + 1 + WidthOf(n) <= |bits|
    ensures Covered(book, bits)
  {
    hide WellFormedSym;
    hide PrefixFree;
    hide Shaped;
    var w := WidthOf(n);
    var suffix := bits[n + 1..n + 1 + w];
    GenTable.CodeIsMarked(n, bits);
    GenTable.MarkedPrefix(n, suffix, bits[n + 1..]);
    assert Covered(book, Marked(n, suffix));
    var k :| 0 <= k < |book| && book[k].code <= Marked(n, suffix);
    assert book[k].code <= bits;
  }

  lemma CoveredFits(book: seq<Sym>, bits: seq<Bit>)
    requires Assembled(MAXNZ + 1, book) && Covered(book, bits)
    ensures var n := LeadingZeros(bits); n <= MAXNZ && (n >= 6 ==> n + 1 + WidthOf(n) <= |bits|)
  {
    var k :| 0 <= k < |book| && book[k].code <= bits;
    assert WellFormedSym(book[k]);
    SameGroup(book[k].code, bits);
  }

  lemma CoveredBy(book: seq<Sym>, bits: seq<Bit>)
    requires Assembled(MAXNZ + 1, book) && (|bits| == 9 || |bits| == 15)
    ensures Covered(book, bits) <==> LeadingZeros(bits) <= if |bits| == 9 then 5 else 9
  {
    var n := LeadingZeros(bits);
    if n <= if |bits| == 9 then 5 else 9 {
      FitsIsCovered(book, bits, n);
    }
    if Covered(book, bits) {
      CoveredFits(book, bits);
    }
  }

  lemma ZerosUpTo(bits: seq<Bit>, m: nat)
    requires m < |bits|
    ensures AllZero(bits[..m + 1]) <==> LeadingZeros(bits) > m
  {
    LeadingZerosShape(bits);
    var n := LeadingZeros(bits);
    if n <= m {
      assert bits[..m + 1][n] == 1;
    } else {
      assert bits[..m + 1] == bits[..n][..m + 1];
    }
  }

  lemma PrimCoverage(book: seq<Sym>, bits: seq<Bit>)
    requires Assembled(MAXNZ + 1, book) && |bits| == 9
    ensures Covered(book, bits) <==> !AllZero(bits[..6])
  {
    CoveredBy(book, bits);
    ZerosUpTo(bits, 5);
  }

  lemma SecCoverage(book: seq<Sym>, bits: seq<Bit>)
    requires Assembled(MAXNZ + 1, book) && |bits| == 9
    ensures Covered(book, Zeros(6) + bits) <==> !AllZero(bits[..4])
  {
    var wide := Zeros(6) + bits;
    CoveredBy(book, wide);
    ZerosUpTo(wide, 9);
    assert wide[..10] == Zeros(6) + bits[..4];
    assert AllZero(wide[..10]) <==> AllZero(bits[..4]) by {
      assert forall i :: 0 <= i < 4 ==> wide[..10][6 + i] == bits[..4][i];
    }
  }

  lemma AssembledIsGood(book: seq<Sym>, esc: nat, eob: nat)
    requires Assembled(MAXNZ + 1, book)
    requires esc < |book| && book[esc].kind == ESCAPE && eob < |book| && book[eob].kind == EOB
    ensures Good(book)
  {
    forall n: nat, suffix: seq<Bit> | n <= MAXNZ && |suffix| == Width(book, n)
      ensures Covered(book, Marked(n, suffix))
    {
      WidthOfAssembled(MAXNZ + 1, book, n);
    }
    forall bits: seq<Bit> | |bits| == 9
      ensures Covered(book, bits) <==> !AllZero(bits[..6])
    {
      PrimCoverage(book, bits);
    }
    forall bits: seq<Bit> | |bits| == 9
      ensures Covered(book, Zeros(6) + bits) <==> !AllZero(bits[..4])
    {
      SecCoverage(book, bits);
    }
  }

  // Every assertion the generator makes holds of Sony's book, and no slot is unreachable.
  lemma BookIsGood() returns (esc: nat, eob: nat)
    ensures Good(Book())
    ensures esc < |Book()| && Book()[esc].kind == ESCAPE && Book()[esc].code == [0, 0, 0, 0, 0, 1]
    ensures eob < |Book()| && Book()[eob].kind == EOB && Book()[eob].code == [1, 0]
  {
    hide Groups;
    hide Assembled;
    hide Good;
    esc, eob := SpecialCodes();
    GroupsAssemble(MAXNZ + 1);
    AssembledIsGood(Book(), esc, eob);
  }

  lemma {:induction false} GroupInside(n: nat, m: nat, i: nat) returns (k: nat)
    requires n < m <= MAXNZ + 1 && i < |Group(n)|
    ensures k < |Groups(m)| && Groups(m)[k] == Group(n)[i]
    decreases m
  {
    hide Group;
    if n == m - 1 {
      k := |Groups(m - 1)| + i;
    } else {
      k := GroupInside(n, m - 1, i);
    }
  }

  // Where the book keeps its escape and its end of block.
  lemma SpecialCodes() returns (esc: nat, eob: nat)
    ensures esc < |Book()| && Book()[esc].kind == ESCAPE && Book()[esc].code == [0, 0, 0, 0, 0, 1]
    ensures eob < |Book()| && Book()[eob].kind == EOB && Book()[eob].code == [1, 0]
  {
    hide Groups;
    esc := GroupInside(5, MAXNZ + 1, 0);
    eob := GroupInside(0, MAXNZ + 1, 2);
    assert Marked(5, BitsOf(0, 0)) == [0, 0, 0, 0, 0, 1];
    assert BitsOf(0, 1) == [0];
    assert Marked(0, BitsOf(0, 1)) == [1, 0];
  }
}
