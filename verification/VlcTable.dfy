/** bsdec/bsdec-vlc.h: the dispatch table as it is compiled in, word for word, and that it is the book's. */
module VlcTable {
  import opened Bits
  import opened CodeBook
  import opened SonyBook

  function Entries0(): (row: seq<Word>)
    ensures |row| == 4
  {
    [0xa1_fe00, 0xa1_fe00, 0x82_0001, 0x82_03ff]
  }

  function Entries1(): (row: seq<Word>)
    ensures |row| == 8
  {
    [0x83_0002, 0x83_03fe, 0x83_0801, 0x83_0bff, 0x82_0401, 0x82_0401, 0x82_07ff, 0x82_07ff]
  }

  function Entries2(): (row: seq<Word>)
    ensures |row| == 64
  {
    LongEntries2() + ShortEntries2()
  }

  function LongEntries2(): seq<Word> {
    [0x86_3401, 0x86_37ff, 0x86_0006, 0x86_03fa, 0x86_3001, 0x86_33ff, 0x86_2c01, 0x86_2fff,
     0x86_0c02, 0x86_0ffe, 0x86_0403, 0x86_07fd, 0x86_0005, 0x86_03fb, 0x86_2801, 0x86_2bff]
  }

  function ShortEntries2(): seq<Word> {
    [0x83_0003, 0x83_0003, 0x83_0003, 0x83_0003, 0x83_0003, 0x83_0003, 0x83_0003, 0x83_0003]
    + [0x83_03fd, 0x83_03fd, 0x83_03fd, 0x83_03fd, 0x83_03fd, 0x83_03fd, 0x83_03fd, 0x83_03fd]
    + [0x83_1001, 0x83_1001, 0x83_1001, 0x83_1001, 0x83_1001, 0x83_1001, 0x83_1001, 0x83_1001]
    + [0x83_13ff, 0x83_13ff, 0x83_13ff, 0x83_13ff, 0x83_13ff, 0x83_13ff, 0x83_13ff, 0x83_13ff]
    + [0x83_0c01, 0x83_0c01, 0x83_0c01, 0x83_0c01, 0x83_0c01, 0x83_0c01, 0x83_0c01, 0x83_0c01]
    + [0x83_0fff, 0x83_0fff, 0x83_0fff, 0x83_0fff, 0x83_0fff, 0x83_0fff, 0x83_0fff, 0x83_0fff]
  }

  function Entries3(): (row: seq<Word>)
    ensures |row| == 8
  {
    [0x83_1c01, 0x83_1fff, 0x83_1801, 0x83_1bff, 0x83_0402, 0x83_07fe, 0x83_1401, 0x83_17ff]
  }

  function Entries4(): (row: seq<Word>)
    ensures |row| == 8
  {
    [0x83_0802, 0x83_0bfe, 0x83_2401, 0x83_27ff, 0x83_0004, 0x83_03fc, 0x83_2001, 0x83_23ff]
  }

  function Entries5(): (row: seq<Word>)
    ensures |row| == 1
  {
    [0xc0_0000]
  }

  function Entries6(): (row: seq<Word>)
    ensures |row| == 16
  {
    [0x84_4001, 0x84_43ff, 0x84_1402, 0x84_17fe, 0x84_0007, 0x84_03f9, 0x84_0803, 0x84_0bfd,
     0x84_0404, 0x84_07fc, 0x84_3c01, 0x84_3fff, 0x84_3801, 0x84_3bff, 0x84_1002, 0x84_13fe]
  }

  function Entries7(): (row: seq<Word>)
    ensures |row| == 32
  {
    [0x85_000b, 0x85_03f5, 0x85_2002, 0x85_23fe, 0x85_1003, 0x85_13fd, 0x85_000a, 0x85_03f6,
     0x85_0804, 0x85_0bfc, 0x85_1c02, 0x85_1ffe, 0x85_5401, 0x85_57ff, 0x85_5001, 0x85_53ff,
     0x85_0009, 0x85_03f7, 0x85_4c01, 0x85_4fff, 0x85_4801, 0x85_4bff, 0x85_0405, 0x85_07fb,
     0x85_0c03, 0x85_0ffd, 0x85_0008, 0x85_03f8, 0x85_1802, 0x85_1bfe, 0x85_4401, 0x85_47ff]
  }

  function Entries8(): (row: seq<Word>)
    ensures |row| == 32
  {
    [0x85_2802, 0x85_2bfe, 0x85_2402, 0x85_27fe, 0x85_1403, 0x85_17fd, 0x85_0c04, 0x85_0ffc,
     0x85_0805, 0x85_0bfb, 0x85_0407, 0x85_07f9, 0x85_0406, 0x85_07fa, 0x85_000f, 0x85_03f1,
     0x85_000e, 0x85_03f2, 0x85_000d, 0x85_03f3, 0x85_000c, 0x85_03f4, 0x85_6801, 0x85_6bff,
     0x85_6401, 0x85_67ff, 0x85_6001, 0x85_63ff, 0x85_5c01, 0x85_5fff, 0x85_5801, 0x85_5bff]
  }

  function Entries9(): (row: seq<Word>)
    ensures |row| == 32
  {
    [0x85_001f, 0x85_03e1, 0x85_001e, 0x85_03e2, 0x85_001d, 0x85_03e3, 0x85_001c, 0x85_03e4,
     0x85_001b, 0x85_03e5, 0x85_001a, 0x85_03e6, 0x85_0019, 0x85_03e7, 0x85_0018, 0x85_03e8,
     0x85_0017, 0x85_03e9, 0x85_0016, 0x85_03ea, 0x85_0015, 0x85_03eb, 0x85_0014, 0x85_03ec,
     0x85_0013, 0x85_03ed, 0x85_0012, 0x85_03ee, 0x85_0011, 0x85_03ef, 0x85_0010, 0x85_03f0]
  }

  function Entries10(): (row: seq<Word>)
    ensures |row| == 32
  {
    [0x85_0028, 0x85_03d8, 0x85_0027, 0x85_03d9, 0x85_0026, 0x85_03da, 0x85_0025, 0x85_03db,
     0x85_0024, 0x85_03dc, 0x85_0023, 0x85_03dd, 0x85_0022, 0x85_03de, 0x85_0021, 0x85_03df,
     0x85_0020, 0x85_03e0, 0x85_040e, 0x85_07f2, 0x85_040d, 0x85_07f3, 0x85_040c, 0x85_07f4,
     0x85_040b, 0x85_07f5, 0x85_040a, 0x85_07f6, 0x85_0409, 0x85_07f7, 0x85_0408, 0x85_07f8]
  }

  function Entries11(): (row: seq<Word>)
    ensures |row| == 32
  {
    [0x85_0412, 0x85_07ee, 0x85_0411, 0x85_07ef, 0x85_0410, 0x85_07f0, 0x85_040f, 0x85_07f1,
     0x85_1803, 0x85_1bfd, 0x85_4002, 0x85_43fe, 0x85_3c02, 0x85_3ffe, 0x85_3802, 0x85_3bfe,
     0x85_3402, 0x85_37fe, 0x85_3002, 0x85_33fe, 0x85_2c02, 0x85_2ffe, 0x85_7c01, 0x85_7fff,
     0x85_7801, 0x85_7bff, 0x85_7401, 0x85_77ff, 0x85_7001, 0x85_73ff, 0x85_6c01, 0x85_6fff]
  }

  // The entries of group n.
  function Row(n: nat): seq<Word> {
    match n
    case 0 => Entries0()
    case 1 => Entries1()
    case 2 => Entries2()
    case 3 => Entries3()
    case 4 => Entries4()
    case 5 => Entries5()
    case 6 => Entries6()
    case 7 => Entries7()
    case 8 => Entries8()
    case 9 => Entries9()
    case 10 => Entries10()
    case _ => Entries11()
  }

  // --- pair by pair ---------------------------------------------------------------------------------

  // Entries 2 p and 2 p + 1 spell the p-th run and level, and the level negated in ten bits.
  ghost predicate PairAt(row: seq<Word>, runs: seq<(nat, nat)>, nbits: nat, p: nat) {
    && 2 * p + 1 < |row| && p < |runs| && runs[p].0 < 64 && 0 < runs[p].1 < 512
    && row[2 * p] == 0x80_0000 + nbits * 0x1_0000 + runs[p].0 * 0x400 + runs[p].1
    && row[2 * p + 1] == 0x80_0000 + nbits * 0x1_0000 + runs[p].0 * 0x400 + 0x400 - runs[p].1
  }

  lemma Pairs1(p: nat)
    requires p < 2
    ensures |Runs1()| == 2 && PairAt(Entries1(), Runs1(), 3, p)
  {
  }

  lemma Pairs2(p: nat)
    requires p < 8
    ensures |Runs2()| == 8 && PairAt(Entries2(), Runs2(), 6, p)
  {
    var long := LongEntries2();
    assert Entries2()[2 * p] == long[2 * p] && Entries2()[2 * p + 1] == long[2 * p + 1];
  }

  lemma Pairs3(p: nat)
    requires p < 4
    ensures |Runs3()| == 4 && PairAt(Entries3(), Runs3(), 3, p)
  {
  }

  lemma Pairs4(p: nat)
    requires p < 4
    ensures |Runs4()| == 4 && PairAt(Entries4(), Runs4(), 3, p)
  {
  }

  lemma Pairs6(p: nat)
    requires p < 8
    ensures |Runs6()| == 8 && PairAt(Entries6(), Runs6(), 4, p)
  {
  }

  lemma Pairs7(p: nat)
    requires p < 16
    ensures |Runs7()| == 16 && PairAt(Entries7(), Runs7(), 5, p)
  {
    if p < 4 {} else if p < 6 {} else if p < 8 {} else if p < 10 {} else if p < 12 {} else if p < 14 {}
  }

  lemma Pairs8(p: nat)
    requires p < 16
    ensures |Runs8()| == 16 && PairAt(Entries8(), Runs8(), 5, p)
  {
    if p < 4 {} else if p < 6 {} else if p < 8 {} else if p < 10 {} else if p < 12 {} else if p < 14 {}
  }

  lemma Pairs9(p: nat)
    requires p < 16
    ensures |Runs9()| == 16 && PairAt(Entries9(), Runs9(), 5, p)
  {
    if p < 4 {} else if p < 6 {} else if p < 8 {} else if p < 10 {} else if p < 12 {} else if p < 14 {}
  }

  lemma Pairs10(p: nat)
    requires p < 16
    ensures |Runs10()| == 16 && PairAt(Entries10(), Runs10(), 5, p)
  {
    if p < 4 {} else if p < 6 {} else if p < 8 {} else if p < 10 {} else if p < 12 {} else if p < 14 {}
  }

  lemma Pairs11(p: nat)
    requires p < 16
    ensures |Runs11()| == 16 && PairAt(Entries11(), Runs11(), 5, p)
  {
    if p < 4 {} else if p < 6 {} else if p < 8 {} else if p < 10 {} else if p < 12 {} else if p < 14 {}
  }

  // The short codes of group 2 fill eight entries for each of their suffixes.
  lemma Shorts2(i: nat)
    requires i < 48
    ensures var (run, level) := ShortRuns2()[i / 16];
      Entries2()[16 + i]
      == 0x80_0000 + 3 * 0x1_0000 + run * 0x400 + (if i / 8 % 2 == 0 then level else 0x400 - level)
  {
    assert |ShortEntries2()| == 48;
    assert Entries2()[16 + i] == ShortEntries2()[i];
    if i < 8 {} else if i < 16 {} else if i < 24 {} else if i < 32 {} else if i < 40 {}
  }

  // --- the whole table ---------------------------------------------------------------------------

  function EntryOf(m: Meaning, nbits: nat): Word
    requires m.kind <= 2 && nbits < 32
  {
    Pack(Sym([], m.kind, m.run, m.level), nbits)
  }

  lemma SignedEntry(run: nat, level: int, nbits: nat)
    requires run < 64 && -512 < level < 512 && nbits < 32
    ensures EntryOf(Meaning(NORMAL, run, level), nbits)
         == 0x80_0000 + nbits * 0x1_0000 + run * 0x400 + if level < 0 then 0x400 + level else level
  {
  }

  lemma PairEntry(row: seq<Word>, runs: seq<(nat, nat)>, nbits: nat, i: nat)
    requires nbits < 32 && i < |row| && i < 2 * |runs| && PairAt(row, runs, nbits, i / 2)
    ensures Signed(runs)[i].kind == NORMAL && row[i] == EntryOf(Signed(runs)[i], nbits)
  {
    var (run, level: int) := runs[i / 2];
    SignedEntry(run, level, nbits);
    SignedEntry(run, 0 - level, nbits);
    assert i == 2 * (i / 2) || i == 2 * (i / 2) + 1;
  }

  // Which of a group's codes entry i is for: a long one by its suffix, or the short one that the
  // suffix starts with.
  function CodeOf(wide: Span, short: Span, i: nat): int {
    if wide.first <= i < wide.first + |wide.meanings| then i - wide.first
    else if short.width > wide.width then -1
    else |wide.meanings| + i / Pow2(wide.width - short.width) - short.first
  }

  // Entry i of this row is that code's.
  ghost predicate RowIs(n: nat, wide: Span, short: Span, row: seq<Word>, i: nat) {
    var k, group := CodeOf(wide, short, i), SpanCodes(n, wide) + SpanCodes(n, short);
    && i < |row| && 0 <= k < |group| && group[k].kind <= 2 && n < |group[k].code| < n + 33
    && row[i] == Pack(group[k], |group[k].code| - n - 1)
  }

  lemma LongEntry(n: nat, wide: Span, short: Span, row: seq<Word>, i: nat)
    requires wide.width < 32 && wide.first <= i < wide.first + |wide.meanings| && i < |row|
    requires var m := wide.meanings[i - wide.first]; m.kind <= 2 && row[i] == EntryOf(m, wide.width)
    ensures RowIs(n, wide, short, row, i)
  {
  }

  lemma ShortEntry(n: nat, wide: Span, short: Span, row: seq<Word>, i: nat, k: nat)
    requires !(wide.first <= i < wide.first + |wide.meanings|) && i < |row|
    requires short.width <= wide.width && short.width < 32
    requires i / Pow2(wide.width - short.width) == short.first + k && k < |short.meanings|
    requires short.meanings[k].kind <= 2 && row[i] == EntryOf(short.meanings[k], short.width)
    ensures RowIs(n, wide, short, row, i)
  {
  }

  lemma PlainRow(n: nat, row: seq<Word>, runs: seq<(nat, nat)>, nbits: nat, i: nat)
    requires nbits < 32 && i < |row| && i < 2 * |runs| && PairAt(row, runs, nbits, i / 2)
    ensures RowIs(n, Span(nbits, 0, Signed(runs)), Span(0, 0, []), row, i)
  {
    PairEntry(row, runs, nbits, i);
    LongEntry(n, Span(nbits, 0, Signed(runs)), Span(0, 0, []), row, i);
  }

  lemma Row0(i: nat)
    requires i < 4
    ensures RowIs(0, Wide(0), Short(0), Entries0(), i)
  {
    SmallPowers();
    SignedEntry(0, 1, 2);
    SignedEntry(0, -1, 2);
    if i < 2 {
      ShortEntry(0, Wide(0), Short(0), Entries0(), i, 0);
    } else {
      LongEntry(0, Wide(0), Short(0), Entries0(), i);
    }
  }

  lemma Row1(i: nat)
    requires i < 8
    ensures RowIs(1, Wide(1), Short(1), Entries1(), i)
  {
    SmallPowers();
    SignedEntry(1, 1, 2);
    SignedEntry(1, -1, 2);
    if i < 4 {
      Pairs1(i / 2);
      PairEntry(Entries1(), Runs1(), 3, i);
      LongEntry(1, Wide(1), Short(1), Entries1(), i);
    } else {
      ShortEntry(1, Wide(1), Short(1), Entries1(), i, i / 2 - 2);
    }
  }

  lemma Row2(i: nat)
    requires i < 64
    ensures RowIs(2, Wide(2), Short(2), Entries2(), i)
  {
    hide Entries2;
    SmallPowers();
    if i < 16 {
      Pairs2(i / 2);
      PairEntry(Entries2(), Runs2(), 6, i);
      LongEntry(2, Wide(2), Short(2), Entries2(), i);
    } else {
      Shorts2(i - 16);
      var (run, level: int) := ShortRuns2()[(i - 16) / 16];
      SignedEntry(run, level, 3);
      SignedEntry(run, 0 - level, 3);
      ShortEntry(2, Wide(2), Short(2), Entries2(), i, i / 8 - 2);
    }
  }

  lemma Row5()
    ensures RowIs(5, Wide(5), Short(5), Entries5(), 0)
  {
    SmallPowers();
    LongEntry(5, Wide(5), Short(5), Entries5(), 0);
  }

  lemma Row3(i: nat)
    requires i < 8
    ensures RowIs(3, Wide(3), Short(3), Entries3(), i)
  {
    hide RowIs;
    Pairs3(i / 2);
    PlainRow(3, Entries3(), Runs3(), 3, i);
  }

  lemma Row4(i: nat)
    requires i < 8
    ensures RowIs(4, Wide(4), Short(4), Entries4(), i)
  {
    hide RowIs;
    Pairs4(i / 2);
    PlainRow(4, Entries4(), Runs4(), 3, i);
  }

  lemma Row6(i: nat)
    requires i < 16
    ensures RowIs(6, Wide(6), Short(6), Entries6(), i)
  {
    hide RowIs;
    Pairs6(i / 2);
    PlainRow(6, Entries6(), Runs6(), 4, i);
  }

  lemma Row7(i: nat)
    requires i < 32
    ensures RowIs(7, Wide(7), Short(7), Entries7(), i)
  {
    hide RowIs;
    Pairs7(i / 2);
    PlainRow(7, Entries7(), Runs7(), 5, i);
  }

  lemma Row8(i: nat)
    requires i < 32
    ensures RowIs(8, Wide(8), Short(8), Entries8(), i)
  {
    hide RowIs;
    Pairs8(i / 2);
    PlainRow(8, Entries8(), Runs8(), 5, i);
  }

  lemma Row9(i: nat)
    requires i < 32
    ensures RowIs(9, Wide(9), Short(9), Entries9(), i)
  {
    hide RowIs;
    Pairs9(i / 2);
    PlainRow(9, Entries9(), Runs9(), 5, i);
  }

  lemma Row10(i: nat)
    requires i < 32
    ensures RowIs(10, Wide(10), Short(10), Entries10(), i)
  {
    hide RowIs;
    Pairs10(i / 2);
    PlainRow(10, Entries10(), Runs10(), 5, i);
  }

  lemma Row11(i: nat)
    requires i < 32
    ensures RowIs(11, Wide(11), Short(11), Entries11(), i)
  {
    hide RowIs;
    Pairs11(i / 2);
    PlainRow(11, Entries11(), Runs11(), 5, i);
  }

  // Every entry of the compiled table is that of the code its index leads to.
  lemma RowsAre(n: nat, i: nat)
    requires n <= MAXNZ && i < Pow2(WidthOf(n))
    ensures RowIs(n, Wide(n), Short(n), Row(n), i)
  {
    hide RowIs;
    hide Wide;
    hide Short;
    SmallPowers();
    hide Pow2;
    if n <= 5 { LowRows(n, i); } else { HighRows(n, i); }
  }

  lemma LowRows(n: nat, i: nat)
    requires n <= 5 && i < Pow2(WidthOf(n))
    ensures RowIs(n, Wide(n), Short(n), Row(n), i)
  {
    SmallPowers();
    hide RowIs;
    hide Wide;
    hide Short;
    hide Pow2;
    match n
    case 0 => Row0(i);
    case 1 => Row1(i);
    case 2 => Row2(i);
    case 3 => Row3(i);
    case 4 => Row4(i);
    case _ => Row5();
  }

  lemma HighRows(n: nat, i: nat)
    requires 6 <= n <= MAXNZ && i < Pow2(WidthOf(n))
    ensures RowIs(n, Wide(n), Short(n), Row(n), i)
  {
    SmallPowers();
    hide RowIs;
    hide Wide;
    hide Short;
    hide Pow2;
    match n
    case 6 => Row6(i);
    case 7 => Row7(i);
    case 8 => Row8(i);
    case 9 => Row9(i);
    case 10 => Row10(i);
    case _ => Row11(i);
  }

  // --- which code that is -----------------------------------------------------------------------------

  lemma CodeInside(wide: Span, short: Span, i: nat)
    requires Layout(wide, short) && i < Pow2(wide.width)
    ensures short.width <= wide.width && 0 <= CodeOf(wide, short, i) < |wide.meanings| + |short.meanings|
    ensures !(wide.first <= i < wide.first + |wide.meanings|) ==>
              0 <= CodeOf(wide, short, i) - |wide.meanings| < |short.meanings|
  {
    assert |BitsOf(i, wide.width)| == wide.width;
  }

  // The code of an entry starts the bits that lead to it.
  lemma CodeLeads(n: nat, wide: Span, short: Span, i: nat)
    requires Layout(wide, short) && i < Pow2(wide.width)
    ensures var k, group := CodeOf(wide, short, i), SpanCodes(n, wide) + SpanCodes(n, short);
            0 <= k < |group| && group[k].code <= Marked(n, BitsOf(i, wide.width))
  {
    hide Marked;
    hide BitsOf;
    hide SpanCodes;
    hide Layout;
    var suffix := BitsOf(i, wide.width);
    var k := CodeOf(wide, short, i);
    CodeInside(wide, short, i);
    if wide.first <= i < wide.first + |wide.meanings| {
      CodeAt(n, wide, short, k);
    } else {
      var top := i / Pow2(wide.width - short.width);
      TopFits(i, wide.width, short.width);
      SuffixesApart(top, short.width, i, wide.width);
      GenTable.MarkedPrefix(n, BitsOf(top, short.width), suffix);
      CodeAt(n, wide, short, k);
    }
  }

  // The compiled rows of every group mean to the decoder what Sony's book says.
  lemma CompiledRows(n: nat)
    requires n <= MAXNZ
    ensures GroupRows(Book(), n, WidthOf(n), 0, Row(n))
  {
    hide Groups;
    hide Assembled;
    hide GroupEntry;
    hide Row;
    hide Width;
    hide WidthOf;
    hide BitsOf;
    GroupsAssemble(MAXNZ + 1);
    WidthOfAssembled(MAXNZ + 1, Groups(MAXNZ + 1), n);
    RowSize(n);
    forall i | 0 <= i < Pow2(WidthOf(n))
      ensures GroupEntry(Book(), n, BitsOf(i, WidthOf(n)), Row(n)[i])
    {
      CompiledEntry(n, i);
    }
  }

  lemma RowSize(n: nat)
    requires n <= MAXNZ
    ensures |Row(n)| == Pow2(WidthOf(n))
  {
    SmallPowers();
    hide Pow2;
    hide Entries0;
    hide Entries1;
    hide Entries2;
    hide Entries3;
    hide Entries4;
    hide Entries5;
    hide Entries6;
    hide Entries7;
    hide Entries8;
    hide Entries9;
    hide Entries10;
    hide Entries11;
  }

  lemma ShapedIn(m: nat, book: seq<Sym>, k: nat)
    requires Assembled(m, book) && k < |book|
    ensures WellFormedSym(book[k])
  {
    assert Shaped(m, book[k]);
  }

  lemma CompiledEntry(n: nat, i: nat)
    requires n <= MAXNZ && i < Pow2(WidthOf(n)) && i < |Row(n)|
    ensures GroupEntry(Book(), n, BitsOf(i, WidthOf(n)), Row(n)[i])
  {
    hide Groups;
    hide Assembled;
    hide WidthOf;
    hide Row;
    hide Wide;
    hide Short;
    hide Layout;
    hide Pack;
    hide BitsOf;
    RowsAre(n, i);
    GroupLayout(n);
    CodeLeads(n, Wide(n), Short(n), i);
    var k := CodeOf(Wide(n), Short(n), i);
    var at := GroupInside(n, MAXNZ + 1, k);
    GroupsAssemble(MAXNZ + 1);
    var sym := Group(n)[k];
    assert Book()[at] == sym;
    ShapedIn(MAXNZ + 1, Book(), at);
    PackRoundTrip(sym, |sym.code| - n - 1);
  }

  // --- no run or level is too large for its word --------------------------------------------------

  predicate Fits(run: nat, level: int) {
    run < 64 && -512 < level < 512
  }

  function RunsOf(n: nat): seq<(nat, nat)> {
    match n
    case 0 => Runs0() case 1 => Runs1() case 2 => Runs2() case 3 => Runs3() case 4 => Runs4() case 5 => []
    case 6 => Runs6() case 7 => Runs7() case 8 => Runs8() case 9 => Runs9() case 10 => Runs10() case _ => Runs11()
  }

  lemma RunFits(n: nat, p: nat)
    requires n <= MAXNZ && p < |RunsOf(n)|
    ensures Fits(RunsOf(n)[p].0, RunsOf(n)[p].1)
  {
    match n
    case 0 =>
    case 1 => Pairs1(p);
    case 2 => Pairs2(p);
    case 3 => Pairs3(p);
    case 4 => Pairs4(p);
    case 5 =>
    case 6 => Pairs6(p);
    case 7 => Pairs7(p);
    case 8 => Pairs8(p);
    case 9 => Pairs9(p);
    case 10 => Pairs10(p);
    case _ => Pairs11(p);
  }

  lemma SignedFits(runs: seq<(nat, nat)>, i: nat)
    requires i < 2 * |runs| && Fits(runs[i / 2].0, runs[i / 2].1)
    ensures Fits(Signed(runs)[i].run, Signed(runs)[i].level)
  {
  }

  lemma GroupMeanings(n: nat)
    requires n <= MAXNZ
    ensures n != 5 ==> Wide(n).meanings == Signed(RunsOf(n))
    ensures n == 5 ==> |Wide(n).meanings| == 1 && Wide(n).meanings[0].kind == ESCAPE
  {
    hide Signed;
  }

  lemma ShortFits(n: nat, k: nat)
    requires n <= MAXNZ && k < |Short(n).meanings| && Short(n).meanings[k].kind == NORMAL
    ensures Fits(Short(n).meanings[k].run, Short(n).meanings[k].level)
  {
    if n == 2 { SignedFits(ShortRuns2(), k); }
  }

  lemma GroupFits(n: nat, k: nat)
    requires n <= MAXNZ && k < |Group(n)| && Group(n)[k].kind == NORMAL
    ensures Fits(Group(n)[k].run, Group(n)[k].level)
  {
    var wide, short := Wide(n), Short(n);
    GroupMeanings(n);
    hide Wide;
    hide Short;
    hide RunsOf;
    hide Signed;
    hide Marked;
    hide BitsOf;
    if k < |wide.meanings| {
      RunFits(n, k / 2);
      SignedFits(RunsOf(n), k);
    } else {
      ShortFits(n, k - |wide.meanings|);
    }
  }

  // So every code of the book reads as its own run and level.
  lemma {:induction false} GroupsFit(m: nat, k: nat)
    requires m <= MAXNZ + 1 && k < |Groups(m)| && Groups(m)[k].kind == NORMAL
    ensures Fits(Groups(m)[k].run, Groups(m)[k].level)
    decreases m
  {
    hide Group;
    if k < |Groups(m - 1)| {
      GroupsFit(m - 1, k);
    } else {
      GroupFits(m - 1, k - |Groups(m - 1)|);
    }
  }

  lemma BookFits(k: nat)
    requires k < |Book()| && Book()[k].kind == NORMAL
    ensures Fits(Book()[k].run, Book()[k].level)
  {
    hide Groups;
    GroupsFit(MAXNZ + 1, k);
  }
}
