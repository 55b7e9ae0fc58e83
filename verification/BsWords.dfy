/** What the words of a decoded frame mean: run and level, scale and coefficient, header and result. */
module BsWords {
  import opened Bits
  import opened CodeBook
  import opened BsStream
  import opened BsFrame
  import opened BsTruncation
  import opened BsWriter
  import BsRoundTrip

  // --- run-level words ---------------------------------------------------------------------

  // The MDEC reads six bits of run above ten bits of signed level.
  function RunOf(h: Half): nat {
    h / 0x400
  }

  function LevelOf(h: Half): int {
    if h % 0x400 < 0x200 then h % 0x400 else h % 0x400 - 0x400
  }

  // A code's word reads as the code's own run and level.
  lemma PlainWord(s: Sym)
    requires s.kind == NORMAL && s.run < 64 && -512 <= s.level < 512
    ensures RunOf(Halfword(s)) == s.run && LevelOf(Halfword(s)) == s.level
  {
  }

  // A DC word reads as the low six bits of the scale above the coefficient's ten.
  lemma ScaleAndDc(q: nat, dc: nat)
    requires dc < 1024
    ensures RunOf(DcWord(q, dc)) == q % 64 && DcWord(q, dc) % 0x400 == dc
  {
  }

  // --- delta DC ---------------------------------------------------------------------------

  // Cr, Cb and four luma blocks make a macroblock.
  function PlaneOf(k: nat): nat {
    if k % 6 == 0 then 0 else if k % 6 == 1 then 1 else 2
  }

  // The differences of block k's plane, up to and including its own.
  function PlaneSum(blocks: seq<BlockData>, k: nat, plane: nat): int {
    if k == 0 || k > |blocks| then 0
    else PlaneSum(blocks, k - 1, plane) + if PlaneOf(k - 1) == plane then blocks[k - 1].dc else 0
  }

  // The coefficient of block k: its own in versions 1 and 2, in version 3 four times that sum.
  function Coefficient(version: nat, blocks: seq<BlockData>, k: nat): int
    requires k < |blocks|
  {
    if version != 3 then blocks[k].dc else 4 * PlaneSum(blocks, k + 1, PlaneOf(k))
  }

  // The state before block k: the sums so far, and the block's place in its macroblock.
  ghost predicate Summed(version: nat, blocks: seq<BlockData>, k: nat, st: DcState) {
    && DcReady(st) && k <= |blocks|
    && if version != 3 then st == DC_START
       else
         st.block == k % 6
         && forall p {:trigger st.preds[p]} :: 0 <= p < 3 ==> st.preds[p] == 4 * PlaneSum(blocks, k, p)
  }

  lemma SumStep(version: nat, blocks: seq<BlockData>, k: nat, st: DcState)
    requires k < |blocks| && Summed(version, blocks, k, st) && LegalDc(version, blocks[k].dc)
    ensures Summed(version, blocks, k + 1, StateAfter(version, st, blocks[k]))
    ensures DcAfter(version, st, blocks[k].dc, 0).value == Coefficient(version, blocks, k) % 1024
  {
    if version == 3 {
      assert (k + 1) % 6 == if k % 6 == 5 then 0 else k % 6 + 1;
      assert Plane(st.block) == PlaneOf(k);
    }
  }

  // Block k of what was written, as words: scale and coefficient, each code's run and level or an
  // escape's word as it is, and the end marker.
  ghost predicate Describes(w: Writer, version: nat, q: nat, blocks: seq<BlockData>, k: nat, words: seq<Half>) {
    && k < |blocks| && |words| == |blocks[k].codes| + 2
    && RunOf(words[0]) == q % 64 && words[0] % 0x400 == Coefficient(version, blocks, k) % 0x400
    && words[|words| - 1] == 0xfe00
    && forall j {:trigger blocks[k].codes[j]} :: 0 <= j < |blocks[k].codes| ==>
         match blocks[k].codes[j]
         case Escaped(word) => words[j + 1] == word
         case Plain(c) =>
           c < |w.book|
           && (w.book[c].run < 64 && -512 <= w.book[c].level < 512 ==>
                 RunOf(words[j + 1]) == w.book[c].run && LevelOf(words[j + 1]) == w.book[c].level)
  }

  lemma CodeDescribed(w: Writer, version: nat, q: nat, blocks: seq<BlockData>, k: nat, words: seq<Half>, j: nat)
    requires Describes(w, version, q, blocks, k, words) && j < |blocks[k].codes| && blocks[k].codes[j].Plain?
    requires LegalBlocks(w, version, blocks)
    ensures var c := blocks[k].codes[j].k;
      && j + 1 < |words| && c < |w.book| && w.book[c].kind == NORMAL
      && (w.book[c].run < 64 && -512 <= w.book[c].level < 512 ==>
            RunOf(words[j + 1]) == w.book[c].run && LevelOf(words[j + 1]) == w.book[c].level)
  {
    assert blocks[k] in blocks && LegalBlock(w, version, blocks[k]);
    assert blocks[k].codes[j] in blocks[k].codes;
  }

  lemma {:induction false} CodesDescribed(w: Writer, codes: seq<Code>, j: nat)
    requires (forall c :: c in codes ==> LegalCode(w, c)) && j <= |codes|
    ensures var words := CodesWords(w, codes);
            |words| == |codes| + 1 && words[j] == if j == |codes| then 0xfe00 else CodeWord(w, codes[j])
    decreases |codes|
  {
    if codes != [] {
      assert codes[0] in codes;
      CodesDescribed(w, codes[1..], if j > 0 then j - 1 else 0);
    }
  }

  lemma BlockDescribed(w: Writer, version: nat, q: nat, blocks: seq<BlockData>, k: nat, st: DcState)
    requires k < |blocks| && LegalBlock(w, version, blocks[k]) && Summed(version, blocks, k, st)
    ensures Describes(w, version, q, blocks, k, BlockWords(w, version, q, st, blocks[k]))
  {
    var b := blocks[k];
    SumStep(version, blocks, k, st);
    ScaleAndDc(q, DcAfter(version, st, b.dc, 0).value);
    CodesDescribed(w, b.codes, |b.codes|);
    var words := BlockWords(w, version, q, st, b);
    forall j {:trigger b.codes[j]} | 0 <= j < |b.codes|
      ensures words[j + 1] == CodeWord(w, b.codes[j])
      ensures b.codes[j].Plain? ==> b.codes[j].k < |w.book| && w.book[b.codes[j].k].kind == NORMAL
    {
      assert b.codes[j] in b.codes;
      CodesDescribed(w, b.codes, j);
    }
    forall j {:trigger b.codes[j]} | 0 <= j < |b.codes| && b.codes[j].Plain?
      ensures var s := w.book[b.codes[j].k];
              s.run < 64 && -512 <= s.level < 512 ==> RunOf(words[j + 1]) == s.run && LevelOf(words[j + 1]) == s.level
    {
      var s := w.book[b.codes[j].k];
      if s.run < 64 && -512 <= s.level < 512 { PlainWord(s); }
    }
  }

  lemma {:induction false} BlocksDescribed(w: Writer, version: nat, q: nat, blocks: seq<BlockData>, from: nat,
                                           st: DcState, k: nat)
    requires LegalBlocks(w, version, blocks) && from <= k < |blocks| && Summed(version, blocks, from, st)
    ensures LegalBlocks(w, version, blocks[from..])
    ensures Describes(w, version, q, blocks, k, BlocksWords(w, version, q, st, blocks[from..])[k - from])
    decreases k - from
  {
    hide Describes;
    hide BlockWords;
    hide Summed;
    var rest := blocks[from..];
    SummedReady(version, blocks, from, st);
    assert rest[0] == blocks[from] && blocks[from] in blocks && rest[1..] == blocks[from + 1..];
    assert LegalBlock(w, version, blocks[from]);
    if k == from {
      BlockDescribed(w, version, q, blocks, k, st);
    } else {
      SumStep(version, blocks, from, st);
      BlocksDescribed(w, version, q, blocks, from + 1, StateAfter(version, st, blocks[from]), k);
    }
  }

  lemma SummedReady(version: nat, blocks: seq<BlockData>, k: nat, st: DcState)
    requires Summed(version, blocks, k, st)
    ensures DcReady(st)
  {
  }

  // The round trip in these terms: whatever is written comes back as words that the MDEC reads as
  // just that.
  lemma RoundTripMeans(w: Writer, version: nat, q: Half, blocks: seq<BlockData>, outHalfwords: nat,
                       target: nat, input: seq<Byte>, k: nat)
    requires Able(w) && LegalBlocks(w, version, blocks) && 1 <= version <= 3 && k < |blocks|
    requires target == BsRoundTrip.RoundUp64(|Flatten(BlocksWords(w, version, q, DC_START, blocks))|)
    requires target < 0x2_0000 && target <= outHalfwords && input == BsRoundTrip.WriteFrame(w, version, q, blocks)
    ensures var words := FrameBlocks(w.book, input).words;
            |words| == |blocks| && Describes(w, version, q, blocks, k, words[k])
  {
    hide BsRoundTrip.WriteFrame;
    hide BlocksWords;
    hide Describes;
    hide FrameBlocks;
    var words := BlocksWords(w, version, q, DC_START, blocks);
    BsRoundTrip.RoundTrip(w, version, q, blocks, outHalfwords, words, target, input);
    StartSummed(version, blocks);
    assert blocks[0..] == blocks;
    BlocksDescribed(w, version, q, blocks, 0, DC_START, k);
  }

  lemma StartSummed(version: nat, blocks: seq<BlockData>)
    ensures Summed(version, blocks, 0, DC_START)
  {
  }

  // The differences that a size stands for: those whose magnitude has that many bits, in order of
  // the bits that follow.
  lemma DeltaMeans(raw: nat, more: nat, size: nat)
    requires 0 < size && raw < more < Pow2(size)
    ensures Delta(raw, size) < Delta(more, size)
    ensures Pow2(size - 1) <= (if Delta(raw, size) < 0 then -Delta(raw, size) else Delta(raw, size)) < Pow2(size)
    ensures Pow2(size - 1) <= (if Delta(more, size) < 0 then -Delta(more, size) else Delta(more, size)) < Pow2(size)
  {
  }

  // --- bytes ---------------------------------------------------------------------------------

  // Bit b of a byte, counted from the low end.
  function BitOf(v: Byte, b: nat): Bit
    requires b < 8
  {
    v / Pow2(b) % 2
  }

  lemma {:induction false} BitsOfAt(v: nat, n: nat, i: nat)
    requires i < n
    ensures BitsOf(v, n)[i] == v / Pow2(n - 1 - i) % 2
    decreases n
  {
    if i < n - 1 {
      BitsOfAt(v / 2, n - 1, i);
      DivTwice(v, Pow2(n - 2 - i));
    }
  }

  // The bits of a payload: of each pair of bytes the second one first, each from its high end.
  lemma PayloadBitIs(payload: seq<Byte>, h: nat, j: nat)
    requires 2 * h + 1 < |payload| && j < 16
    ensures 16 * h + j < |PayloadBits(payload)|
    ensures PayloadBits(payload)[16 * h + j]
         == if j < 8 then BitOf(payload[2 * h + 1], 7 - j) else BitOf(payload[2 * h], 15 - j)
  {
    hide BitsOf;
    hide BitOf;
    hide Pow2;
    DivModUnique(h, j, 16);
    var v := HalfAt(payload, 2 * h);
    BitsOfAt(v, 16, j);
    HalfBit(payload[2 * h], payload[2 * h + 1], 15 - j);
  }

  lemma HalfBit(lo: Byte, hi: Byte, b: nat)
    requires b < 16
    ensures (lo + 0x100 * hi) / Pow2(b) % 2 == if b < 8 then BitOf(lo, b) else BitOf(hi, b - 8)
  {
    SmallPowers();
    if b >= 8 {
      DivDivPow(lo + 0x100 * hi, b - 8);
      DivModUnique(hi, lo, 0x100);
    } else {
      LowBit(lo, hi, 8, b);
    }
  }

  lemma {:induction false} DivDivPow(v: nat, k: nat)
    ensures v / Pow2(k + 8) == v / 0x100 / Pow2(k)
    decreases k
  {
    SmallPowers();
    if k > 0 {
      DivDivPow(v / 2, k - 1);
      DivTwice(v, Pow2(k + 7));
      DivTwice(v / 0x100, Pow2(k - 1));
      assert v / 2 / 0x100 == v / 0x100 / 2;
    }
  }

  // What is added from bit e on leaves the bits below as they were.
  lemma LowBit(lo: nat, x: nat, e: nat, b: nat)
    requires b < e
    ensures (lo + Pow2(e) * x) / Pow2(b) % 2 == lo / Pow2(b) % 2
  {
    var p, m := Pow2(b), Pow2(e - b - 1);
    assert Pow2(b + 1) == 2 * p;
    hide Pow2;
    Pow2Add(b + 1, e - b - 1);
    Regroup(p, m, x);
    EvenMore(lo, m * x, p);
  }

  lemma Regroup(p: nat, m: nat, x: nat)
    ensures (2 * p) * m * x == p * (2 * (m * x))
  {
    assert (2 * p) * m == 2 * (p * m);
    assert 2 * (p * m) * x == 2 * (p * (m * x));
  }

  lemma EvenMore(lo: nat, y: nat, p: nat)
    requires p > 0
    ensures (lo + p * (2 * y)) / p % 2 == lo / p % 2
  {
    var q, r := lo / p, lo % p;
    assert lo + p * (2 * y) == (q + 2 * y) * p + r;
    DivModUnique(q + 2 * y, r, p);
  }

  // --- header and result -----------------------------------------------------------------------

  // What the eight header bytes say, and which answer is given when.
  lemma HeaderMeans(book: seq<Sym>, input: seq<Byte>, outHalfwords: nat)
    ensures var r := FrameResult(book, input, outHalfwords);
            && (r.error == SHORT <==> |input| < 8)
            && (|input| >= 8 ==>
                  var declared := 2 * (input[0] as nat + 0x100 * input[1] as nat);
                  && declared == RlHalfwords(input)
                  && (r.error == NOT_BS <==> !(input[2] == 0 && input[3] == 0x38))
                  && (r.error == BAD_VERSION <==>
                        input[2] == 0 && input[3] == 0x38 && !(1 <= input[6] <= 3 && input[7] == 0))
                  && (r.error in {OK, OUTPUT_TOO_SMALL, TRUNCATED, OVERLONG} ==>
                        && r.mdecCommand == input[0] as nat + 0x100 * input[1] as nat
                                            + 0x1_0000 * input[2] as nat + 0x100_0000 * input[3] as nat
                        && r.qScale == input[4] as nat + 0x100 * input[5] as nat && r.version == input[6] as nat
                        && (r.error == OUTPUT_TOO_SMALL <==> outHalfwords < declared)
                        && r.halfwords == if r.error == OUTPUT_TOO_SMALL then 0 else declared))
  {
    hide FrameBlocks;
    hide Flatten;
  }

  // What is said of a frame that was decoded: how its blocks ended, and how far from the end.
  lemma VerdictMeans(book: seq<Sym>, input: seq<Byte>, outHalfwords: nat)
    requires Refusal(input, outHalfwords) == OK
    ensures var r, blocks := FrameResult(book, input, outHalfwords), FrameBlocks(book, input);
            var missing := RlHalfwords(input) - |Flatten(blocks.words)|;
            && (r.error == TRUNCATED <==> blocks.end == RanOut && missing >= 64)
            && (r.error == OVERLONG <==> blocks.end == TooLong)
            && (r.error == OK <==> blocks.end == Full || (blocks.end == RanOut && missing < 64))
            && r.blocks == |blocks.words|
  {
    hide FrameBlocks;
    hide Flatten;
  }

  // Behind the blocks nothing but end markers.
  lemma TailMeans(book: seq<Sym>, input: seq<Byte>, outHalfwords: nat, i: nat)
    requires Refusal(input, outHalfwords) == OK
    requires |Flatten(FrameBlocks(book, input).words)| <= i < |FrameWords(book, input)|
    ensures FrameWords(book, input)[i] == 0xfe00
  {
    hide FrameBlocks;
    hide Flatten;
  }

  // --- the DC size books -------------------------------------------------------------------------

  // Tables B-12 and B-13 of ISO/IEC 11172-2 as the standard prints them, code by code.
  function PrintedCode(luma: bool, size: nat): seq<Bit> {
    if luma then
      match size
      case 0 => [1, 0, 0] case 1 => [0, 0] case 2 => [0, 1] case 3 => [1, 0, 1] case 4 => [1, 1, 0]
      case 5 => [1, 1, 1, 0] case 6 => [1, 1, 1, 1, 0] case 7 => [1, 1, 1, 1, 1, 0] case _ => [1, 1, 1, 1, 1, 1, 0]
    else
      match size
      case 0 => [0, 0] case 1 => [0, 1] case 2 => [1, 0] case 3 => [1, 1, 0] case 4 => [1, 1, 1, 0]
      case 5 => [1, 1, 1, 1, 0] case 6 => [1, 1, 1, 1, 1, 0] case 7 => [1, 1, 1, 1, 1, 1, 0]
      case _ => [1, 1, 1, 1, 1, 1, 1, 0]
  }

  lemma SizeCodesArePrinted(luma: bool, size: nat)
    requires size < SIZES
    ensures BitsOf(SizeCode(luma, size), SizeBits(luma, size)) == PrintedCode(luma, size)
  {
    var bits, printed := BitsOf(SizeCode(luma, size), SizeBits(luma, size)), PrintedCode(luma, size);
    SmallPowers();
    hide BitsOf;
    hide Pow2;
    forall i | 0 <= i < |printed|
      ensures |bits| == |printed| && bits[i] == printed[i]
    {
      BitsOfAt(SizeCode(luma, size), |bits|, i);
    }
  }
}
