/**
 * Blocks written as bits: the format's definition read forwards. Codes go most significant
 * bit first and blocks end to end, and every block reads back as it was written.
 */
module BsWriter {
  import opened Bits
  import opened CodeBook
  import opened BsStream
  import opened BsFrame

  // A code of the book, or an escape carrying any run-level word.
  datatype Code = Plain(k: nat) | Escaped(word: Half)

  // `dc` is the coefficient itself in versions 1 and 2, the difference in version 3.
  datatype BlockData = BlockData(dc: int, codes: seq<Code>)

  // A book with the positions of an escape code and an end-of-block code.
  datatype Writer = Writer(book: seq<Sym>, esc: nat, eob: nat)

  ghost predicate Able(w: Writer) {
    && PrefixFree(w.book)
    && (forall k {:trigger WellFormedSym(w.book[k])} :: 0 <= k < |w.book| ==> WellFormedSym(w.book[k]))
    && w.esc < |w.book| && w.book[w.esc].kind == ESCAPE
    && w.eob < |w.book| && w.book[w.eob].kind == EOB
  }

  predicate LegalCode(w: Writer, c: Code) {
    c.Plain? ==> c.k < |w.book| && w.book[c.k].kind == NORMAL
  }

  predicate LegalDc(version: nat, dc: int) {
    if version == 3 then -255 <= dc <= 255 else 0 <= dc < 1024
  }

  predicate LegalBlock(w: Writer, version: nat, b: BlockData) {
    && LegalDc(version, b.dc)
    && forall c :: c in b.codes ==> LegalCode(w, c)
  }

  // --- codes -------------------------------------------------------------------------

  function CodeBits(w: Writer, c: Code): seq<Bit>
    requires LegalCode(w, c) && w.esc < |w.book|
  {
    match c
    case Plain(k) => w.book[k].code
    case Escaped(word) => w.book[w.esc].code + BitsOf(word, 16)
  }

  function CodeWord(w: Writer, c: Code): Half
    requires LegalCode(w, c)
  {
    match c
    case Plain(k) => Halfword(w.book[k])
    case Escaped(word) => word
  }

  function CodesBits(w: Writer, codes: seq<Code>): seq<Bit>
    requires w.esc < |w.book| && w.eob < |w.book| && forall c :: c in codes ==> LegalCode(w, c)
  {
    if codes == [] then w.book[w.eob].code else CodeBits(w, codes[0]) + CodesBits(w, codes[1..])
  }

  function CodesWords(w: Writer, codes: seq<Code>): seq<Half>
    requires forall c :: c in codes ==> LegalCode(w, c)
  {
    if codes == [] then [0xfe00] else [CodeWord(w, codes[0])] + CodesWords(w, codes[1..])
  }

  ghost predicate Spells(s: seq<Bit>, pos: nat, bits: seq<Bit>) {
    Slice(s, pos, |bits|) == bits
  }

  lemma SpellsParts(s: seq<Bit>, pos: nat, a: seq<Bit>, b: seq<Bit>)
    requires Spells(s, pos, a + b)
    ensures Spells(s, pos, a) && Spells(s, pos + |a|, b)
  {
    assert Slice(s, pos, |a|) == Slice(s, pos, |a + b|)[..|a|] == (a + b)[..|a|];
    assert Slice(s, pos + |a|, |b|) == Slice(s, pos, |a + b|)[|a|..] == (a + b)[|a|..];
  }

  lemma CodeReads(w: Writer, s: seq<Bit>, pos: nat, c: Code)
    requires Able(w) && LegalCode(w, c) && Spells(s, pos, CodeBits(w, c))
    ensures var sym := NextSymbol(w.book, s, pos);
            && sym.kind != EOB
            && SymbolWord(sym, s, pos) == CodeWord(w, c)
            && SymbolEnd(sym, pos) == pos + |CodeBits(w, c)|
  {
    match c
    case Plain(k) =>
      assert WellFormedSym(w.book[k]);
      NextSymbolIs(w.book, s, pos, k, 0);
    case Escaped(word) =>
      SpellsParts(s, pos, w.book[w.esc].code, BitsOf(word, 16));
      assert WellFormedSym(w.book[w.esc]);
      NextSymbolIs(w.book, s, pos, w.esc, 0);
      Pow2Values();
      ValBitsOf(word, 16);
  }

  lemma {:induction false} CodesRead(w: Writer, s: seq<Bit>, pos: nat, codes: seq<Code>, room: nat)
    requires Able(w) && (forall c :: c in codes ==> LegalCode(w, c))
    requires Spells(s, pos, CodesBits(w, codes)) && |CodesWords(w, codes)| <= room
    ensures DecodeAc(w.book, s, pos, room) == Whole(CodesWords(w, codes), pos + |CodesBits(w, codes)|)
    decreases |codes|
  {
    if codes == [] {
      assert WellFormedSym(w.book[w.eob]);
      NextSymbolIs(w.book, s, pos, w.eob, 0);
    } else {
      var bits := CodeBits(w, codes[0]);
      SpellsParts(s, pos, bits, CodesBits(w, codes[1..]));
      CodeReads(w, s, pos, codes[0]);
      CodesRead(w, s, pos + |bits|, codes[1..], room - 1);
    }
  }

  // --- DC ----------------------------------------------------------------------------

  // The number of bits in m.
  function SizeOf(m: nat): nat {
    if m == 0 then 0 else 1 + SizeOf(m / 2)
  }

  lemma {:induction false} SizeOfIsTight(m: nat, n: nat)
    ensures m < Pow2(SizeOf(m)) && (m > 0 ==> SizeOf(m) > 0 && Pow2(SizeOf(m) - 1) <= m)
    ensures m < Pow2(n) ==> SizeOf(m) <= n
    decreases m
  {
    if m > 0 {
      SizeOfIsTight(m / 2, if n > 0 then n - 1 else 0);
    }
  }

  function Raw(delta: int): nat {
    var size := SizeOf(if delta < 0 then -delta else delta);
    SizeOfIsTight(if delta < 0 then -delta else delta, 0);
    if delta > 0 then delta else delta + Pow2(size) - 1
  }

  function DifferenceSize(delta: int): (size: nat)
    requires -255 <= delta <= 255
    ensures size < SIZES
  {
    SizeOfIsTight(if delta < 0 then -delta else delta, 8);
    SmallPowers();
    SizeOf(if delta < 0 then -delta else delta)
  }

  lemma RawReads(delta: int)
    requires -255 <= delta <= 255
    ensures Raw(delta) < Pow2(DifferenceSize(delta)) && Delta(Raw(delta), DifferenceSize(delta)) == delta
  {
    SizeOfIsTight(if delta < 0 then -delta else delta, 8);
  }

  function DifferenceBits(luma: bool, delta: int): seq<Bit>
    requires -255 <= delta <= 255
  {
    var size := DifferenceSize(delta);
    BitsOf(SizeCode(luma, size), SizeBits(luma, size)) + BitsOf(Raw(delta), size)
  }

  lemma DifferenceReads(luma: bool, s: seq<Bit>, pos: nat, delta: int)
    requires -255 <= delta <= 255 && Spells(s, pos, DifferenceBits(luma, delta))
    ensures DecodeDifference(luma, s, pos) == Difference(delta, pos + |DifferenceBits(luma, delta)|)
  {
    var size := DifferenceSize(delta);
    SpellsParts(s, pos, BitsOf(SizeCode(luma, size), SizeBits(luma, size)), BitsOf(Raw(delta), size));
    SizeReads(luma, s, pos, size);
    RawReads(delta);
    ValBitsOf(Raw(delta), size);
  }

  lemma SizeReads(luma: bool, s: seq<Bit>, pos: nat, size: nat)
    requires size < SIZES && Spells(s, pos, BitsOf(SizeCode(luma, size), SizeBits(luma, size)))
    ensures SizeAt(luma, s, pos, 0) == size
  {
    SizeCodeFits(luma, size);
    ValBitsOf(SizeCode(luma, size), SizeBits(luma, size));
    assert SizeCodeAt(luma, s, pos, size);
    var found := SizeAt(luma, s, pos, 0);
    SizeUnique(luma, s, pos, found, size);
  }

  lemma SizeCodeFits(luma: bool, size: nat)
    requires size < SIZES
    ensures SizeCode(luma, size) < Pow2(SizeBits(luma, size))
  {
    SmallPowers();
  }

  function DcBits(version: nat, st: DcState, dc: int): seq<Bit>
    requires LegalDc(version, dc)
  {
    if version == 3 then DifferenceBits(IsLuma(st.block), dc) else BitsOf(dc, 10)
  }

  // The coefficient a written DC stands for, and the predictors after it.
  function DcAfter(version: nat, st: DcState, dc: int, next: nat): (r: Dc)
    requires DcReady(st) && LegalDc(version, dc)
    ensures r.Dc? && r.value < 1024 && DcReady(r.st)
  {
    if version == 3 then DcOf(dc, next, st) else Dc(dc, next, st)
  }

  lemma DcReads(version: nat, s: seq<Bit>, pos: nat, st: DcState, dc: int)
    requires DcReady(st) && LegalDc(version, dc)
    requires Spells(s, pos, DcBits(version, st, dc))
    ensures DecodeDc(version, s, pos, st) == DcAfter(version, st, dc, pos + |DcBits(version, st, dc)|)
  {
    if version == 3 {
      DifferenceReads(IsLuma(st.block), s, pos, dc);
    } else {
      Pow2Values();
      ValBitsOf(dc, 10);
    }
  }

  // --- blocks ------------------------------------------------------------------------

  function BlockBits(w: Writer, version: nat, st: DcState, b: BlockData): seq<Bit>
    requires w.esc < |w.book| && w.eob < |w.book| && LegalBlock(w, version, b)
  {
    DcBits(version, st, b.dc) + CodesBits(w, b.codes)
  }

  function BlockWords(w: Writer, version: nat, q: nat, st: DcState, b: BlockData): seq<Half>
    requires DcReady(st) && LegalBlock(w, version, b)
  {
    [DcWord(q, DcAfter(version, st, b.dc, 0).value)] + CodesWords(w, b.codes)
  }

  function StateAfter(version: nat, st: DcState, b: BlockData): (st': DcState)
    requires DcReady(st) && LegalDc(version, b.dc)
    ensures DcReady(st')
  {
    DcAfter(version, st, b.dc, 0).st
  }

  lemma BlockReads(w: Writer, s: seq<Bit>, avail: nat, version: nat, q: nat, pos: nat, st: DcState,
                   b: BlockData, room: nat, block: Block)
    requires Able(w) && DcReady(st) && LegalBlock(w, version, b)
    requires Spells(s, pos, BlockBits(w, version, st, b)) && pos + |BlockBits(w, version, st, b)| <= avail
    requires block == Block(BlockWords(w, version, q, st, b), pos + |BlockBits(w, version, st, b)|,
                            StateAfter(version, st, b))
    requires |block.words| <= room
    ensures DecodeBlock(w.book, s, avail, version, q, room, pos, st) == block
  {
    hide CodesBits;
    hide CodesWords;
    hide DecodeBlock;
    hide DecodeDc;
    hide DecodeAc;
    hide Spells;
    var bits := DcBits(version, st, b.dc);
    SpellsParts(s, pos, bits, CodesBits(w, b.codes));
    DcReads(version, s, pos, st, b.dc);
    CodesRead(w, s, pos + |bits|, b.codes, room - 1);
    var dc := DcAfter(version, st, b.dc, pos + |bits|);
    assert dc.value == DcAfter(version, st, b.dc, 0).value && dc.st == StateAfter(version, st, b);
    BlockFromParts(w.book, s, avail, version, q, room, pos, st, dc, CodesWords(w, b.codes),
                   pos + |bits| + |CodesBits(w, b.codes)|);
  }

  lemma BlockFromParts(book: seq<Sym>, s: seq<Bit>, avail: nat, version: nat, q: nat, room: nat, pos: nat, st: DcState,
                       dc: Dc, words: seq<Half>, next: nat)
    requires DcReady(st) && room > 0 && dc.Dc? && dc.value < 1024 && dc.next <= next <= avail
    requires DecodeDc(version, s, pos, st) == dc && DecodeAc(book, s, dc.next, room - 1) == Whole(words, next)
    ensures DecodeBlock(book, s, avail, version, q, room, pos, st) == Block([DcWord(q, dc.value)] + words, next, dc.st)
  {
  }

  ghost predicate LegalBlocks(w: Writer, version: nat, blocks: seq<BlockData>) {
    forall b :: b in blocks ==> LegalBlock(w, version, b)
  }

  function BlocksBits(w: Writer, version: nat, st: DcState, blocks: seq<BlockData>): seq<Bit>
    requires w.esc < |w.book| && w.eob < |w.book| && DcReady(st) && LegalBlocks(w, version, blocks)
    decreases |blocks|
  {
    if blocks == [] then []
    else BlockBits(w, version, st, blocks[0]) + BlocksBits(w, version, StateAfter(version, st, blocks[0]), blocks[1..])
  }

  function BlocksWords(w: Writer, version: nat, q: nat, st: DcState, blocks: seq<BlockData>): (ws: seq<seq<Half>>)
    requires DcReady(st) && LegalBlocks(w, version, blocks)
    ensures |ws| == |blocks|
    decreases |blocks|
  {
    if blocks == [] then []
    else [BlockWords(w, version, q, st, blocks[0])]
         + BlocksWords(w, version, q, StateAfter(version, st, blocks[0]), blocks[1..])
  }

  function StateAfterAll(w: Writer, version: nat, st: DcState, blocks: seq<BlockData>): (st': DcState)
    requires DcReady(st) && LegalBlocks(w, version, blocks)
    ensures DcReady(st')
    decreases |blocks|
  {
    if blocks == [] then st else
      assert LegalBlock(w, version, blocks[0]);
      StateAfterAll(w, version, StateAfter(version, st, blocks[0]), blocks[1..])
  }

  // The written blocks decode to themselves, and decoding goes on right after them.
  lemma {:induction false} BlocksRead(w: Writer, s: seq<Bit>, avail: nat, version: nat, q: nat, pos: nat, st: DcState,
                                      blocks: seq<BlockData>, room: nat, words: seq<seq<Half>>,
                                      room': nat, pos': nat, st': DcState, more: Blocks)
    requires Able(w) && DcReady(st) && LegalBlocks(w, version, blocks)
    requires Spells(s, pos, BlocksBits(w, version, st, blocks)) && words == BlocksWords(w, version, q, st, blocks)
    requires room == room' + |Flatten(words)| && pos' == pos + |BlocksBits(w, version, st, blocks)| <= avail
    requires st' == StateAfterAll(w, version, st, blocks)
    requires more == DecodeBlocks(w.book, s, avail, version, q, room', pos', st')
    ensures DecodeBlocks(w.book, s, avail, version, q, room, pos, st) == Extend(words, more)
    decreases |blocks|
  {
    hide BlockBits;
    hide BlockWords;
    hide StateAfter;
    hide Spells;
    hide DecodeBlock;
    if blocks == [] {
      assert Extend([], more) == more;
    } else {
      var b, bits := blocks[0], BlockBits(w, version, st, blocks[0]);
      var st1 := StateAfter(version, st, b);
      BlocksParts(w, version, q, st, blocks, words, s, pos);
      var pos1, room1 := pos + |bits|, room' + |Flatten(words[1..])|;
      assert room == |words[0]| + room1 && pos' == pos1 + |BlocksBits(w, version, st1, blocks[1..])|;
      assert st' == StateAfterAll(w, version, st1, blocks[1..]);
      BlocksRead(w, s, avail, version, q, pos1, st1, blocks[1..], room1, words[1..], room', pos', st', more);
      FirstRead(w, s, avail, version, q, pos, st, b, room, words, room1, pos1, st1, more);
    }
  }

  lemma FirstRead(w: Writer, s: seq<Bit>, avail: nat, version: nat, q: nat, pos: nat, st: DcState, b: BlockData,
                  room: nat, words: seq<seq<Half>>, room1: nat, pos1: nat, st1: DcState, more: Blocks)
    requires Able(w) && DcReady(st) && LegalBlock(w, version, b) && words != []
    requires Spells(s, pos, BlockBits(w, version, st, b)) && pos1 == pos + |BlockBits(w, version, st, b)| <= avail
    requires words[0] == BlockWords(w, version, q, st, b) && st1 == StateAfter(version, st, b)
    requires room == |words[0]| + room1
    requires DecodeBlocks(w.book, s, avail, version, q, room1, pos1, st1) == Extend(words[1..], more)
    ensures DecodeBlocks(w.book, s, avail, version, q, room, pos, st) == Extend(words, more)
  {
    hide DecodeBlocks;
    hide DecodeBlock;
    hide BlockBits;
    hide StateAfter;
    hide Spells;
    hide Extend;
    var block := Block(words[0], pos1, st1);
    BlockReads(w, s, avail, version, q, pos, st, b, room, block);
    assert room - |block.words| == room1 && [block.words] + words[1..] == words;
    ReadStep(w.book, s, avail, version, q, room, pos, st, block, words[1..], more);
  }

  lemma BlocksParts(w: Writer, version: nat, q: nat, st: DcState, blocks: seq<BlockData>, words: seq<seq<Half>>,
                    s: seq<Bit>, pos: nat)
    requires w.esc < |w.book| && w.eob < |w.book| && DcReady(st) && LegalBlocks(w, version, blocks) && blocks != []
    requires Spells(s, pos, BlocksBits(w, version, st, blocks)) && words == BlocksWords(w, version, q, st, blocks)
    ensures var bits, st1 := BlockBits(w, version, st, blocks[0]), StateAfter(version, st, blocks[0]);
            && Spells(s, pos, bits) && Spells(s, pos + |bits|, BlocksBits(w, version, st1, blocks[1..]))
            && |BlocksBits(w, version, st, blocks)| == |bits| + |BlocksBits(w, version, st1, blocks[1..])|
            && words[0] == BlockWords(w, version, q, st, blocks[0])
            && words[1..] == BlocksWords(w, version, q, st1, blocks[1..])
            && |Flatten(words)| == |words[0]| + |Flatten(words[1..])|
            && [words[0]] + words[1..] == words
  {
    hide Spells;
    hide BlockBits;
    hide BlockWords;
    BitsParts(w, version, st, blocks, s, pos);
    FlattenSplit(words[0], words[1..]);
    assert [words[0]] + words[1..] == words;
  }

  lemma BitsParts(w: Writer, version: nat, st: DcState, blocks: seq<BlockData>, s: seq<Bit>, pos: nat)
    requires w.esc < |w.book| && w.eob < |w.book| && DcReady(st) && LegalBlocks(w, version, blocks) && blocks != []
    requires Spells(s, pos, BlocksBits(w, version, st, blocks))
    ensures var bits, st1 := BlockBits(w, version, st, blocks[0]), StateAfter(version, st, blocks[0]);
            && Spells(s, pos, bits) && Spells(s, pos + |bits|, BlocksBits(w, version, st1, blocks[1..]))
            && |BlocksBits(w, version, st, blocks)| == |bits| + |BlocksBits(w, version, st1, blocks[1..])|
  {
    hide Spells;
    hide BlockBits;
    hide DcReady;
    var bits, st1 := BlockBits(w, version, st, blocks[0]), StateAfter(version, st, blocks[0]);
    SpellsParts(s, pos, bits, BlocksBits(w, version, st1, blocks[1..]));
  }

  lemma FlattenSplit(words: seq<Half>, rest: seq<seq<Half>>)
    ensures Flatten([words] + rest) == words + Flatten(rest)
  {
    assert ([words] + rest)[1..] == rest;
  }

  lemma ReadStep(book: seq<Sym>, s: seq<Bit>, avail: nat, version: nat, q: nat, room: nat, pos: nat, st: DcState,
                 b: Block, rest: seq<seq<Half>>, more: Blocks)
    requires b.Block? && DcReady(st) && DcReady(b.st) && 0 < |b.words| <= room
    requires DecodeBlock(book, s, avail, version, q, room, pos, st) == b
    requires DecodeBlocks(book, s, avail, version, q, room - |b.words|, b.next, b.st) == Extend(rest, more)
    ensures DecodeBlocks(book, s, avail, version, q, room, pos, st) == Extend([b.words] + rest, more)
  {
    assert [b.words] + (rest + more.words) == ([b.words] + rest) + more.words;
  }
}
