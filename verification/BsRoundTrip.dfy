/**
 * Writing blocks as a BS frame and decoding them back: the blocks' bits, zero bits up to a
 * halfword, and a header whose length is rounded up to 64 words.
 */
module BsRoundTrip {
  import opened Bits
  import opened CodeBook
  import opened BsStream
  import opened BsFrame
  import opened BsTruncation
  import opened BsWriter

  // --- the end of the bitstream --------------------------------------------------------

  // The bits a DC of all zeros takes: ten raw ones, or the size code 00, which is size 0 in
  // the chroma book and size 1 in the luma book.
  function ZeroDcBits(version: nat, st: DcState): nat {
    if version != 3 then 10 else if IsLuma(st.block) then 3 else 2
  }

  ghost predicate ZerosFrom(s: seq<Bit>, pos: nat) {
    forall i: nat :: pos <= i ==> At(s, i) == 0
  }

  lemma SliceOfZeros(s: seq<Bit>, from: nat, pos: nat, n: nat)
    requires ZerosFrom(s, from) && from <= pos
    ensures AllZero(Slice(s, pos, n)) && Val(Slice(s, pos, n)) == 0
  {
    forall i | 0 <= i < n
      ensures Slice(s, pos, n)[i] == 0
    {
      assert At(s, pos + i) == 0;
    }
    ValZero(Slice(s, pos, n));
  }

  lemma ZeroDcReads(version: nat, s: seq<Bit>, pos: nat, st: DcState)
    requires DcReady(st) && ZerosFrom(s, pos)
    ensures var dc := DecodeDc(version, s, pos, st); dc.Dc? && dc.next == pos + ZeroDcBits(version, st)
  {
    if version == 3 {
      var luma := IsLuma(st.block);
      var size := if luma then 1 else 0;
      SliceOfZeros(s, pos, pos, SizeBits(luma, size));
      assert SizeCodeAt(luma, s, pos, size);
      SizeUnique(luma, s, pos, SizeAt(luma, s, pos, 0), size);
    }
  }

  // Nothing but zeros reads as the sentinel, skipping a whole window.
  lemma ZerosEndBlock(book: seq<Sym>, s: seq<Bit>, pos: nat)
    requires forall k {:trigger WellFormedSym(book[k])} :: 0 <= k < |book| ==> WellFormedSym(book[k])
    requires ZerosFrom(s, pos)
    ensures NextSymbol(book, s, pos) == Symbol(EOB, 0xfe00, 32)
  {
    SliceOfZeros(s, pos, pos, MAXNZ + 1);
    SliceOfZeros(s, pos, pos, Loaded(pos));
    NextSymbolGarbage(book, s, pos, 0);
    LeadingZerosAll(Slice(s, pos, Loaded(pos)));
  }

  // The flush bits after the last block are never taken for one: they run out, unless a
  // single word is missing and they reach as far as a DC, which is then one too many.
  lemma FlushEnds(w: Writer, s: seq<Bit>, version: nat, q: nat, room: nat, pos: nat, st: DcState)
    requires Able(w) && DcReady(st) && pos <= |s| < pos + 16 && ZerosFrom(s, pos)
    ensures DecodeBlocks(w.book, s, |s|, version, q, room, pos, st)
         == Blocks([], if room == 0 then Full
                       else if room == 1 && pos + ZeroDcBits(version, st) <= |s| then TooLong
                       else RanOut)
  {
    if room > 0 {
      ZeroDcReads(version, s, pos, st);
      var next := pos + ZeroDcBits(version, st);
      ZerosEndBlock(w.book, s, next);
    }
  }

  // --- frames ------------------------------------------------------------------------

  // The zero bits that bring n up to a whole halfword.
  function Flush(n: nat): (f: nat)
    ensures f < 16 && (n + f) % 16 == 0
  {
    if n % 16 == 0 then 0 else 16 - n % 16
  }

  function RoundUp64(n: nat): (r: nat)
    ensures n <= r < n + 64 && r % 64 == 0 && r % 2 == 0
  {
    var lines := (n + 63) / 64;
    DivModUnique(lines, 0, 64);
    DivModUnique(lines * 32, 0, 2);
    lines * 64
  }

  function ByteOf(v: nat, high: bool): Byte
    requires v < 0x1_0000
  {
    if high then v / 0x100 else v % 0x100
  }

  // The bytes of a bitstream of whole halfwords, each halfword low byte first.
  function ToBytes(bits: seq<Bit>): (bytes: seq<Byte>)
    requires |bits| % 16 == 0
    ensures |bytes| == |bits| / 8 && 8 * |bytes| == |bits| && |bytes| % 2 == 0
  {
    seq<Byte>(|bits| / 8, i requires 0 <= i < |bits| / 8 => ByteAt(bits, i))
  }

  // Byte i of a bitstream of whole halfwords.
  function ByteAt(bits: seq<Bit>, i: nat): Byte
    requires |bits| % 16 == 0 && i < |bits| / 8
  {
    var half := bits[16 * (i / 2)..16 * (i / 2) + 16];
    ValBelow(half);
    ByteOf(Val(half), i % 2 == 1)
  }

  lemma ValBelow(half: seq<Bit>)
    requires |half| == 16
    ensures Val(half) < 0x1_0000
  {
    ValBound(half);
    Pow2Values();
  }

  lemma HalfCarried(bits: seq<Bit>, h: nat)
    requires |bits| % 16 == 0 && 16 * h + 16 <= |bits|
    ensures 2 * h + 1 < |ToBytes(bits)| && HalfAt(ToBytes(bits), 2 * h) == Val(bits[16 * h..16 * h + 16])
    ensures BitsOf(HalfAt(ToBytes(bits), 2 * h), 16) == bits[16 * h..16 * h + 16]
  {
    var half := bits[16 * h..16 * h + 16];
    ValBelow(half);
    assert (2 * h) / 2 == h && (2 * h + 1) / 2 == h;
    BitsOfVal(half);
  }

  lemma BytesCarryBits(bits: seq<Bit>)
    requires |bits| % 16 == 0
    ensures PayloadBits(ToBytes(bits)) == bits
  {
    hide ToBytes;
    hide HalfAt;
    hide BitsOf;
    var bytes := ToBytes(bits);
    forall i | 0 <= i < |bits|
      ensures PayloadBits(bytes)[i] == bits[i]
    {
      HalfCarried(bits, i / 16);
      assert bits[i] == bits[16 * (i / 16)..16 * (i / 16) + 16][i % 16];
    }
  }

  function HalfBytes(v: Half): seq<Byte> {
    [ByteOf(v, false), ByteOf(v, true)]
  }

  // The header: half the word count and the MDEC opcode, the scale, the version.
  function Header(target: nat, q: Half, version: nat): (h: seq<Byte>)
    requires target < 0x2_0000 && 1 <= version <= 3
    ensures |h| == 8
  {
    HalfBytes(target / 2) + HalfBytes(0x3800) + HalfBytes(q) + HalfBytes(version)
  }

  lemma HeaderReads(target: nat, q: Half, version: nat, bytes: seq<Byte>, outHalfwords: nat)
    requires target < 0x2_0000 && target % 2 == 0 && 1 <= version <= 3 && |bytes| % 2 == 0 && target <= outHalfwords
    ensures var input := Header(target, q, version) + bytes;
            && Refusal(input, outHalfwords) == OK && RlHalfwords(input) == target
            && HalfAt(input, 4) == q && HalfAt(input, 6) == version && Payload(input) == bytes
  {
  }

  function FrameBits(w: Writer, version: nat, blocks: seq<BlockData>): (bits: seq<Bit>)
    requires w.esc < |w.book| && w.eob < |w.book| && LegalBlocks(w, version, blocks)
    ensures |bits| % 16 == 0
  {
    var bits := BlocksBits(w, version, DC_START, blocks);
    bits + Zeros(Flush(|bits|))
  }

  // The frame: a header whose length is rounded up to 64 words, then the blocks' bits.
  function WriteFrame(w: Writer, version: nat, q: Half, blocks: seq<BlockData>): (frame: seq<Byte>)
    requires w.esc < |w.book| && w.eob < |w.book| && LegalBlocks(w, version, blocks) && 1 <= version <= 3
    requires RoundUp64(|Flatten(BlocksWords(w, version, q, DC_START, blocks))|) < 0x2_0000
    ensures |frame| >= 8
  {
    Header(RoundUp64(|Flatten(BlocksWords(w, version, q, DC_START, blocks))|), q, version)
    + ToBytes(FrameBits(w, version, blocks))
  }

  lemma {:induction false} CodesBound(w: Writer, codes: seq<Code>)
    requires Able(w) && (forall c :: c in codes ==> LegalCode(w, c))
    ensures |CodesBits(w, codes)| + 16 <= 33 * |CodesWords(w, codes)|
    decreases |codes|
  {
    if codes == [] {
      assert WellFormedSym(w.book[w.eob]);
    } else {
      assert LegalCode(w, codes[0]);
      assert WellFormedSym(w.book[if codes[0].Plain? then codes[0].k else w.esc]);
      CodesBound(w, codes[1..]);
    }
  }

  // At most 33 bits a word, so a frame's bits never outgrow a 32-bit count.
  lemma {:induction false} BlocksBound(w: Writer, version: nat, q: nat, st: DcState, blocks: seq<BlockData>)
    requires Able(w) && DcReady(st) && LegalBlocks(w, version, blocks)
    ensures |BlocksBits(w, version, st, blocks)| <= 33 * |Flatten(BlocksWords(w, version, q, st, blocks))|
    decreases |blocks|
  {
    if blocks != [] {
      assert LegalBlock(w, version, blocks[0]);
      var b, st1 := blocks[0], StateAfter(version, st, blocks[0]);
      CodesBound(w, b.codes);
      BlocksBound(w, version, q, st1, blocks[1..]);
      FlattenSplit(BlockWords(w, version, q, st, b), BlocksWords(w, version, q, st1, blocks[1..]));
    }
  }

  // How a written bitstream ends the decode, given the words missing to the declared length.
  function WrittenEnd(w: Writer, version: nat, blocks: seq<BlockData>, missing: nat): End
    requires w.esc < |w.book| && w.eob < |w.book| && LegalBlocks(w, version, blocks)
  {
    if missing == 0 then Full
    else if missing == 1 && ZeroDcBits(version, StateAfterAll(w, version, DC_START, blocks))
                            <= Flush(|BlocksBits(w, version, DC_START, blocks)|)
      then TooLong
    else RanOut
  }

  // The blocks of a written bitstream, wherever the declared length stands.
  lemma BitsRead(w: Writer, version: nat, q: nat, blocks: seq<BlockData>, target: nat,
                 s: seq<Bit>, words: seq<seq<Half>>)
    requires Able(w) && LegalBlocks(w, version, blocks) && s == FrameBits(w, version, blocks)
    requires words == BlocksWords(w, version, q, DC_START, blocks) && |Flatten(words)| <= target
    ensures DecodeBlocks(w.book, s, |s|, version, q, target, 0, DC_START)
         == Blocks(words, WrittenEnd(w, version, blocks, target - |Flatten(words)|))
  {
    hide BlocksBits;
    hide BlocksWords;
    hide DecodeBlocks;
    var bits, st := BlocksBits(w, version, DC_START, blocks), StateAfterAll(w, version, DC_START, blocks);
    var room := target - |Flatten(words)|;
    assert Spells(s, 0, bits);
    FlushEnds(w, s, version, q, room, |bits|, st);
    var more := Blocks([], WrittenEnd(w, version, blocks, room));
    assert |s| == |bits| + Flush(|bits|);
    BlocksRead(w, s, |s|, version, q, 0, DC_START, blocks, target, words, room, |bits|, st, more);
    assert words + [] == words;
  }

  // What a frame made of a header and whole halfwords of bits decodes to.
  lemma FrameOfBits(book: seq<Sym>, target: nat, q: Half, version: nat, bits: seq<Bit>, outHalfwords: nat,
                    input: seq<Byte>)
    requires target < 0x2_0000 && target % 2 == 0 && 1 <= version <= 3 && target <= outHalfwords
    requires |bits| % 16 == 0 && |bits| < TWO32
    requires input == Header(target, q, version) + ToBytes(bits)
    ensures Refusal(input, outHalfwords) == OK && RlHalfwords(input) == target
    ensures HalfAt(input, 4) == q && HalfAt(input, 6) == version
    ensures FrameBlocks(book, input) == DecodeBlocks(book, bits, |bits|, version, q, target, 0, DC_START)
  {
    hide ToBytes;
    hide PayloadBits;
    hide DecodeBlocks;
    hide Header;
    hide HalfAt;
    var bytes := ToBytes(bits);
    HeaderReads(target, q, version, bytes, outHalfwords);
    BytesCarryBits(bits);
    assert AvailBits(bytes) == |bits|;
  }

  // Writing any blocks and decoding the frame gives back exactly their words, their count,
  // end markers up to the declared length and a usable status. The status is OK unless one
  // word is missing to the declared length and the flush bits reach as far as a DC.
  lemma RoundTrip(w: Writer, version: nat, q: Half, blocks: seq<BlockData>, outHalfwords: nat,
                  words: seq<seq<Half>>, target: nat, input: seq<Byte>)
    requires Able(w) && LegalBlocks(w, version, blocks) && 1 <= version <= 3
    requires words == BlocksWords(w, version, q, DC_START, blocks) && target == RoundUp64(|Flatten(words)|)
    requires target < 0x2_0000 && target <= outHalfwords && input == WriteFrame(w, version, q, blocks)
    ensures FrameBlocks(w.book, input).words == words
    ensures FrameWords(w.book, input) == Flatten(words) + Padding(target - |Flatten(words)|)
    ensures var r := FrameResult(w.book, input, outHalfwords);
            && r.halfwords == target && r.blocks == |blocks| && r.qScale == q && r.version == version
            && r.error == if WrittenEnd(w, version, blocks, target - |Flatten(words)|) == TooLong then OVERLONG else OK
  {
    FrameReads(w, version, q, blocks, outHalfwords, words, target, input);
    assert |Flatten(words)| <= target < |Flatten(words)| + 64;
  }

  lemma FrameReads(w: Writer, version: nat, q: Half, blocks: seq<BlockData>, outHalfwords: nat,
                   words: seq<seq<Half>>, target: nat, input: seq<Byte>)
    requires Able(w) && LegalBlocks(w, version, blocks) && 1 <= version <= 3
    requires words == BlocksWords(w, version, q, DC_START, blocks) && target == RoundUp64(|Flatten(words)|)
    requires target < 0x2_0000 && target <= outHalfwords && input == WriteFrame(w, version, q, blocks)
    ensures Refusal(input, outHalfwords) == OK && RlHalfwords(input) == target
    ensures HalfAt(input, 4) == q && HalfAt(input, 6) == version
    ensures FrameBlocks(w.book, input) == Blocks(words, WrittenEnd(w, version, blocks, target - |Flatten(words)|))
  {
    var bits := FrameBits(w, version, blocks);
    FrameBitsBound(w, version, q, blocks);
    FrameOfBits(w.book, target, q, version, bits, outHalfwords, input);
    BitsRead(w, version, q, blocks, target, bits, words);
  }

  lemma FrameBitsBound(w: Writer, version: nat, q: nat, blocks: seq<BlockData>)
    requires Able(w) && LegalBlocks(w, version, blocks)
    requires |Flatten(BlocksWords(w, version, q, DC_START, blocks))| < 0x2_0000
    ensures |FrameBits(w, version, blocks)| < TWO32
  {
    BlocksBound(w, version, q, DC_START, blocks);
  }

  lemma FrameLength(w: Writer, version: nat, q: Half, blocks: seq<BlockData>)
    requires Able(w) && LegalBlocks(w, version, blocks) && 1 <= version <= 3
    requires RoundUp64(|Flatten(BlocksWords(w, version, q, DC_START, blocks))|) < 0x2_0000
    ensures 8 <= |WriteFrame(w, version, q, blocks)| < 0x2000_0008
  {
    FrameBitsBound(w, version, q, blocks);
  }

  // A written bitstream that is not counted to its end loses blocks.
  lemma {:induction false} BlocksCut(w: Writer, s: seq<Bit>, avail: nat, version: nat, q: nat, pos: nat, st: DcState,
                                     blocks: seq<BlockData>, room: nat, words: seq<seq<Half>>)
    requires Able(w) && DcReady(st) && LegalBlocks(w, version, blocks)
    requires Spells(s, pos, BlocksBits(w, version, st, blocks)) && words == BlocksWords(w, version, q, st, blocks)
    requires |Flatten(words)| <= room && pos <= avail < pos + |BlocksBits(w, version, st, blocks)|
    ensures |DecodeBlocks(w.book, s, avail, version, q, room, pos, st).words| < |blocks|
    decreases |blocks|
  {
    hide BlockBits;
    hide BlockWords;
    hide StateAfter;
    hide Spells;
    hide DecodeBlock;
    var b, bits := blocks[0], BlockBits(w, version, st, blocks[0]);
    var pos1, st1 := pos + |bits|, StateAfter(version, st, b);
    assert b in blocks;
    BlocksParts(w, version, q, st, blocks, words, s, pos);
    BlockHasWords(version, q, st, b, w);
    var block := Block(words[0], pos1, st1);
    if pos1 <= avail {
      BlockReads(w, s, avail, version, q, pos, st, b, room, block);
      BlockShape(w.book, s, avail, version, q, room, pos, st);
      BlocksCut(w, s, avail, version, q, pos1, st1, blocks[1..], room - |words[0]|, words[1..]);
    } else {
      BlockReads(w, s, pos1, version, q, pos, st, b, room, block);
      BlockShape(w.book, s, pos1, version, q, room, pos, st);
      CutShort(w.book, s, avail, pos1, version, q, room, pos, st);
    }
  }

  lemma BlockHasWords(version: nat, q: nat, st: DcState, b: BlockData, w: Writer)
    requires DcReady(st) && LegalBlock(w, version, b)
    ensures |BlockWords(w, version, q, st, b)| > 0
  {
  }

  lemma CutShort(book: seq<Sym>, s: seq<Bit>, avail: nat, enough: nat, version: nat, q: nat,
                 room: nat, pos: nat, st: DcState)
    requires DcReady(st) && room > 0
    requires var b := DecodeBlock(book, s, enough, version, q, room, pos, st); b.Block? && avail < b.next
    ensures DecodeBlock(book, s, avail, version, q, room, pos, st).Stop?
  {
  }

  lemma FrameSpells(w: Writer, version: nat, q: Half, blocks: seq<BlockData>, frame: seq<Byte>)
    requires Able(w) && LegalBlocks(w, version, blocks) && 1 <= version <= 3
    requires RoundUp64(|Flatten(BlocksWords(w, version, q, DC_START, blocks))|) < 0x2_0000
    requires frame == WriteFrame(w, version, q, blocks)
    ensures |frame| >= 8 && PayloadBits(Payload(frame)) == FrameBits(w, version, blocks)
  {
    hide ToBytes;
    hide PayloadBits;
    hide FrameBits;
    var target := RoundUp64(|Flatten(BlocksWords(w, version, q, DC_START, blocks))|);
    var bytes := ToBytes(FrameBits(w, version, blocks));
    HeaderReads(target, q, version, bytes, target);
    BytesCarryBits(FrameBits(w, version, blocks));
  }

  // A written frame with anything behind it, and cut back to itself: the cut's blocks are the
  // first blocks of the whole if and only if the whole still counts all the bits that were written.
  // Behind enough bytes, it does not.
  lemma CutIsPrefix(w: Writer, version: nat, q: Half, blocks: seq<BlockData>, outHalfwords: nat,
                    words: seq<seq<Half>>, target: nat, frame: seq<Byte>, input: seq<Byte>)
    requires Able(w) && LegalBlocks(w, version, blocks) && 1 <= version <= 3
    requires words == BlocksWords(w, version, q, DC_START, blocks) && target == RoundUp64(|Flatten(words)|)
    requires target < 0x2_0000 && target <= outHalfwords && frame == WriteFrame(w, version, q, blocks)
    requires frame <= input
    ensures Refusal(input, outHalfwords) == OK && input[..|frame|] == frame
    ensures FrameBlocks(w.book, frame).words == words
    ensures FrameBlocks(w.book, frame).words <= FrameBlocks(w.book, input).words
       <==> |BlocksBits(w, version, DC_START, blocks)| <= 8 * Counted(input)
  {
    hide WriteFrame;
    hide BlocksBits;
    hide BlocksWords;
    hide PayloadBits;
    hide DecodeBlocks;
    hide Counted;
    FrameSpells(w, version, q, blocks, frame);
    var bits, s := BlocksBits(w, version, DC_START, blocks), PayloadBits(Payload(input));
    FrameReads(w, version, q, blocks, outHalfwords, words, target, frame);
    CutKeepsHeader(input, |frame|, outHalfwords);
    PayloadPrefix(input, |frame|);
    assert input[..|frame|] == frame && |FrameBits(w, version, blocks)| == 8 * |Payload(frame)|;
    SpellsBehind(FrameBits(w, version, blocks), s, bits);
    if |bits| <= 8 * Counted(input) {
      var st, room := StateAfterAll(w, version, DC_START, blocks), target - |Flatten(words)|;
      var more := DecodeBlocks(w.book, s, 8 * Counted(input), version, q, room, |bits|, st);
      BlocksRead(w, s, 8 * Counted(input), version, q, 0, DC_START, blocks, target, words, room, |bits|, st, more);
    } else {
      BlocksCut(w, s, 8 * Counted(input), version, q, 0, DC_START, blocks, target, words);
    }
  }

  lemma SpellsBehind(short: seq<Bit>, s: seq<Bit>, bits: seq<Bit>)
    requires bits <= short && Agree(short, s, |short|)
    ensures Spells(s, 0, bits)
  {
    assert forall i :: 0 <= i < |bits| ==> At(s, i) == At(short, i) == bits[i];
  }
}
