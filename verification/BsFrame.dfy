/** What a whole BS frame decodes to, defined on payload bits and block by block. */
module BsFrame {
  import opened Bits
  import opened CodeBook
  import opened BsStream

  // --- AC codes of one block -------------------------------------------------------

  // The words a block's codes spell up to and including its end marker, and where the
  // stream stands then; Overlong when a code arrives with no room left for its word.
  datatype Ac = Whole(words: seq<Half>, next: nat) | Overlong

  function Prepend(words: seq<Half>, ac: Ac): Ac {
    match ac
    case Whole(rest, next) => Whole(words + rest, next)
    case Overlong => Overlong
  }

  // An escape is followed by its run-level halfword verbatim.
  function SymbolWord(sym: Symbol, s: seq<Bit>, pos: nat): Half {
    if sym.kind == ESCAPE then
      HalfOfSlice(s, pos + sym.length);
      Val(Slice(s, pos + sym.length, 16))
    else sym.halfword
  }

  function SymbolEnd(sym: Symbol, pos: nat): nat {
    pos + sym.length + (if sym.kind == ESCAPE then 16 else 0)
  }

  lemma HalfOfSlice(s: seq<Bit>, pos: nat)
    ensures Val(Slice(s, pos, 16)) < 0x1_0000
  {
    ValBound(Slice(s, pos, 16));
    Pow2Values();
  }

  function DecodeAc(book: seq<Sym>, s: seq<Bit>, pos: nat, room: nat): Ac
    decreases room
  {
    var sym := NextSymbol(book, s, pos);
    var word, next := SymbolWord(sym, s, pos), SymbolEnd(sym, pos);
    if room == 0 then Overlong
    else if sym.kind == EOB then Whole([word], next)
    else Prepend([word], DecodeAc(book, s, next, room - 1))
  }

  // Where the stream stands when a block's codes are left, whichever way.
  function AcEnd(book: seq<Sym>, s: seq<Bit>, pos: nat, room: nat): nat
    decreases room
  {
    var sym := NextSymbol(book, s, pos);
    if room == 0 then pos + sym.length
    else if sym.kind == EOB then SymbolEnd(sym, pos)
    else AcEnd(book, s, SymbolEnd(sym, pos), room - 1)
  }

  // --- DC coefficients -------------------------------------------------------------

  const SIZES: nat := 9

  // ISO/IEC 11172-2 tables B-12 (luma) and B-13 (chroma): the size codes, by size.
  function SizeCode(luma: bool, size: nat): nat {
    if luma then
      match size
      case 0 => 0x04 case 1 => 0x00 case 2 => 0x01 case 3 => 0x05 case 4 => 0x06
      case 5 => 0x0e case 6 => 0x1e case 7 => 0x3e case _ => 0x7e
    else
      match size
      case 0 => 0x00 case 1 => 0x01 case 2 => 0x02 case 3 => 0x06 case 4 => 0x0e
      case 5 => 0x1e case 6 => 0x3e case 7 => 0x7e case _ => 0xfe
  }

  function SizeBits(luma: bool, size: nat): (n: nat)
    ensures 2 <= n <= 8
  {
    if luma then
      match size
      case 0 => 3 case 1 => 2 case 2 => 2 case 3 => 3 case 4 => 3 case 5 => 4 case 6 => 5 case 7 => 6 case _ => 7
    else
      match size
      case 0 => 2 case 1 => 2 case 2 => 2 case 3 => 3 case 4 => 4 case 5 => 5 case 6 => 6 case 7 => 7 case _ => 8
  }

  predicate SizeCodeAt(luma: bool, s: seq<Bit>, pos: nat, size: nat)
    requires size < SIZES
  {
    Val(Slice(s, pos, SizeBits(luma, size))) == SizeCode(luma, size)
  }

  // The size whose code starts at pos, SIZES when none does.
  function SizeAt(luma: bool, s: seq<Bit>, pos: nat, from: nat): (size: nat)
    requires from <= SIZES
    ensures from <= size <= SIZES
    ensures size < SIZES ==> SizeCodeAt(luma, s, pos, size)
    ensures forall i :: from <= i < size ==> !SizeCodeAt(luma, s, pos, i)
    decreases SIZES - from, s
  {
    if from == SIZES || SizeCodeAt(luma, s, pos, from) then from else SizeAt(luma, s, pos, from + 1)
  }

  // Top bit set: positive as stored. Clear: an offset from -(2^size - 1).
  function Delta(raw: nat, size: nat): int {
    if size == 0 then 0
    else if raw >= Pow2(size - 1) then raw
    else raw - (Pow2(size) - 1)
  }

  // Predictors for Cr, Cb and luma, never clamped, and the block's place in its macroblock.
  datatype DcState = DcState(preds: seq<int>, block: nat)

  ghost predicate DcReady(st: DcState) {
    |st.preds| == 3 && st.block < 6
  }

  const DC_START: DcState := DcState([0, 0, 0], 0)

  datatype Dc = Dc(value: nat, next: nat, st: DcState) | NoDc

  function IsLuma(block: nat): bool { block >= 2 }

  function Plane(block: nat): nat { if IsLuma(block) then 2 else block }

  function Advance(st: DcState, delta: int): DcState
    requires DcReady(st)
  {
    var p := Plane(st.block);
    DcState(st.preds[p := st.preds[p] + delta * 4], if st.block == 5 then 0 else st.block + 1)
  }

  datatype Difference = Difference(delta: int, next: nat) | NoDifference

  // A size code and that many bits of difference.
  function DecodeDifference(luma: bool, s: seq<Bit>, pos: nat): (d: Difference)
    ensures d.Difference? ==> pos < d.next <= pos + 16
  {
    var size := SizeAt(luma, s, pos, 0);
    if size == SIZES then NoDifference else
      var width := SizeBits(luma, size);
      Difference(Delta(Val(Slice(s, pos + width, size)), size), pos + width + size)
  }

  // The DC word bits of the block that st is about to decode, and the state after it.
  function DcOf(delta: int, next: nat, st: DcState): (dc: Dc)
    requires DcReady(st)
    ensures dc.Dc? && dc.value < 1024 && DcReady(dc.st)
  {
    var st' := Advance(st, delta);
    Dc(st'.preds[Plane(st.block)] % 1024, next, st')
  }

  function DecodeDc(version: nat, s: seq<Bit>, pos: nat, st: DcState): (dc: Dc)
    requires DcReady(st)
    ensures dc.Dc? ==> dc.value < 1024 && pos < dc.next <= pos + 16 && DcReady(dc.st)
  {
    if version != 3 then
      ValBound(Slice(s, pos, 10));
      Pow2Values();
      Dc(Val(Slice(s, pos, 10)), pos + 10, st)
    else
      match DecodeDifference(IsLuma(st.block), s, pos)
      case NoDifference => NoDc
      case Difference(delta, next) => DcOf(delta, next, st)
  }

  // --- the DC size books -------------------------------------------------------------

  lemma TopBitsOfByte(s: seq<Bit>, pos: nat, n: nat)
    requires n <= 8
    ensures Val(Slice(s, pos, n)) == Val(Slice(s, pos, 8)) / Pow2(8 - n)
  {
    hide Val;
    hide BitsOf;
    hide Pow2;
    hide At;
    var byte, v := Slice(s, pos, 8), Val(Slice(s, pos, 8));
    BitsOfVal(byte);
    ValBound(byte);
    TopOfBits(v, 8, n);
    TopFits(v, 8, n);
    ValBitsOf(v / Pow2(8 - n), n);
    assert Slice(s, pos, n) == byte[..n];
  }

  // No size code starts another, so the scan's order does not matter.
  lemma SizeUnique(luma: bool, s: seq<Bit>, pos: nat, i: nat, j: nat)
    requires i < SIZES && j < SIZES && SizeCodeAt(luma, s, pos, i) && SizeCodeAt(luma, s, pos, j)
    ensures i == j
  {
    SizeInterval(luma, s, pos, i);
    SizeInterval(luma, s, pos, j);
  }

  lemma SizeInterval(luma: bool, s: seq<Bit>, pos: nat, i: nat)
    requires i < SIZES && SizeCodeAt(luma, s, pos, i)
    ensures var v := Val(Slice(s, pos, 8)); SizeFloor(luma, i) <= v < SizeFloor(luma, i) + SizeSpan(luma, i)
  {
    TopBitsOfByte(s, pos, SizeBits(luma, i));
    assert Val(Slice(s, pos, 8)) < 256 by {
      ValBound(Slice(s, pos, 8));
      SmallPowers();
    }
    SizeRange(luma, i, Val(Slice(s, pos, 8)));
  }

  // The bytes that start with size code i are an interval, and the intervals are disjoint.
  function SizeFloor(luma: bool, size: nat): nat {
    if luma then
      match size
      case 0 => 128 case 1 => 0 case 2 => 64 case 3 => 160 case 4 => 192
      case 5 => 224 case 6 => 240 case 7 => 248 case _ => 252
    else
      match size
      case 0 => 0 case 1 => 64 case 2 => 128 case 3 => 192 case 4 => 224
      case 5 => 240 case 6 => 248 case 7 => 252 case _ => 254
  }

  function SizeSpan(luma: bool, size: nat): nat {
    if luma then
      match size
      case 0 => 32 case 1 => 64 case 2 => 64 case 3 => 32 case 4 => 32 case 5 => 16 case 6 => 8 case 7 => 4 case _ => 2
    else
      match size
      case 0 => 64 case 1 => 64 case 2 => 64 case 3 => 32 case 4 => 16 case 5 => 8 case 6 => 4 case 7 => 2 case _ => 1
  }

  lemma SizeRange(luma: bool, i: nat, v: nat)
    requires i < SIZES && v < 256
    requires v / Pow2(8 - SizeBits(luma, i)) == SizeCode(luma, i)
    ensures SizeFloor(luma, i) <= v < SizeFloor(luma, i) + SizeSpan(luma, i)
  {
    SmallPowers();
  }

  // --- blocks and frames -------------------------------------------------------------

  datatype End = Full | RanOut | TooLong

  datatype Blocks = Blocks(words: seq<seq<Half>>, end: End)

  function DcWord(q: nat, dc: nat): Half
    requires dc < 1024
  {
    (q % 64) * 1024 + dc
  }

  datatype Block = Block(words: seq<Half>, next: nat, st: DcState) | Stop(end: End)

  // One block: its DC word and its codes' words, all of them from inside the payload.
  function DecodeBlock(book: seq<Sym>, s: seq<Bit>, avail: nat, version: nat, q: nat,
                       room: nat, pos: nat, st: DcState): Block
    requires DcReady(st) && room > 0
  {
    var dc := DecodeDc(version, s, pos, st);
    if dc.NoDc? || dc.next > avail then Stop(RanOut)
    else
      match DecodeAc(book, s, dc.next, room - 1)
      case Overlong => Stop(TooLong)
      case Whole(words, next) =>
        if next > avail then Stop(RanOut) else Block([DcWord(q, dc.value)] + words, next, dc.st)
  }

  // Blocks from pos on until `room` words are filled or a block does not come out whole.
  function DecodeBlocks(book: seq<Sym>, s: seq<Bit>, avail: nat, version: nat, q: nat,
                        room: nat, pos: nat, st: DcState): Blocks
    requires DcReady(st)
    decreases room
  {
    if room == 0 then Blocks([], Full)
    else
      match DecodeBlock(book, s, avail, version, q, room, pos, st)
      case Stop(end) => Blocks([], end)
      case Block(words, next, st') =>
        BlockShape(book, s, avail, version, q, room, pos, st);
        Extend([words], DecodeBlocks(book, s, avail, version, q, room - |words|, next, st'))
  }

  function Extend(done: seq<seq<Half>>, more: Blocks): Blocks {
    Blocks(done + more.words, more.end)
  }

  lemma BlockShape(book: seq<Sym>, s: seq<Bit>, avail: nat, version: nat, q: nat,
                   room: nat, pos: nat, st: DcState)
    requires DcReady(st) && room > 0
    ensures var b := DecodeBlock(book, s, avail, version, q, room, pos, st);
            b.Block? ==> 2 <= |b.words| <= room && DcReady(b.st) && pos < b.next <= avail
                         && b.next <= pos + 33 * |b.words|
                         && b.words[|b.words| - 1] == 0xfe00
  {
    var dc := DecodeDc(version, s, pos, st);
    if dc.Dc? {
      AcShape(book, s, dc.next, room - 1);
    }
  }

  function Flatten(blocks: seq<seq<Half>>): seq<Half>
    decreases |blocks|
  {
    if blocks == [] then [] else blocks[0] + Flatten(blocks[1..])
  }

  // A symbol is at most 32 bits long, and an escape adds 16 to at most 17.
  lemma {:induction false} SymbolBounds(book: seq<Sym>, s: seq<Bit>, pos: nat, taken: nat)
    ensures var sym := NextSymbol(book, s, pos, taken);
            && sym.length <= (if sym.kind == EOB then 32 else LONGEST)
            && (sym.kind == EOB ==> sym.halfword == 0xfe00)
    decreases LONGEST + 1 - taken
  {
    LeadingZerosShape(Slice(s, pos, Loaded(pos)));
    if taken <= LONGEST {
      LookupFinds(book, Slice(s, pos, taken));
      SymbolBounds(book, s, pos, taken + 1);
    }
  }

  // A block's codes fit their room, end with the end-of-block word, and take a bounded
  // number of bits each.
  lemma {:induction false} AcShape(book: seq<Sym>, s: seq<Bit>, pos: nat, room: nat)
    ensures var ac := DecodeAc(book, s, pos, room);
            ac.Whole? ==> 1 <= |ac.words| <= room && pos <= ac.next <= pos + 33 * |ac.words|
                          && ac.words[|ac.words| - 1] == 0xfe00
    decreases room
  {
    var sym := NextSymbol(book, s, pos);
    SymbolBounds(book, s, pos, 0);
    if room > 0 && sym.kind != EOB {
      AcShape(book, s, SymbolEnd(sym, pos), room - 1);
    }
  }

  // --- the header --------------------------------------------------------------------

  datatype Error = OK | SHORT | NOT_BS | BAD_VERSION | OUTPUT_TOO_SMALL | TRUNCATED | OVERLONG

  datatype BsdecResult = BsdecResult(mdecCommand: Word, halfwords: nat, blocks: nat, qScale: Half,
                                     version: nat, error: Error)

  function RlHalfwords(input: seq<Byte>): nat {
    if |input| < 8 then 0 else HalfAt(input, 0) * 2
  }

  function Refusal(input: seq<Byte>, outHalfwords: nat): Error {
    if |input| < 8 then SHORT
    else if HalfAt(input, 2) != 0x3800 then NOT_BS
    else if HalfAt(input, 6) == 0 || HalfAt(input, 6) > 3 then BAD_VERSION
    else if outHalfwords < RlHalfwords(input) then OUTPUT_TOO_SMALL
    else OK
  }

  // The payload in whole halfwords.
  function Payload(input: seq<Byte>): (p: seq<Byte>)
    requires |input| >= 8
    ensures |p| % 2 == 0
  {
    input[8..8 + 2 * ((|input| - 8) / 2)]
  }

  // availBits, as a 32-bit unsigned holds it.
  function AvailBits(payload: seq<Byte>): nat {
    (|payload| * 8) % TWO32
  }

  function FrameBlocks(book: seq<Sym>, input: seq<Byte>): Blocks
    requires |input| >= 8
  {
    var payload := Payload(input);
    DecodeBlocks(book, PayloadBits(payload), AvailBits(payload), HalfAt(input, 6), HalfAt(input, 4),
                 RlHalfwords(input), 0, DC_START)
  }

  // Running out of bits within 63 words of the declared length is the normal end.
  function Verdict(blocks: Blocks, target: nat): Error {
    match blocks.end
    case Full => OK
    case TooLong => OVERLONG
    case RanOut => if target - |Flatten(blocks.words)| >= 64 then TRUNCATED else OK
  }

  function Padding(n: nat): (p: seq<Half>)
    ensures |p| == n
  {
    seq<Half>(n, _ => 0xfe00)
  }

  function Command(input: seq<Byte>): Word
    requires |input| >= 8
  {
    HalfAt(input, 0) + HalfAt(input, 2) * 0x1_0000
  }

  // The result and the words a frame decodes to.
  function FrameResult(book: seq<Sym>, input: seq<Byte>, outHalfwords: nat): BsdecResult {
    match Refusal(input, outHalfwords)
    case OK =>
      var blocks := FrameBlocks(book, input);
      BsdecResult(Command(input), RlHalfwords(input), |blocks.words|, HalfAt(input, 4), HalfAt(input, 6),
                  Verdict(blocks, RlHalfwords(input)))
    case OUTPUT_TOO_SMALL =>
      BsdecResult(Command(input), 0, 0, HalfAt(input, 4), HalfAt(input, 6), OUTPUT_TOO_SMALL)
    case e => BsdecResult(0, 0, 0, 0, 0, e)
  }

  function FrameWords(book: seq<Sym>, input: seq<Byte>): seq<Half>
    requires |input| >= 8
  {
    var words := Flatten(FrameBlocks(book, input).words);
    words + Padding(if |words| <= RlHalfwords(input) then RlHalfwords(input) - |words| else 0)
  }
}
