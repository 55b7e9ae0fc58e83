/**
 * What every decode has in common, whatever the bytes: the shape of the output, and that
 * cutting a payload short only ever cuts the list of blocks short.
 */
module BsTruncation {
  import opened Bits
  import opened CodeBook
  import opened BsStream
  import opened BsFrame

  // --- output shape ------------------------------------------------------------------

  ghost predicate WholeBlock(words: seq<Half>) {
    |words| >= 2 && words[|words| - 1] == 0xfe00
  }

  lemma {:induction false} BlocksWhole(book: seq<Sym>, s: seq<Bit>, avail: nat, version: nat, q: nat,
                                       room: nat, pos: nat, st: DcState)
    requires DcReady(st)
    ensures forall block :: block in DecodeBlocks(book, s, avail, version, q, room, pos, st).words ==> WholeBlock(block)
    decreases room
  {
    if room > 0 {
      BlockShape(book, s, avail, version, q, room, pos, st);
      match DecodeBlock(book, s, avail, version, q, room, pos, st)
      case Stop(end) =>
      case Block(words, next, st') =>
        BlocksWhole(book, s, avail, version, q, room - |words|, next, st');
    }
  }

  lemma {:induction false} BlocksFit(book: seq<Sym>, s: seq<Bit>, avail: nat, version: nat, q: nat,
                                     room: nat, pos: nat, st: DcState)
    requires DcReady(st)
    ensures var r := DecodeBlocks(book, s, avail, version, q, room, pos, st);
            |Flatten(r.words)| <= room && (r.end == Full <==> |Flatten(r.words)| == room)
    decreases room
  {
    if room > 0 {
      BlockShape(book, s, avail, version, q, room, pos, st);
      var b := DecodeBlock(book, s, avail, version, q, room, pos, st);
      if b.Block? {
        BlocksFit(book, s, avail, version, q, room - |b.words|, b.next, b.st);
        var rest := DecodeBlocks(book, s, avail, version, q, room - |b.words|, b.next, b.st).words;
        assert ([b.words] + rest)[1..] == rest;
      }
    }
  }

  // Whatever the bytes past an accepted header: exactly the declared number of words, made
  // of whole blocks that each close with an end marker, and end markers after them. The
  // result counts those blocks, and calls the frame sound exactly when the blocks come
  // within 63 words of the declared length and none of them outgrew it.
  lemma OutputShape(book: seq<Sym>, input: seq<Byte>, outHalfwords: nat)
    requires Refusal(input, outHalfwords) == OK
    ensures var r := FrameResult(book, input, outHalfwords);
            var blocks := FrameBlocks(book, input);
            var used := |Flatten(blocks.words)|;
            && r.halfwords == RlHalfwords(input) == |FrameWords(book, input)|
            && used <= r.halfwords && r.blocks == |blocks.words|
            && FrameWords(book, input) == Flatten(blocks.words) + Padding(r.halfwords - used)
            && (forall block :: block in blocks.words ==> WholeBlock(block))
            && (r.error == OK <==> blocks.end != TooLong && r.halfwords - used < 64)
            && r.error in {OK, TRUNCATED, OVERLONG}
  {
    hide DecodeBlocks;
    hide PayloadBits;
    hide AvailBits;
    hide Payload;
    hide RlHalfwords;
    hide WholeBlock;
    var payload := Payload(input);
    BlocksWhole(book, PayloadBits(payload), AvailBits(payload), HalfAt(input, 6), HalfAt(input, 4),
                RlHalfwords(input), 0, DC_START);
    BlocksFit(book, PayloadBits(payload), AvailBits(payload), HalfAt(input, 6), HalfAt(input, 4),
              RlHalfwords(input), 0, DC_START);
  }

  // --- the book leaves no prefix undecided --------------------------------------------

  // A window that does not start with twelve zeros starts with a code of the book.
  lemma SomeCodeStarts(book: seq<Sym>, s: seq<Bit>, pos: nat) returns (k: nat)
    requires Good(book) && !AllZero(Slice(s, pos, MAXNZ + 1))
    ensures k < |book| && WellFormedSym(book[k]) && book[k].code == Slice(s, pos, |book[k].code|)
    ensures NextSymbol(book, s, pos) == SymbolOf(book[k])
  {
    var bits := Slice(s, pos, MAXNZ + 1);
    var n := LeadingZeros(bits);
    LeadingZerosShape(bits);
    assert n <= MAXNZ by {
      assert bits[..|bits|] == bits;
    }
    var w := Width(book, n);
    var marked := Marked(n, Slice(s, pos + n + 1, w));
    assert marked == Slice(s, pos, n + 1 + w) by {
      assert Slice(s, pos, n) == bits[..n] == Zeros(n);
      assert Slice(s, pos, n + 1 + w)[..n] == Slice(s, pos, n);
      assert bits[n] == At(s, pos + n) == 1;
    }
    assert Covered(book, marked);
    k :| 0 <= k < |book| && book[k].code <= marked;
    assert WellFormedSym(book[k]);
    assert book[k].code == marked[..|book[k].code|] == Slice(s, pos, |book[k].code|);
    NextSymbolIs(book, s, pos, k, 0);
  }

  // --- truncation ---------------------------------------------------------------------

  ghost predicate Agree(cut: seq<Bit>, s: seq<Bit>, end: nat) {
    forall i :: 0 <= i < end ==> At(cut, i) == At(s, i)
  }

  lemma AgreeSlice(cut: seq<Bit>, s: seq<Bit>, end: nat, pos: nat, n: nat)
    requires Agree(cut, s, end) && pos + n <= end
    ensures Slice(cut, pos, n) == Slice(s, pos, n)
  {
  }

  lemma AgreeSentinel(cut: seq<Bit>, s: seq<Bit>, end: nat, pos: nat)
    requires Agree(cut, s, end) && pos + SentinelLength(cut, pos) <= end
    ensures SentinelLength(s, pos) == SentinelLength(cut, pos)
  {
    var bits, bits' := Slice(s, pos, Loaded(pos)), Slice(cut, pos, Loaded(pos));
    var n := LeadingZeros(bits');
    LeadingZerosShape(bits');
    if n < Loaded(pos) {
      AgreeSlice(cut, s, end, pos, n + 1);
      assert bits[..n] == Slice(s, pos, n + 1)[..n] == Slice(cut, pos, n + 1)[..n] == bits'[..n];
      assert bits[n] == Slice(s, pos, n + 1)[n] == Slice(cut, pos, n + 1)[n] == 1;
      LeadingZerosIs(bits, n);
    } else {
      AgreeSlice(cut, s, end, pos, Loaded(pos));
    }
  }

  lemma AgreeSymbol(book: seq<Sym>, cut: seq<Bit>, s: seq<Bit>, end: nat, pos: nat)
    requires Good(book) && Agree(cut, s, end)
    requires pos + NextSymbol(book, cut, pos).length <= end
    ensures NextSymbol(book, s, pos) == NextSymbol(book, cut, pos)
  {
    if AllZero(Slice(cut, pos, MAXNZ + 1)) {
      NextSymbolGarbage(book, cut, pos, 0);
      SentinelIsLong(cut, pos);
      AgreeSlice(cut, s, end, pos, MAXNZ + 1);
      NextSymbolGarbage(book, s, pos, 0);
      AgreeSentinel(cut, s, end, pos);
    } else {
      var k := SomeCodeStarts(book, cut, pos);
      AgreeSlice(cut, s, end, pos, |book[k].code|);
      NextSymbolIs(book, s, pos, k, 0);
    }
  }

  lemma SentinelIsLong(s: seq<Bit>, pos: nat)
    requires AllZero(Slice(s, pos, MAXNZ + 1))
    ensures SentinelLength(s, pos) > MAXNZ + 1
  {
    var bits := Slice(s, pos, Loaded(pos));
    assert bits[..MAXNZ + 1] == Slice(s, pos, MAXNZ + 1);
    LeadingZerosAtLeast(bits, MAXNZ + 1);
  }

  lemma {:induction false} AgreeAc(book: seq<Sym>, cut: seq<Bit>, s: seq<Bit>, end: nat, pos: nat, room: nat)
    requires Good(book) && Agree(cut, s, end)
    requires var ac := DecodeAc(book, cut, pos, room); ac.Whole? && ac.next <= end
    ensures DecodeAc(book, s, pos, room) == DecodeAc(book, cut, pos, room)
    decreases room
  {
    var sym := NextSymbol(book, cut, pos);
    AcShape(book, cut, SymbolEnd(sym, pos), room - 1);
    AgreeSymbol(book, cut, s, end, pos);
    if sym.kind == ESCAPE {
      AgreeSlice(cut, s, end, pos + sym.length, 16);
    }
    if sym.kind != EOB {
      AgreeAc(book, cut, s, end, SymbolEnd(sym, pos), room - 1);
    }
  }

  lemma AgreeDc(cut: seq<Bit>, s: seq<Bit>, end: nat, version: nat, pos: nat, st: DcState)
    requires Agree(cut, s, end) && DcReady(st)
    requires var dc := DecodeDc(version, cut, pos, st); dc.Dc? && dc.next <= end
    ensures DecodeDc(version, s, pos, st) == DecodeDc(version, cut, pos, st)
  {
    if version != 3 {
      AgreeSlice(cut, s, end, pos, 10);
    } else {
      AgreeDifference(cut, s, end, IsLuma(st.block), pos);
    }
  }

  lemma AgreeDifference(cut: seq<Bit>, s: seq<Bit>, end: nat, luma: bool, pos: nat)
    requires Agree(cut, s, end)
    requires var d := DecodeDifference(luma, cut, pos); d.Difference? && d.next <= end
    ensures DecodeDifference(luma, s, pos) == DecodeDifference(luma, cut, pos)
  {
    var size := SizeAt(luma, cut, pos, 0);
    AgreeSize(cut, s, end, luma, pos);
    AgreeSlice(cut, s, end, pos + SizeBits(luma, size), size);
  }

  lemma AgreeSize(cut: seq<Bit>, s: seq<Bit>, end: nat, luma: bool, pos: nat)
    requires Agree(cut, s, end)
    requires var size := SizeAt(luma, cut, pos, 0); size < SIZES && pos + SizeBits(luma, size) <= end
    ensures SizeAt(luma, s, pos, 0) == SizeAt(luma, cut, pos, 0)
  {
    var size := SizeAt(luma, cut, pos, 0);
    AgreeSlice(cut, s, end, pos, SizeBits(luma, size));
    assert SizeCodeAt(luma, s, pos, size);
    var found := SizeAt(luma, s, pos, 0);
    SizeUnique(luma, s, pos, found, size);
  }

  // Every block that comes out of the cut payload comes out of the full one, in place.
  lemma {:induction false} AgreeBlocks(book: seq<Sym>, cut: seq<Bit>, s: seq<Bit>, end: nat, avail: nat,
                                       version: nat, q: nat, room: nat, pos: nat, st: DcState)
    requires Good(book) && Agree(cut, s, end) && end <= avail && DcReady(st)
    ensures DecodeBlocks(book, cut, end, version, q, room, pos, st).words
         <= DecodeBlocks(book, s, avail, version, q, room, pos, st).words
    decreases room
  {
    hide DecodeBlock;
    if room > 0 {
      var b := DecodeBlock(book, cut, end, version, q, room, pos, st);
      if b.Block? {
        BlockShape(book, cut, end, version, q, room, pos, st);
        AgreeBlock(book, cut, s, end, avail, version, q, room, pos, st);
        AgreeBlocks(book, cut, s, end, avail, version, q, room - |b.words|, b.next, b.st);
      }
    }
  }

  lemma AgreeBlock(book: seq<Sym>, cut: seq<Bit>, s: seq<Bit>, end: nat, avail: nat,
                   version: nat, q: nat, room: nat, pos: nat, st: DcState)
    requires Good(book) && Agree(cut, s, end) && end <= avail && DcReady(st) && room > 0
    requires DecodeBlock(book, cut, end, version, q, room, pos, st).Block?
    ensures DecodeBlock(book, s, avail, version, q, room, pos, st)
         == DecodeBlock(book, cut, end, version, q, room, pos, st)
  {
    AgreeDc(cut, s, end, version, pos, st);
    AgreeAc(book, cut, s, end, DecodeDc(version, cut, pos, st).next, room - 1);
  }

  lemma HalfAtPrefix(p: seq<Byte>, n: nat, feed: nat)
    requires feed + 1 < n <= |p|
    ensures HalfAt(p[..n], feed) == HalfAt(p, feed)
  {
  }

  lemma PayloadPrefix(input: seq<Byte>, n: nat)
    requires 8 <= n <= |input|
    ensures Agree(PayloadBits(Payload(input[..n])), PayloadBits(Payload(input)), 8 * |Payload(input[..n])|)
    ensures |Payload(input[..n])| <= |Payload(input)|
  {
    hide HalfAt;
    var p, p' := Payload(input), Payload(input[..n]);
    assert p' == p[..|p'|];
    forall i | 0 <= i < 8 * |p'|
      ensures At(PayloadBits(p'), i) == At(PayloadBits(p), i)
    {
      HalfAtPrefix(p, |p'|, 2 * (i / 16));
    }
  }

  // The payload bytes that the 32-bit bit count still counts.
  function Counted(input: seq<Byte>): (n: nat)
    requires |input| >= 8
    ensures n % 2 == 0 && n <= |Payload(input)| && AvailBits(Payload(input)) == 8 * n
  {
    var q, n := |Payload(input)| / 0x2000_0000, |Payload(input)| % 0x2000_0000;
    assert 8 * |Payload(input)| == q * TWO32 + 8 * n;
    DivModUnique(q, 8 * n, TWO32);
    n
  }

  lemma CutKeepsHeader(input: seq<Byte>, n: nat, outHalfwords: nat)
    requires 8 <= n <= |input|
    ensures Refusal(input[..n], outHalfwords) == Refusal(input, outHalfwords)
    ensures RlHalfwords(input[..n]) == RlHalfwords(input)
    ensures HalfAt(input[..n], 4) == HalfAt(input, 4) && HalfAt(input[..n], 6) == HalfAt(input, 6)
  {
    assert HalfAt(input[..n], 0) == HalfAt(input, 0) && HalfAt(input[..n], 2) == HalfAt(input, 2);
  }

  // Counted bytes are what decides, and of those the first ones decide first.
  lemma FewerCounted(book: seq<Sym>, cut: seq<Byte>, input: seq<Byte>)
    requires Good(book) && |cut| >= 8 && |input| >= 8 && Counted(cut) <= Counted(input)
    requires RlHalfwords(cut) == RlHalfwords(input)
    requires HalfAt(cut, 4) == HalfAt(input, 4) && HalfAt(cut, 6) == HalfAt(input, 6)
    requires Agree(PayloadBits(Payload(cut)), PayloadBits(Payload(input)), 8 * Counted(cut))
    ensures FrameBlocks(book, cut).words <= FrameBlocks(book, input).words
  {
    AgreeBlocks(book, PayloadBits(Payload(cut)), PayloadBits(Payload(input)), 8 * Counted(cut), 8 * Counted(input),
                HalfAt(input, 6), HalfAt(input, 4), RlHalfwords(input), 0, DC_START);
  }

  // The most bits that the blocks of a frame can take: 33 for each word it declares.
  function MostBits(input: seq<Byte>): nat {
    33 * RlHalfwords(input)
  }

  // Past that many it makes no difference how many there are.
  lemma {:induction false} EnoughBits(book: seq<Sym>, s: seq<Bit>, avail: nat, avail': nat, version: nat, q: nat,
                                      room: nat, pos: nat, st: DcState)
    requires DcReady(st) && pos + 33 * room <= avail && pos + 33 * room <= avail'
    ensures DecodeBlocks(book, s, avail, version, q, room, pos, st)
         == DecodeBlocks(book, s, avail', version, q, room, pos, st)
    decreases room
  {
    hide DecodeBlock;
    if room > 0 {
      EnoughForOne(book, s, avail, avail', version, q, room, pos, st);
      var b := DecodeBlock(book, s, avail, version, q, room, pos, st);
      if b.Block? {
        BlockShape(book, s, avail, version, q, room, pos, st);
        EnoughBits(book, s, avail, avail', version, q, room - |b.words|, b.next, b.st);
      }
    }
  }

  lemma EnoughForOne(book: seq<Sym>, s: seq<Bit>, avail: nat, avail': nat, version: nat, q: nat,
                     room: nat, pos: nat, st: DcState)
    requires DcReady(st) && room > 0 && pos + 33 * room <= avail && pos + 33 * room <= avail'
    ensures DecodeBlock(book, s, avail, version, q, room, pos, st)
         == DecodeBlock(book, s, avail', version, q, room, pos, st)
  {
    var dc := DecodeDc(version, s, pos, st);
    if dc.Dc? { AcShape(book, s, dc.next, room - 1); }
  }

  // Cut an accepted frame anywhere after its header: it is still accepted. What can be told of its
  // blocks without decoding: they are the first blocks of the whole frame where the cut counts no
  // more bytes than the whole frame does, and wherever the whole frame counts enough for every
  // block it can hold. Where the cut counts more, the whole frame's blocks are the first blocks of
  // the cut, so that it is then only a matter of how many.
  lemma Truncation(book: seq<Sym>, input: seq<Byte>, n: nat, outHalfwords: nat)
    requires Good(book) && Refusal(input, outHalfwords) == OK && 8 <= n <= |input|
    ensures Refusal(input[..n], outHalfwords) == OK && RlHalfwords(input[..n]) == RlHalfwords(input)
    ensures var cut, whole := FrameBlocks(book, input[..n]).words, FrameBlocks(book, input).words;
            && (Counted(input[..n]) <= Counted(input) || MostBits(input) <= 8 * Counted(input) ==> cut <= whole)
            && (Counted(input[..n]) >= Counted(input) ==> whole <= cut)
            && (cut <= whole <==> Counted(input[..n]) <= Counted(input) || |cut| <= |whole|)
  {
    hide Counted;
    hide FrameBlocks;
    hide RlHalfwords;
    CutKeepsHeader(input, n, outHalfwords);
    PayloadPrefix(input, n);
    if Counted(input[..n]) <= Counted(input) {
      FewerCounted(book, input[..n], input);
    }
    if Counted(input[..n]) >= Counted(input) {
      FewerCounted(book, input, input[..n]);
      if MostBits(input) <= 8 * Counted(input) {
        AllCounted(book, input[..n], input);
      }
    }
  }

  // Bytes that no block can reach need not be counted.
  lemma AllCounted(book: seq<Sym>, cut: seq<Byte>, input: seq<Byte>)
    requires Good(book) && |cut| >= 8 && |input| >= 8 && Counted(cut) >= Counted(input)
    requires RlHalfwords(cut) == RlHalfwords(input) && MostBits(input) <= 8 * Counted(input)
    requires HalfAt(cut, 4) == HalfAt(input, 4) && HalfAt(cut, 6) == HalfAt(input, 6)
    requires Agree(PayloadBits(Payload(cut)), PayloadBits(Payload(input)), 8 * Counted(cut))
    ensures FrameBlocks(book, cut).words <= FrameBlocks(book, input).words
  {
    hide DecodeBlocks;
    hide PayloadBits;
    var s, version, q := PayloadBits(Payload(input)), HalfAt(input, 6), HalfAt(input, 4);
    AgreeBlocks(book, PayloadBits(Payload(cut)), s, 8 * Counted(cut), 8 * Counted(cut), version, q,
                RlHalfwords(input), 0, DC_START);
    EnoughBits(book, s, 8 * Counted(cut), 8 * Counted(input), version, q, RlHalfwords(input), 0, DC_START);
  }

  // Below 2^29 payload bytes everything is counted, so there the cut's blocks always come first.
  lemma ShortTruncation(book: seq<Sym>, input: seq<Byte>, n: nat, outHalfwords: nat)
    requires Good(book) && Refusal(input, outHalfwords) == OK && 8 <= n <= |input|
    requires |Payload(input)| < 0x2000_0000
    ensures FrameBlocks(book, input[..n]).words <= FrameBlocks(book, input).words
  {
    hide DecodeBlocks;
    hide PayloadBits;
    hide FrameBlocks;
    hide RlHalfwords;
    hide Refusal;
    hide Good;
    Truncation(book, input, n, outHalfwords);
    PayloadPrefix(input, n);
  }

  // From that size on the count wraps: the frame decodes as if cut down to the remainder.
  lemma AvailWraps(book: seq<Sym>, input: seq<Byte>, outHalfwords: nat)
    requires Good(book) && Refusal(input, outHalfwords) == OK
    ensures 8 + Counted(input) <= |input|
    ensures FrameBlocks(book, input).words == FrameBlocks(book, input[..8 + Counted(input)]).words
  {
    hide FrameBlocks;
    var n := 8 + Counted(input);
    assert Counted(input[..n]) == Counted(input);
    Truncation(book, input, n, outHalfwords);
  }

  // With nothing counted no block is ever accepted.
  lemma NothingCounted(book: seq<Sym>, input: seq<Byte>)
    requires |input| >= 8 && Counted(input) == 0
    ensures FrameBlocks(book, input).words == []
  {
    if RlHalfwords(input) > 0 {
      BlockShape(book, PayloadBits(Payload(input)), 0, HalfAt(input, 6), HalfAt(input, 4), RlHalfwords(input), 0,
                 DC_START);
    }
  }
}
