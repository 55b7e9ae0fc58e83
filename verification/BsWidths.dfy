/** That the 32-bit positions and predictors of bsdec/bsdec.c never wrap. */
module BsWidths {
  import opened Bits
  import opened CodeBook
  import opened BsStream
  import opened BsFrame

  // --- positions -------------------------------------------------------------------------

  // However a block's codes are left, they took at most 33 bits a word and one code more.
  lemma {:induction false} AcEndBound(book: seq<Sym>, s: seq<Bit>, pos: nat, room: nat)
    ensures pos <= AcEnd(book, s, pos, room) <= pos + 33 * room + 32
    decreases room
  {
    var sym := NextSymbol(book, s, pos);
    SymbolBounds(book, s, pos, 0);
    if room > 0 && sym.kind != EOB { AcEndBound(book, s, SymbolEnd(sym, pos), room - 1); }
  }

  // --- predictors ------------------------------------------------------------------------

  // Every predictor after n differences.
  ghost predicate Mild(st: DcState, n: nat) {
    DcReady(st) && forall p {:trigger st.preds[p]} :: 0 <= p < 3 ==> -1020 * n <= st.preds[p] <= 1020 * n
  }

  ghost predicate Int32s(st: DcState) {
    forall p {:trigger st.preds[p]} :: 0 <= p < |st.preds| ==> -0x8000_0000 <= st.preds[p] < 0x8000_0000
  }

  lemma DeltaBound(raw: nat, size: nat)
    requires size < SIZES && raw < Pow2(size)
    ensures -255 <= Delta(raw, size) <= 255
  {
    SmallPowers();
  }

  lemma DcMild(version: nat, s: seq<Bit>, pos: nat, st: DcState, n: nat)
    requires Mild(st, n)
    ensures var dc := DecodeDc(version, s, pos, st); dc.Dc? ==> Mild(dc.st, n + 1)
  {
    hide Delta;
    hide Val;
    if version == 3 {
      var luma := IsLuma(st.block);
      var size := SizeAt(luma, s, pos, 0);
      if size < SIZES {
        var at := pos + SizeBits(luma, size);
        ValBound(Slice(s, at, size));
        DeltaBound(Val(Slice(s, at, size)), size);
        AdvanceMild(st, Delta(Val(Slice(s, at, size)), size), n);
      }
    }
  }

  lemma AdvanceMild(st: DcState, delta: int, n: nat)
    requires Mild(st, n) && -255 <= delta <= 255
    ensures Mild(Advance(st, delta), n + 1)
  {
  }

  // --- a whole frame -----------------------------------------------------------------------

  // Position and predictors when k blocks have been decoded.
  function Reached(book: seq<Sym>, s: seq<Bit>, avail: nat, version: nat, q: nat,
                   room: nat, pos: nat, st: DcState, k: nat): (r: (nat, DcState))
    requires DcReady(st)
    ensures DcReady(r.1)
    decreases k, room
  {
    if k == 0 || room == 0 then (pos, st)
    else
      BlockShape(book, s, avail, version, q, room, pos, st);
      match DecodeBlock(book, s, avail, version, q, room, pos, st)
      case Stop(_) => (pos, st)
      case Block(words, next, st') => Reached(book, s, avail, version, q, room - |words|, next, st', k - 1)
  }

  lemma {:induction false} ReachedFits(book: seq<Sym>, s: seq<Bit>, avail: nat, version: nat, q: nat,
                                       room: nat, pos: nat, st: DcState, k: nat, n: nat)
    requires Mild(st, n)
    ensures var (pos', st') := Reached(book, s, avail, version, q, room, pos, st, k);
            pos' <= pos + 33 * room && Mild(st', n + room)
    decreases k, room
  {
    hide Mild;
    MildReady(st, n);
    if k > 0 && room > 0 {
      BlockShape(book, s, avail, version, q, room, pos, st);
      var b := DecodeBlock(book, s, avail, version, q, room, pos, st);
      DcMild(version, s, pos, st, n);
      if b.Block? {
        var left := room - |b.words|;
        ReachedFits(book, s, avail, version, q, left, b.next, b.st, k - 1, n + 1);
        var (pos', st') := Reached(book, s, avail, version, q, left, b.next, b.st, k - 1);
        MildMore(st', n + 1 + left, n + room);
      }
    }
    if k == 0 || room == 0 || DecodeBlock(book, s, avail, version, q, room, pos, st).Stop? {
      MildMore(st, n, n + room);
    }
  }

  lemma MildReady(st: DcState, n: nat)
    requires Mild(st, n)
    ensures DcReady(st)
  {
  }

  lemma MildMore(st: DcState, m: nat, n: nat)
    requires Mild(st, m) && m <= n
    ensures Mild(st, n)
  {
  }

  // In any frame whatever: after any number of its blocks, and wherever the codes of the block
  // after them end, the position, the feed up to four bytes before it and every predictor fit
  // the 32 bits that the source keeps them in.
  lemma FrameFits(book: seq<Sym>, input: seq<Byte>, k: nat, room: nat)
    requires |input| >= 8 && room <= RlHalfwords(input)
    ensures var s, version := PayloadBits(Payload(input)), HalfAt(input, 6);
            var (pos, st) := Reached(book, s, AvailBits(Payload(input)), version, HalfAt(input, 4),
                                     RlHalfwords(input), 0, DC_START, k);
            var dc := DecodeDc(version, s, pos, st);
            && pos < 0x100_0000 && (dc.Dc? ==> AcEnd(book, s, dc.next, room) + 32 < 0x100_0000)
            && Int32s(st) && (dc.Dc? ==> Int32s(dc.st))
  {
    var s, version := PayloadBits(Payload(input)), HalfAt(input, 6);
    var avail, q, target := AvailBits(Payload(input)), HalfAt(input, 4), RlHalfwords(input);
    var (pos, st) := Reached(book, s, avail, version, q, target, 0, DC_START, k);
    ReachedFits(book, s, avail, version, q, target, 0, DC_START, k, 0);
    var dc := DecodeDc(version, s, pos, st);
    DcMild(version, s, pos, st, target);
    if dc.Dc? { AcEndBound(book, s, dc.next, room); }
  }
}
