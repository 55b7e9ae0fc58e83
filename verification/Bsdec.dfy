/** bsdec/bsdec.c: the table-driven decoder, its bit window and its frame loop. */
module Bsdec {
  import opened Bits
  import opened CodeBook
  import opened BsStream
  import opened BsWindow
  import opened BsFrame

  // A bit window standing at payload bit pos, with d = 16 - valid as its one counter:
  // `valid == 8 * feed - pos` at every point, and every shift it implies is in 0..31.
  ghost predicate Standing(payload: seq<Byte>, pos: nat, win: Word, feed: nat, d: int) {
    && Aligned(feed) && pos == 8 * feed - (16 - d) && -16 <= d <= 31
    && win == Reg(PayloadBits(payload), pos, 16 - d)
  }

  // struct BsdecBits. `overrun` is a bool; everything else keeps its C meaning.
  class BsdecBits {
    const base: seq<Byte>
    const availBits: Word
    var pos: nat
    var feed: nat
    var window: Word
    var valid: int
    var overrun: bool

    ghost function Stream(): seq<Bit> { PayloadBits(base) }

    ghost predicate Valid()
      reads this
    {
      && |base| % 2 == 0
      && availBits == (|base| * 8) % TWO32
      && Standing(base, pos, window, feed, 16 - valid)
    }

    constructor (payload: seq<Byte>)
      requires |payload| % 2 == 0
      ensures Valid() && base == payload && pos == 0 && !overrun
    {
      base := payload;
      availBits := (|payload| * 8) % TWO32;
      pos, feed, window, valid, overrun := 0, 0, 0, 0, false;
      new;
      RegIsWindow(Stream(), 0, 0);
      ValZero(Window(Stream(), 0, 0));
    }

    method Refill()
      requires Valid()
      modifies this`feed, this`window, this`valid
      ensures Valid() && valid >= LONGEST
    {
      ghost var payload, at := base, pos;
      while valid <= 16
        invariant Aligned(feed) && at == 8 * feed - valid && -15 <= valid <= 32
        invariant window == Reg(PayloadBits(payload), at, valid)
        decreases 32 - valid
      {
        WindowRefill(payload, at, feed, valid);
        WindowIsWord(PayloadBits(payload), at, valid + 16);
        var half: Half := HalfAt(base, feed);
        var fed: nat, filled: Word := feed + 2, BitOr(window, Shl(half, 16 - valid));
        feed, window, valid := fed, filled, valid + 16;
      }
    }

    function Peek(bits: nat): (r: nat)
      requires Valid() && 1 <= bits <= valid
      reads this
      ensures r == Val(Slice(Stream(), pos, bits)) < Pow2(bits)
    {
      WindowTop(Stream(), pos, valid, bits);
      Shr(window, 32 - bits)
    }

    method Consume(bits: nat)
      requires Valid() && bits <= 16 && bits <= valid
      modifies this`pos, this`window, this`valid
      ensures Valid() && pos == old(pos) + bits && valid == old(valid) - bits
    {
      WindowShift(Stream(), pos, valid, bits, pos + bits, valid - bits);
      pos, window, valid := pos + bits, Shl(window, bits), valid - bits;
    }

    predicate PastEnd()
      reads this
    {
      pos > availBits
    }
  }

  // The top-up of the AC loop, on the locals win, feed and d = 16 - valid.
  method TopUp(payload: seq<Byte>, ghost pos: nat, win0: Word, feed0: nat, d0: int)
    returns (win: Word, feed: nat, d: int)
    requires |payload| % 2 == 0 && Aligned(feed0)
    requires pos == 8 * feed0 - (16 - d0) && -16 <= d0 <= 31
    requires win0 == Reg(PayloadBits(payload), pos, 16 - d0)
    ensures Aligned(feed) && pos == 8 * feed - (16 - d) && -16 <= d <= -1
    ensures win == Reg(PayloadBits(payload), pos, 16 - d)
  {
    win, feed, d := win0, feed0, d0;
    while d >= 0
      invariant Aligned(feed) && pos == 8 * feed - (16 - d) && -16 <= d <= 31
      invariant win == Reg(PayloadBits(payload), pos, 16 - d)
    {
      WindowRefill(payload, pos, feed, 16 - d);
      WindowIsWord(PayloadBits(payload), pos, 32 - d);
      var half: Half := HalfAt(payload, feed);
      feed := feed + 2;
      win := BitOr(win, Shl(half, d));
      d := d - 16;
    }
  }

  // The two direct lookups: a finished entry, or zero with ten or more leading zeros.
  method LookUpDirect(t: Tables, ghost book: seq<Sym>, ghost s: seq<Bit>, ghost pos: nat, win: Word, ghost valid: int)
    returns (e: Word)
    requires Good(book) && TablesFor(book, t)
    requires LONGEST <= valid <= 32 && win == Reg(s, pos, valid)
    ensures e != 0 ==> EntryMeans(e, 0, NextSymbol(book, s, pos)) && EntryLength(e) <= LONGEST
  {
    WindowTop(s, pos, valid, 9);
    PrimLookup(book, t, s, pos);
    e := t.prim[Shr(win, 23)];
    if e == 0 {
      WindowShift(s, pos, valid, 6, pos + 6, valid - 6);
      WindowTop(s, pos + 6, valid - 6, 9);
      SecLookup(book, t, s, pos);
      e := t.sec[Shr(Shl(win, 6), 23)];
    }
  }

  // The leading-zero dispatch, past the n zeros and the marker: the group's suffix, or
  // the sentinel.
  method LookUpSuffix(t: Tables, ghost book: seq<Sym>, ghost s: seq<Bit>, ghost pos: nat,
                      n: nat, win: Word, ghost valid: int)
    returns (e: Word)
    requires Good(book) && TablesFor(book, t)
    requires n <= 31 && LONGEST - n - 1 <= valid && win == Reg(s, pos + n + 1, valid)
    requires if AllZero(Slice(s, pos, MAXNZ + 1)) then n > MAXNZ && n + 1 == SentinelLength(s, pos)
             else n <= MAXNZ && AllZero(Slice(s, pos, n)) && At(s, pos + n) == 1
    ensures EntryMeans(e, n + 1, NextSymbol(book, s, pos))
    ensures if n <= MAXNZ then n + 1 + EntryLength(e) <= LONGEST
            else EntryLength(e) == 0 && EntryKind(e) == EOB
  {
    var w := t.widths[n];
    if n <= MAXNZ {
      GroupLookup(book, t, s, pos, n);
      if w != 0 {
        WindowTop(s, pos + n + 1, valid, w);
      }
    } else {
      assert SentinelRow(w, t.offsets[n], t.vlc);
      PackRoundTrip(SENTINEL, 0);
      NextSymbolGarbage(book, s, pos, 0);
    }
    e := t.vlc[t.offsets[n] + (if w != 0 then Shr(win, 32 - w) else 0)];
  }

  // window <<= k on a local window.
  method Drop(ghost s: seq<Bit>, ghost pos: nat, win0: Word, ghost valid: int, k: nat,
              ghost pos': nat, ghost valid': int)
    returns (win: Word)
    requires k <= 31 && valid <= 32 && win0 == Reg(s, pos, valid)
    requires pos' == pos + k && valid' == valid - k
    ensures win == Reg(s, pos', valid')
  {
    WindowShift(s, pos, valid, k, pos', valid');
    win := Shl(win0, k);
  }

  // The leading-zero dispatch: an entry, and the window and bits consumed past it.
  method CountAndDispatch(t: Tables, ghost book: seq<Sym>, ghost s: seq<Bit>, ghost pos: nat,
                          win0: Word, ghost valid: int)
    returns (e: Word, win: Word, length: nat)
    requires Good(book) && TablesFor(book, t)
    requires LONGEST <= valid <= 32 && valid == Loaded(pos)
    requires win0 == Reg(s, pos, valid)
    ensures length <= 32 && (length <= LONGEST || EntryKind(e) == EOB)
    ensures EntryMeans(e, length - EntryLength(e), NextSymbol(book, s, pos))
    ensures win == Reg(s, pos + length, valid - length)
  {
    hide Good;
    hide TablesFor;
    hide EntryMeans;
    hide NextSymbol;
    hide Reg;
    hide AllZero;
    hide Slice;
    hide At;
    hide Loaded;
    hide SentinelLength;
    hide EntryKind;
    hide EntryLength;
    hide Clz32;
    ClzMeaning(s, pos, valid);
    var n := Clz32(win0);
    // Two shifts, since n + 1 reaches 32 and C leaves a shift by 32 undefined.
    win := Drop(s, pos, win0, valid, n, pos + n, valid - n);
    win := Drop(s, pos + n, win, valid - n, 1, pos + n + 1, valid - n - 1);
    e := LookUpSuffix(t, book, s, pos, n, win, valid - n - 1);
    var sb := EntryLength(e);
    length := n + 1 + sb;
    win := Drop(s, pos + n + 1, win, valid - n - 1, sb, pos + length, valid - length);
  }

  // One symbol: its entry, and the window and counter past it.
  method Dispatch(t: Tables, ghost book: seq<Sym>, ghost s: seq<Bit>, ghost pos: nat, win0: Word, d0: int)
    returns (e: Word, win: Word, d: int, ghost length: nat)
    requires Good(book) && TablesFor(book, t)
    requires -16 <= d0 <= -1 && 16 - d0 == Loaded(pos)
    requires win0 == Reg(s, pos, 16 - d0)
    ensures d == d0 + length && length <= 32 && (length <= LONGEST || EntryKind(e) == EOB)
    ensures EntryMeans(e, length - EntryLength(e), NextSymbol(book, s, pos))
    ensures win == Reg(s, pos + length, 16 - d0 - length)
  {
    e := LookUpDirect(t, book, s, pos, win0, 16 - d0);
    if e != 0 {
      var len := EntryLength(e);
      win := Drop(s, pos, win0, 16 - d0, len, pos + len, 16 - d0 - len);
      d, length := d0 + len, len;
    } else {
      var used;
      e, win, used := CountAndDispatch(t, book, s, pos, win0, 16 - d0);
      d, length := d0 + used, used;
    }
  }

  // Top the window up and take one code off it.
  method FetchCode(payload: seq<Byte>, t: Tables, ghost book: seq<Sym>, ghost pos: nat,
                   win0: Word, feed0: nat, d0: int)
    returns (e: Word, win: Word, feed: nat, d: int, ghost next: nat)
    requires Good(book) && TablesFor(book, t) && |payload| % 2 == 0
    requires Standing(payload, pos, win0, feed0, d0)
    ensures Standing(payload, next, win, feed, d) && (d <= 16 || EntryKind(e) == EOB)
    ensures var sym := NextSymbol(book, PayloadBits(payload), pos);
            EntryKind(e) == sym.kind && EntryHalfword(e) == sym.halfword && next == pos + sym.length
  {
    ghost var length;
    win, feed, d := TopUp(payload, pos, win0, feed0, d0);
    ghost var valid := 16 - d;
    LoadedIs(pos, feed, valid);
    e, win, d, length := Dispatch(t, book, PayloadBits(payload), pos, win, d);
    next := pos + length;
    assert valid - length == 16 - d;
  }

  // The sixteen bits after an escape, which are the run-level halfword verbatim.
  method FetchEscape(payload: seq<Byte>, ghost pos: nat, win0: Word, feed0: nat, d0: int)
    returns (word: Half, win: Word, feed: nat, d: int)
    requires |payload| % 2 == 0 && Standing(payload, pos, win0, feed0, d0)
    ensures word == Val(Slice(PayloadBits(payload), pos, 16))
    ensures Standing(payload, pos + 16, win, feed, d) && d <= 16
  {
    win, feed, d := TopUp(payload, pos, win0, feed0, d0);
    WindowTop(PayloadBits(payload), pos, 16 - d, 16);
    Pow2Values();
    word := Shr(win, 16);
    win := Drop(PayloadBits(payload), pos, win, 16 - d, 16, pos + 16, -d);
    d := d + 16;
  }

  lemma AcNoRoom(book: seq<Sym>, s: seq<Bit>, pos: nat)
    ensures DecodeAc(book, s, pos, 0) == Overlong
    ensures AcEnd(book, s, pos, 0) == pos + NextSymbol(book, s, pos).length
  {
  }

  lemma AcStep(book: seq<Sym>, s: seq<Bit>, pos: nat, room: nat, word: Half, next: nat,
               room': nat, before: seq<Half>, after: seq<Half>)
    returns (rest: Ac)
    requires room == room' + 1 && after == before + [word]
    requires var sym := NextSymbol(book, s, pos); word == SymbolWord(sym, s, pos) && next == SymbolEnd(sym, pos)
    ensures rest == DecodeAc(book, s, next, room')
    ensures AcEnd(book, s, pos, room)
            == if NextSymbol(book, s, pos).kind == EOB then next else AcEnd(book, s, next, room')
    ensures Prepend(before, DecodeAc(book, s, pos, room))
            == if NextSymbol(book, s, pos).kind == EOB then Whole(after, next) else Prepend(after, rest)
  {
    rest := DecodeAc(book, s, next, room');
    if NextSymbol(book, s, pos).kind != EOB && rest.Whole? {
      assert before + ([word] + rest.words) == after + rest.words;
    }
  }

  // One turn of the AC loop: fetch a code and, if there is room, store its word.
  method OneCode(payload: seq<Byte>, t: Tables, ghost book: seq<Sym>, out: array<Half>, count: nat, target: nat,
                 ghost pos: nat, win0: Word, feed0: nat, d0: int)
    returns (kind: nat, win: Word, feed: nat, d: int, ghost next: nat)
    requires Good(book) && TablesFor(book, t) && |payload| % 2 == 0
    requires Standing(payload, pos, win0, feed0, d0) && count <= target <= out.Length
    modifies out
    ensures Standing(payload, next, win, feed, d)
    ensures var s := PayloadBits(payload);
            var sym := NextSymbol(book, s, pos);
            && kind == sym.kind
            && if count == target then out[..count] == old(out[..count]) && next == pos + sym.length
               else next == SymbolEnd(sym, pos) && out[..count + 1] == old(out[..count]) + [SymbolWord(sym, s, pos)]
    ensures out[target..] == old(out[target..])
  {
    var e;
    e, win, feed, d, next := FetchCode(payload, t, book, pos, win0, feed0, d0);
    kind := EntryKind(e);
    if count >= target { return; }
    if kind == ESCAPE {
      var word;
      word, win, feed, d := FetchEscape(payload, next, win, feed, d);
      out[count] := word;
      next := next + 16;
    } else {
      out[count] := EntryHalfword(e);
    }
  }

  // The AC loop of one block, on its locals: one word per code, until the end marker or
  // until a code arrives with no room for its word.
  method AcLoop(payload: seq<Byte>, t: Tables, ghost book: seq<Sym>, out: array<Half>, start: nat, target: nat,
                ghost pos0: nat, win0: Word, feed0: nat, d0: int)
    returns (count: nat, overlong: bool, win: Word, feed: nat, d: int, ghost pos: nat, ghost words: seq<Half>)
    requires Good(book) && TablesFor(book, t) && |payload| % 2 == 0
    requires Standing(payload, pos0, win0, feed0, d0) && start <= target <= out.Length
    modifies out
    ensures Standing(payload, pos, win, feed, d) && start <= count <= target
    ensures DecodeAc(book, PayloadBits(payload), pos0, target - start)
            == if overlong then Overlong else Whole(words, pos)
    ensures pos == AcEnd(book, PayloadBits(payload), pos0, target - start)
    ensures out[..count] == old(out[..start]) + words && out[target..] == old(out[target..])
  {
    hide DecodeAc;
    hide AcEnd;
    hide NextSymbol;
    hide PayloadBits;
    hide Standing;
    hide Good;
    hide TablesFor;
    ghost var s, rest := PayloadBits(payload), DecodeAc(book, PayloadBits(payload), pos0, target - start);
    ghost var whole := rest;
    pos, win, feed, d, words := pos0, win0, feed0, d0, [];
    count, overlong := start, false;
    while true
      invariant start <= count <= target && !overlong
      invariant Standing(payload, pos, win, feed, d)
      invariant out[..count] == old(out[..start]) + words && out[target..] == old(out[target..])
      invariant rest == DecodeAc(book, s, pos, target - count) && Prepend(words, rest) == whole
      invariant AcEnd(book, s, pos, target - count) == AcEnd(book, s, pos0, target - start)
      decreases target - count
    {
      var kind;
      ghost var next;
      kind, win, feed, d, next := OneCode(payload, t, book, out, count, target, pos, win, feed, d);
      if count >= target {
        AcNoRoom(book, s, pos);
        overlong, pos := true, next;
        break;
      }
      ghost var word := SymbolWord(NextSymbol(book, s, pos), s, pos);
      rest := AcStep(book, s, pos, target - count, word, next, target - (count + 1), words, words + [word]);
      count, words, pos := count + 1, words + [word], next;
      if kind == EOB { break; }
    }
  }

  // The AC codes of one block: the window moves to locals and back.
  method DecodeAcCodes(b: BsdecBits, t: Tables, ghost book: seq<Sym>, out: array<Half>, start: nat, target: nat)
    returns (count: nat, overlong: bool, ghost words: seq<Half>)
    requires Good(book) && TablesFor(book, t)
    requires b.Valid() && start <= target <= out.Length
    modifies b`pos, b`feed, b`window, b`valid, out
    ensures b.Valid() && start <= count <= target
    ensures DecodeAc(book, b.Stream(), old(b.pos), target - start) == if overlong then Overlong else Whole(words, b.pos)
    ensures b.pos == AcEnd(book, b.Stream(), old(b.pos), target - start)
    ensures out[..count] == old(out[..start]) + words && out[target..] == old(out[target..])
  {
    var win, feed, d;
    ghost var pos;
    count, overlong, win, feed, d, pos, words :=
      AcLoop(b.base, t, book, out, start, target, b.pos, b.window, b.feed, 16 - b.valid);
    b.window, b.feed, b.valid, b.pos := win, feed, 16 - d, feed * 8 - (16 - d);
  }

  // The DC of one block: raw ten bits in versions 1 and 2.
  method DecodeDcCode(b: BsdecBits, version: nat, st0: DcState) returns (ok: bool, dc: nat, st: DcState)
    requires b.Valid() && DcReady(st0)
    modifies b`pos, b`feed, b`window, b`valid
    ensures b.Valid() && DcReady(st)
    ensures var r := DecodeDc(version, b.Stream(), old(b.pos), st0);
            if ok then r == Dc(dc, b.pos, st) else r == NoDc
  {
    b.Refill();
    if version != 3 {
      ok, dc, st := true, b.Peek(10), st0;
      b.Consume(10);
    } else {
      var delta;
      ok, delta := DecodeDcDifference(b, st0.block >= 2);
      if !ok {
        dc, st := 0, st0;
        return;
      }
      st := Advance(st0, delta);
      dc := st.preds[Plane(st0.block)] % 1024;
    }
  }

  // In version 3, a size code and a difference of that many bits.
  method DecodeDcDifference(b: BsdecBits, luma: bool) returns (ok: bool, delta: int)
    requires b.Valid() && b.valid >= LONGEST
    modifies b`pos, b`window, b`valid
    ensures b.Valid()
    ensures var r := DecodeDifference(luma, b.Stream(), old(b.pos));
            if ok then r == Difference(delta, b.pos) else r == NoDifference
  {
    var size := ScanSize(b, luma);
    if size == SIZES {
      ok, delta := false, 0;
      return;
    }
    ok := true;
    b.Consume(SizeBits(luma, size));
    delta := ReadDifference(b, size);
  }

  method ReadDifference(b: BsdecBits, size: nat) returns (delta: int)
    requires b.Valid() && size < SIZES && size <= b.valid
    modifies b`pos, b`window, b`valid
    ensures b.Valid() && b.pos == old(b.pos) + size
    ensures delta == Delta(Val(Slice(b.Stream(), old(b.pos), size)), size)
  {
    delta := 0;
    if size > 0 {
      var raw := b.Peek(size);
      TopBit(raw, size);
      b.Consume(size);
      delta := if (raw / Pow2(size - 1)) % 2 == 1 then raw else raw - (Pow2(size) - 1);
    }
  }

  // The top bit of a size-bit number says whether it reaches half the range.
  lemma TopBit(raw: nat, size: nat)
    requires size > 0 && raw < Pow2(size)
    ensures (raw / Pow2(size - 1)) % 2 == 1 <==> raw >= Pow2(size - 1)
  {
    var half := Pow2(size - 1);
    if raw < half {
      DivModUnique(0, raw, half);
    } else {
      DivModUnique(1, raw - half, half);
    }
  }

  method ScanSize(b: BsdecBits, luma: bool) returns (size: nat)
    requires b.Valid() && b.valid >= LONGEST
    ensures size == SizeAt(luma, b.Stream(), b.pos, 0)
  {
    size := SIZES;
    var i := 0;
    while i < SIZES
      invariant i <= SIZES && SizeAt(luma, b.Stream(), b.pos, 0) == SizeAt(luma, b.Stream(), b.pos, i)
    {
      if b.Peek(SizeBits(luma, i)) == SizeCode(luma, i) {
        size := i;
        return;
      }
      i := i + 1;
    }
  }

  lemma Associate(a: seq<Half>, b: seq<Half>, c: seq<Half>)
    ensures (a + b) + c == a + (b + c)
  {
  }

  // A block once its DC is known: the DC word, then its codes' words. The words of a
  // block that does not come out whole are left in `out` past `start`.
  method CloseBlock(b: BsdecBits, t: Tables, ghost book: seq<Sym>, out: array<Half>, start: nat, target: nat,
                    dcWord: Half)
    returns (stop: bool, overlong: bool, count: nat)
    requires Good(book) && TablesFor(book, t) && b.Valid() && start < target <= out.Length
    modifies b`pos, b`feed, b`window, b`valid, b`overrun, out
    ensures b.Valid() && start <= count <= target && out[target..] == old(out[target..])
    ensures var ac := DecodeAc(book, b.Stream(), old(b.pos), target - (start + 1));
            if ac.Whole? && ac.next <= b.availBits then
              !stop && !overlong && b.pos == ac.next && out[..count] == old(out[..start]) + ([dcWord] + ac.words)
            else stop && overlong == ac.Overlong? && count == start && out[..count] == old(out[..start])
  {
    hide Good;
    hide TablesFor;
    hide DecodeAc;
    hide Reg;
    ghost var before, words := out[..start], [];
    out[start] := dcWord;
    assert out[..start + 1] == before + [dcWord];
    count, overlong, words := DecodeAcCodes(b, t, book, out, start + 1, target);
    Associate(before, [dcWord], words);
    stop := overlong || b.PastEnd();
    if stop {
      assert out[..start] == out[..count][..start];
      b.overrun := b.overrun || b.PastEnd();
      count := start;
    }
  }

  // One turn of the frame loop.
  method OneBlock(b: BsdecBits, t: Tables, ghost book: seq<Sym>, version: nat, q: nat,
                  out: array<Half>, start: nat, target: nat, st0: DcState)
    returns (stop: bool, overlong: bool, count: nat, st: DcState)
    requires Good(book) && TablesFor(book, t)
    requires b.Valid() && DcReady(st0) && start < target <= out.Length
    modifies b`pos, b`feed, b`window, b`valid, b`overrun, out
    ensures b.Valid() && start <= count <= target && DcReady(st)
    ensures var r := DecodeBlock(book, b.Stream(), b.availBits, version, q, target - start, old(b.pos), st0);
            if r.Stop? then stop && count == start && overlong == r.end.TooLong? && out[..count] == old(out[..start])
            else !stop && !overlong && b.pos == r.next && st == r.st && count == start + |r.words|
                 && out[..count] == old(out[..start]) + r.words
    ensures out[target..] == old(out[target..])
  {
    var ok, dc;
    ok, dc, st := DecodeDcCode(b, version, st0);
    if !ok || b.PastEnd() {
      b.overrun := true;
      return true, false, start, st;
    }
    // The source asks once more what its loop over blocks has just asked.
    if start >= target { assert false; }
    stop, overlong, count := CloseBlock(b, t, book, out, start, target, DcWord(q, dc));
  }

  lemma {:induction false} FlattenAppend(done: seq<seq<Half>>, words: seq<Half>)
    ensures Flatten(done + [words]) == Flatten(done) + words
    decreases |done|
  {
    if done == [] {
      assert done + [words] == [words];
    } else {
      FlattenAppend(done[1..], words);
      assert (done + [words])[1..] == done[1..] + [words];
    }
  }

  // The frame loop's account: the words so far are those of the blocks `done`, and what is
  // still to be decoded from here in `room` words completes the frame's blocks `all`.
  ghost predicate Account(book: seq<Sym>, s: seq<Bit>, avail: nat, version: nat, q: nat, room: nat,
                          words: seq<Half>, pos: nat, st: DcState, done: seq<seq<Half>>, all: Blocks) {
    && DcReady(st) && words == Flatten(done)
    && Extend(done, DecodeBlocks(book, s, avail, version, q, room, pos, st)) == all
  }

  lemma AccountOpens(book: seq<Sym>, s: seq<Bit>, avail: nat, version: nat, q: nat, room: nat, words: seq<Half>)
    requires words == []
    ensures DcReady(DC_START)
    ensures Account(book, s, avail, version, q, room, words, 0, DC_START, [],
                    DecodeBlocks(book, s, avail, version, q, room, 0, DC_START))
  {
    var all := DecodeBlocks(book, s, avail, version, q, room, 0, DC_START);
    assert Extend([], all) == all;
  }

  lemma AccountEnds(book: seq<Sym>, s: seq<Bit>, avail: nat, version: nat, q: nat,
                    words: seq<Half>, pos: nat, st: DcState, done: seq<seq<Half>>, all: Blocks)
    requires Account(book, s, avail, version, q, 0, words, pos, st, done, all)
    ensures words == Flatten(done) && all == Blocks(done, Full)
  {
    assert done + [] == done;
  }

  lemma AccountReady(book: seq<Sym>, s: seq<Bit>, avail: nat, version: nat, q: nat, room: nat,
                     words: seq<Half>, pos: nat, st: DcState, done: seq<seq<Half>>, all: Blocks)
    requires Account(book, s, avail, version, q, room, words, pos, st, done, all)
    ensures DcReady(st)
  {
  }

  lemma AccountStop(book: seq<Sym>, s: seq<Bit>, avail: nat, version: nat, q: nat, room: nat,
                    words: seq<Half>, pos: nat, st: DcState, done: seq<seq<Half>>, all: Blocks)
    requires room > 0 && Account(book, s, avail, version, q, room, words, pos, st, done, all)
    requires DecodeBlock(book, s, avail, version, q, room, pos, st).Stop?
    ensures var b := DecodeBlock(book, s, avail, version, q, room, pos, st);
            words == Flatten(done) && all == Blocks(done, b.end) && (b.end == RanOut || b.end == TooLong)
  {
    assert done + [] == done;
  }

  lemma AccountStep(book: seq<Sym>, s: seq<Bit>, avail: nat, version: nat, q: nat, room: nat,
                    words: seq<Half>, pos: nat, st: DcState, done: seq<seq<Half>>, all: Blocks)
    requires room > 0 && Account(book, s, avail, version, q, room, words, pos, st, done, all)
    requires DecodeBlock(book, s, avail, version, q, room, pos, st).Block?
    ensures var b := DecodeBlock(book, s, avail, version, q, room, pos, st);
            2 <= |b.words| <= room
            && Account(book, s, avail, version, q, room - |b.words|, words + b.words, b.next, b.st,
                       done + [b.words], all)
  {
    BlockShape(book, s, avail, version, q, room, pos, st);
    var b := DecodeBlock(book, s, avail, version, q, room, pos, st);
    FlattenAppend(done, b.words);
    var rest := DecodeBlocks(book, s, avail, version, q, room - |b.words|, b.next, b.st);
    assert done + ([b.words] + rest.words) == (done + [b.words]) + rest.words;
  }

  method Turn(b: BsdecBits, t: Tables, ghost book: seq<Sym>, version: nat, q: nat, out: array<Half>,
              start: nat, target: nat, st0: DcState, ghost done0: seq<seq<Half>>, ghost all: Blocks)
    returns (stop: bool, overlong: bool, count: nat, st: DcState, ghost done: seq<seq<Half>>)
    requires Good(book) && TablesFor(book, t)
    requires b.Valid() && start < target <= out.Length
    requires Account(book, b.Stream(), b.availBits, version, q, target - start, out[..start], b.pos, st0, done0, all)
    modifies b`pos, b`feed, b`window, b`valid, b`overrun, out
    ensures b.Valid() && start <= count <= target && out[target..] == old(out[target..])
    ensures if stop then count == start && out[..count] == Flatten(done) && done == done0
                         && all == Blocks(done, if overlong then TooLong else RanOut)
            else count > start && |done| == |done0| + 1 && !overlong
                 && Account(book, b.Stream(), b.availBits, version, q, target - count, out[..count], b.pos, st,
                            done, all)
  {
    hide Good;
    hide TablesFor;
    hide DecodeBlock;
    hide DecodeBlocks;
    hide Standing;
    AccountReady(book, b.Stream(), b.availBits, version, q, target - start, out[..start], b.pos, st0, done0, all);
    hide Account;
    ghost var room, s, avail := target - start, b.Stream(), b.availBits;
    ghost var block := DecodeBlock(book, s, avail, version, q, room, b.pos, st0);
    done := done0;
    if block.Stop? {
      AccountStop(book, s, avail, version, q, room, out[..start], b.pos, st0, done0, all);
    } else {
      AccountStep(book, s, avail, version, q, room, out[..start], b.pos, st0, done0, all);
      done := done0 + [block.words];
    }
    stop, overlong, count, st := OneBlock(b, t, book, version, q, out, start, target, st0);
    assert !stop ==> target - count == room - |block.words|;
  }

  // The frame loop: whole blocks in order until the declared length is filled, the
  // payload runs out, or a block outgrows what is left.
  method BlockLoop(payload: seq<Byte>, t: Tables, ghost book: seq<Sym>, version: nat, q: nat,
                   out: array<Half>, target: nat)
    returns (count: nat, blocks: nat, overlong: bool, ranOut: bool, ghost done: seq<seq<Half>>)
    requires Good(book) && TablesFor(book, t) && target <= out.Length && |payload| % 2 == 0
    modifies out
    ensures count <= target && out[..count] == Flatten(done) && blocks == |done|
    ensures out[target..] == old(out[target..])
    ensures DecodeBlocks(book, PayloadBits(payload), AvailBits(payload), version, q, target, 0, DC_START)
            == Blocks(done, if overlong then TooLong else if ranOut then RanOut else Full)
    ensures !overlong && !ranOut ==> count == target
  {
    hide Good;
    hide TablesFor;
    hide DecodeBlocks;
    hide PayloadBits;
    hide Standing;
    hide Account;
    var b := new BsdecBits(payload);
    ghost var all := DecodeBlocks(book, b.Stream(), b.availBits, version, q, target, 0, DC_START);
    var st, stop := DC_START, false;
    count, blocks, overlong, ranOut, done := 0, 0, false, false, [];
    AccountOpens(book, b.Stream(), b.availBits, version, q, target, out[..0]);
    while count < target && !stop
      invariant fresh(b) && b.base == payload && b.Valid() && count <= target && blocks == |done|
      invariant out[target..] == old(out[target..]) && (overlong ==> stop) && (ranOut <==> stop && !overlong)
      invariant if stop then out[..count] == Flatten(done) && all == Blocks(done, if overlong then TooLong else RanOut)
                else Account(book, b.Stream(), b.availBits, version, q, target - count, out[..count], b.pos, st,
                             done, all)
      decreases target - count, !stop
    {
      stop, overlong, count, st, done := Turn(b, t, book, version, q, out, count, target, st, done, all);
      if stop {
        ranOut := !overlong;
      } else {
        blocks := blocks + 1;
      }
    }
    if !stop {
      AccountEnds(book, b.Stream(), b.availBits, version, q, out[..count], b.pos, st, done, all);
    }
  }

  // bsdecFrame. The tables are the compiled-in ones; the book is what they encode.
  method BsdecFrame(input: seq<Byte>, out: array<Half>, outHalfwords: nat, t: Tables, ghost book: seq<Sym>)
    returns (r: BsdecResult)
    requires Good(book) && TablesFor(book, t)
    requires |input| < TWO32 && outHalfwords <= out.Length
    modifies out
    ensures r == FrameResult(book, input, outHalfwords)
    ensures Refusal(input, outHalfwords) == OK ==> out[..RlHalfwords(input)] == FrameWords(book, input)
    ensures var from := if Refusal(input, outHalfwords) == OK then RlHalfwords(input) else 0;
            out[from..] == old(out[from..])
  {
    r := BsdecResult(0, 0, 0, 0, 0, OK);
    if |input| < 8 { return r.(error := SHORT); }
    if HalfAt(input, 2) != 0x3800 { return r.(error := NOT_BS); }
    var qScale, version := HalfAt(input, 4), HalfAt(input, 6);
    if version == 0 || version > 3 { return r.(error := BAD_VERSION); }
    r := r.(mdecCommand := Command(input), qScale := qScale, version := version);
    var target: nat := HalfAt(input, 0) * 2;
    if outHalfwords < target { return r.(error := OUTPUT_TOO_SMALL); }

    var blocks, error := DecodePayload(Payload(input), version, qScale, out, target, t, book);
    r := r.(blocks := blocks, error := error, halfwords := target);
  }

  // The part of bsdecFrame after the header: the blocks, the verdict and the padding.
  method DecodePayload(payload: seq<Byte>, version: nat, q: nat, out: array<Half>, target: nat,
                       t: Tables, ghost book: seq<Sym>)
    returns (blocks: nat, error: Error)
    requires Good(book) && TablesFor(book, t) && |payload| % 2 == 0 && target <= out.Length
    modifies out
    ensures var r := DecodeBlocks(book, PayloadBits(payload), AvailBits(payload), version, q, target, 0, DC_START);
            && |Flatten(r.words)| <= target
            && blocks == |r.words| && error == Verdict(r, target)
            && out[..target] == Flatten(r.words) + Padding(target - |Flatten(r.words)|)
    ensures out[target..] == old(out[target..])
  {
    hide Good;
    hide TablesFor;
    hide DecodeBlocks;
    hide PayloadBits;
    var count, overlong, ranOut;
    ghost var done;
    count, blocks, overlong, ranOut, done := BlockLoop(payload, t, book, version, q, out, target);
    error := if overlong then OVERLONG
             else if ranOut && count < target && target - count >= 64 then TRUNCATED
             else OK;
    assert |Flatten(done)| == count;
    PadOutput(out, count, target);
  }

  // The footers the declared length implies and the bitstream does not carry.
  method PadOutput(out: array<Half>, start: nat, target: nat)
    requires start <= target <= out.Length
    modifies out
    ensures out[..target] == old(out[..start]) + Padding(target - start)
    ensures out[target..] == old(out[target..])
  {
    var count := start;
    while count < target
      invariant start <= count <= target
      invariant forall i :: 0 <= i < start || target <= i < out.Length ==> out[i] == old(out[i])
      invariant forall i :: start <= i < count ==> out[i] == 0xfe00
    {
      out[count] := 0xfe00;
      count := count + 1;
    }
  }
}
