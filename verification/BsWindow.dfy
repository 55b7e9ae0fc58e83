/**
 * The decoder's 32-bit window: the next payload bit at bit 31, `valid` payload bits in
 * all, zeros below. Every lemma here says what one C expression on the window means in
 * terms of payload positions.
 */
module BsWindow {
  import opened Bits
  import opened CodeBook
  import opened BsStream

  // The window of a decoder standing at pos with `valid` bits loaded. After a garbage
  // prefix `valid` can be as low as -15: bits skipped before they were ever loaded.
  function Window(s: seq<Bit>, pos: nat, valid: int): (w: seq<Bit>)
    ensures |w| == 32
  {
    seq<Bit>(32, i requires 0 <= i => WindowBit(s, pos, valid, i))
  }

  function WindowBit(s: seq<Bit>, pos: nat, valid: int, i: nat): Bit {
    if i < valid then At(s, pos + i) else 0
  }

  // The number in the window's top n bits; by default, all of it.
  function Reg(s: seq<Bit>, pos: nat, valid: int, n: nat := 32): nat {
    if n == 0 then 0 else 2 * Reg(s, pos, valid, n - 1) + WindowBit(s, pos, valid, n - 1)
  }

  lemma {:induction false} RegSpells(s: seq<Bit>, pos: nat, valid: int, n: nat)
    requires n <= 32
    ensures Reg(s, pos, valid, n) == Val(Window(s, pos, valid)[..n])
  {
    if n > 0 {
      RegSpells(s, pos, valid, n - 1);
      assert Window(s, pos, valid)[..n][..n - 1] == Window(s, pos, valid)[..n - 1];
    }
  }

  lemma RegIsWindow(s: seq<Bit>, pos: nat, valid: int)
    ensures Reg(s, pos, valid) == Val(Window(s, pos, valid)) < TWO32
  {
    RegSpells(s, pos, valid, 32);
    assert Window(s, pos, valid)[..32] == Window(s, pos, valid);
    ValIsWord(Window(s, pos, valid));
  }

  lemma WindowIsWord(s: seq<Bit>, pos: nat, valid: int)
    ensures Reg(s, pos, valid) < TWO32
  {
    RegIsWindow(s, pos, valid);
  }

  lemma WindowShift(s: seq<Bit>, pos: nat, valid: int, k: nat, pos': nat, valid': int)
    requires k <= 31 && valid <= 32 && pos' == pos + k && valid' == valid - k
    ensures Reg(s, pos, valid) < TWO32
    ensures Shl(Reg(s, pos, valid), k) == Reg(s, pos', valid')
  {
    RegIsWindow(s, pos, valid);
    RegIsWindow(s, pos', valid');
    ShlBits(Window(s, pos, valid), k);
    assert Window(s, pos, valid)[k..] + Zeros(k) == Window(s, pos', valid');
  }

  lemma WindowTop(s: seq<Bit>, pos: nat, valid: int, k: nat)
    requires 1 <= k <= 32 && k <= valid
    ensures Reg(s, pos, valid) < TWO32
    ensures Shr(Reg(s, pos, valid), 32 - k) == Val(Slice(s, pos, k)) < Pow2(k)
  {
    RegIsWindow(s, pos, valid);
    ShrBits(Window(s, pos, valid), 32 - k);
    assert Window(s, pos, valid)[..k] == Slice(s, pos, k);
    ValBound(Slice(s, pos, k));
  }

  // window |= half << (16 - valid): sixteen more payload bits, wherever the window
  // stands, provided the halfword is the one that starts where the loaded bits end.
  lemma WindowRefill(payload: seq<Byte>, pos: nat, feed: nat, valid: int)
    requires |payload| % 2 == 0 && Aligned(feed)
    requires pos == 8 * feed - valid && -15 <= valid <= 16
    ensures Reg(PayloadBits(payload), pos, valid) < TWO32
    ensures BitOr(Reg(PayloadBits(payload), pos, valid), Shl(HalfAt(payload, feed), 16 - valid))
            == Reg(PayloadBits(payload), pos, valid + 16)
  {
    var s, half := PayloadBits(payload), BitsOf(HalfAt(payload, feed), 16);
    var added := (Zeros(16) + half)[16 - valid..] + Zeros(16 - valid);
    HalfShifted(HalfAt(payload, feed), 16 - valid);
    RegIsWindow(s, pos, valid);
    RegIsWindow(s, pos, valid + 16);
    ValOr(Window(s, pos, valid), added);
    assert OrBits(Window(s, pos, valid), added) == Window(s, pos, valid + 16) by {
      AlignedIsEven(feed);
      PayloadHalf(payload, feed / 2);
      assert 16 * (feed / 2) == 8 * feed;
      RefillBits(s, pos, feed, valid, half, added);
    }
  }

  // `feed` moves two bytes at a time, so it always sits between halfwords.
  predicate Aligned(feed: nat) {
    feed == 0 || (feed >= 2 && Aligned(feed - 2))
  }

  lemma {:induction false} AlignedIsEven(feed: nat)
    requires Aligned(feed)
    ensures feed % 2 == 0 && (8 * feed) % 16 == 0
  {
    if feed >= 2 {
      AlignedIsEven(feed - 2);
    }
  }

  lemma HalfShifted(h: Half, k: nat)
    requires k <= 31
    ensures Shl(h, k) == Val((Zeros(16) + BitsOf(h, 16))[k..] + Zeros(k))
  {
    var half := BitsOf(h, 16);
    assert Val(Zeros(16) + half) == h by {
      ValConcat(Zeros(16), half);
      ValZero(Zeros(16));
      Pow2Values();
      ValBitsOf(h, 16);
    }
    ShlBits(Zeros(16) + half, k);
  }

  lemma RefillBits(s: seq<Bit>, pos: nat, feed: nat, valid: int, half: seq<Bit>, added: seq<Bit>)
    requires pos == 8 * feed - valid && -15 <= valid <= 16
    requires half == Slice(s, 8 * feed, 16)
    requires added == (Zeros(16) + half)[16 - valid..] + Zeros(16 - valid)
    ensures OrBits(Window(s, pos, valid), added) == Window(s, pos, valid + 16)
  {
    forall i | 0 <= i < 32
      ensures OrBits(Window(s, pos, valid), added)[i] == Window(s, pos, valid + 16)[i]
    {
      if valid <= i < valid + 16 {
        assert added[i] == half[i - valid];
      } else {
        assert added[i] == 0;
      }
    }
  }

  // --- the three lookups -----------------------------------------------------------

  lemma IndexSpells(s: seq<Bit>, pos: nat, n: nat)
    ensures Val(Slice(s, pos, n)) < Pow2(n)
    ensures BitsOf(Val(Slice(s, pos, n)), n) == Slice(s, pos, n)
  {
    ValBound(Slice(s, pos, n));
    BitsOfVal(Slice(s, pos, n));
  }

  lemma HitIsNextSymbol(book: seq<Sym>, s: seq<Bit>, pos: nat, n: nat, k: nat)
    requires PrefixFree(book) && k < |book| && WellFormedSym(book[k]) && book[k].code <= Slice(s, pos, n)
    ensures NextSymbol(book, s, pos) == SymbolOf(book[k])
  {
    assert book[k].code == Slice(s, pos, n)[..|book[k].code|] == Slice(s, pos, |book[k].code|);
    NextSymbolIs(book, s, pos, k, 0);
  }

  lemma DirectHit(book: seq<Sym>, s: seq<Bit>, pos: nat, n: nat, e: Word)
    requires PrefixFree(book) && DirectEntry(book, Slice(s, pos, n), e)
    ensures e == 0 <==> !Covered(book, Slice(s, pos, n))
    ensures e != 0 ==> EntryMeans(e, 0, NextSymbol(book, s, pos)) && EntryLength(e) <= LONGEST
  {
    if Covered(book, Slice(s, pos, n)) {
      var k :| 0 <= k < |book| && WellFormedSym(book[k]) && book[k].code <= Slice(s, pos, n)
               && e != 0 && EntryMeans(e, 0, SymbolOf(book[k]));
      HitIsNextSymbol(book, s, pos, n, k);
    }
  }

  lemma PrimLookup(book: seq<Sym>, t: Tables, s: seq<Bit>, pos: nat)
    requires Good(book) && TablesFor(book, t)
    ensures Val(Slice(s, pos, 9)) < 512
    ensures var e := t.prim[Val(Slice(s, pos, 9))];
            if e == 0 then AllZero(Slice(s, pos, 6))
            else EntryMeans(e, 0, NextSymbol(book, s, pos)) && EntryLength(e) <= LONGEST
  {
    var bits := Slice(s, pos, 9);
    IndexSpells(s, pos, 9);
    Pow2Values();
    DirectHit(book, s, pos, 9, t.prim[Val(bits)]);
    if !Covered(book, bits) {
      assert bits[..6] == Slice(s, pos, 6);
    }
  }

  lemma SecLookup(book: seq<Sym>, t: Tables, s: seq<Bit>, pos: nat)
    requires Good(book) && TablesFor(book, t) && AllZero(Slice(s, pos, 6))
    ensures Val(Slice(s, pos + 6, 9)) < 512
    ensures var e := t.sec[Val(Slice(s, pos + 6, 9))];
            if e == 0 then AllZero(Slice(s, pos, 10))
            else EntryMeans(e, 0, NextSymbol(book, s, pos)) && EntryLength(e) <= LONGEST
  {
    var bits := Slice(s, pos + 6, 9);
    IndexSpells(s, pos + 6, 9);
    Pow2Values();
    ZerosThen(s, pos, 6, 9);
    DirectHit(book, s, pos, 15, t.sec[Val(bits)]);
    if !Covered(book, Zeros(6) + bits) {
      ZerosThen(s, pos, 6, 4);
      assert bits[..4] == Slice(s, pos + 6, 4) == Zeros(4);
    }
  }

  lemma ZerosThen(s: seq<Bit>, pos: nat, n: nat, m: nat)
    requires AllZero(Slice(s, pos, n))
    ensures Zeros(n) + Slice(s, pos + n, m) == Slice(s, pos, n + m)
  {
    assert Slice(s, pos, n + m)[..n] == Slice(s, pos, n) == Zeros(n);
    assert Slice(s, pos, n + m)[n..] == Slice(s, pos + n, m);
  }

  // n + 1 prefix bits and the group's suffix never outrun the 17 bits a refill leaves.
  lemma GroupFits(book: seq<Sym>, n: nat)
    requires Good(book) && n <= MAXNZ
    ensures n + 1 + Width(book, n) <= LONGEST
  {
    WidthIsWidest(book, n);
    if Width(book, n) > 0 {
      var k :| 0 <= k < |book| && LeadingZeros(book[k].code) == n && |book[k].code| == n + 1 + Width(book, n);
      assert WellFormedSym(book[k]);
    }
  }

  lemma GroupLookup(book: seq<Sym>, t: Tables, s: seq<Bit>, pos: nat, n: nat)
    requires Good(book) && TablesFor(book, t)
    requires n <= MAXNZ && AllZero(Slice(s, pos, n)) && At(s, pos + n) == 1
    ensures var w := t.widths[n];
            n + 1 + w <= LONGEST && Val(Slice(s, pos + n + 1, w)) < Pow2(w)
            && t.offsets[n] + Pow2(w) <= |t.vlc|
    ensures var e := t.vlc[t.offsets[n] + Val(Slice(s, pos + n + 1, t.widths[n]))];
            EntryMeans(e, n + 1, NextSymbol(book, s, pos)) && n + 1 + EntryLength(e) <= LONGEST
  {
    hide NextSymbol;
    hide EntryMeans;
    hide EntryLength;
    hide AllZero;
    hide Slice;
    hide At;
    hide GroupEntry;
    hide Marked;
    hide TablesFor;
    hide Good;
    GroupFits(book, n);
    GroupRow(book, t, n);
    var w := t.widths[n];
    IndexSpells(s, pos + n + 1, w);
    MarkedSlice(s, pos, n, w);
    var i := Val(Slice(s, pos + n + 1, w));
    GroupRowEntry(book, n, w, t.offsets[n], t.vlc, i);
    GroupHit(book, s, pos, n, w, t.vlc[t.offsets[n] + i]);
  }

  lemma MarkedSlice(s: seq<Bit>, pos: nat, n: nat, w: nat)
    requires AllZero(Slice(s, pos, n)) && At(s, pos + n) == 1
    ensures Marked(n, Slice(s, pos + n + 1, w)) == Slice(s, pos, n + 1 + w)
  {
    ZerosThen(s, pos, n, 1 + w);
    assert Slice(s, pos + n, 1 + w) == [1] + Slice(s, pos + n + 1, w);
  }

  lemma GroupRow(book: seq<Sym>, t: Tables, n: nat)
    requires TablesFor(book, t) && n <= MAXNZ
    ensures n < |t.widths| && n < |t.offsets| && GroupRows(book, n, t.widths[n], t.offsets[n], t.vlc)
  {
    var offset := t.offsets[n];
    assert GroupRows(book, n, t.widths[n], offset, t.vlc);
  }

  lemma GroupRowEntry(book: seq<Sym>, n: nat, w: nat, offset: nat, vlc: seq<Word>, i: nat)
    requires GroupRows(book, n, w, offset, vlc) && i < Pow2(w)
    ensures GroupEntry(book, n, BitsOf(i, w), vlc[offset + i])
  {
  }

  lemma GroupHit(book: seq<Sym>, s: seq<Bit>, pos: nat, n: nat, w: nat, e: Word)
    requires Good(book) && Marked(n, Slice(s, pos + n + 1, w)) == Slice(s, pos, n + 1 + w)
    requires GroupEntry(book, n, Slice(s, pos + n + 1, w), e)
    ensures EntryMeans(e, n + 1, NextSymbol(book, s, pos)) && n + 1 + EntryLength(e) <= LONGEST
  {
    var k :| 0 <= k < |book| && WellFormedSym(book[k]) && book[k].code <= Slice(s, pos, n + 1 + w)
             && EntryMeans(e, n + 1, SymbolOf(book[k]));
    HitIsNextSymbol(book, s, pos, n + 1 + w, k);
  }

  // --- counting zeros ----------------------------------------------------------------

  // __builtin_clz, with the empty word reported as 31.
  function Clz32(v: Word): (n: nat)
    ensures n <= 31
  {
    if v == 0 then 31 else
      var n := LeadingZeros(BitsOf(v, 32));
      if n >= 32 then 31 else n
  }

  lemma ClzOfWindow(s: seq<Bit>, pos: nat, valid: int)
    requires LONGEST <= valid <= 32
    ensures Reg(s, pos, valid) < TWO32
    ensures var n := LeadingZeros(Slice(s, pos, valid));
            Clz32(Reg(s, pos, valid)) == if n < valid then n else 31
  {
    var w := Window(s, pos, valid);
    RegIsWindow(s, pos, valid);
    BitsOfVal(w);
    ValZero(w);
    assert w[..valid] == Slice(s, pos, valid);
    var n := LeadingZeros(Slice(s, pos, valid));
    LeadingZerosShape(Slice(s, pos, valid));
    if n < valid {
      assert w[..n] == Slice(s, pos, valid)[..n];
      assert w[n] == 1;
      LeadingZerosIs(w, n);
    } else {
      assert Slice(s, pos, valid)[..n] == Slice(s, pos, valid);
      assert AllZero(w);
    }
  }

  // A count inside the book names the group; beyond it, the sentinel's length.
  lemma ClzMeaning(s: seq<Bit>, pos: nat, valid: int)
    requires valid == Loaded(pos)
    ensures Reg(s, pos, valid) < TWO32
    ensures var n := Clz32(Reg(s, pos, valid));
            if AllZero(Slice(s, pos, MAXNZ + 1)) then n > MAXNZ && n + 1 == SentinelLength(s, pos)
            else n <= MAXNZ && AllZero(Slice(s, pos, n)) && At(s, pos + n) == 1
  {
    ClzOfWindow(s, pos, valid);
    LeadingZerosShape(Slice(s, pos, valid));
    var bits, n := Slice(s, pos, valid), LeadingZeros(Slice(s, pos, valid));
    assert bits[..n] == Slice(s, pos, n);
    assert bits[..MAXNZ + 1] == Slice(s, pos, MAXNZ + 1);
    if n <= MAXNZ {
      assert Slice(s, pos, MAXNZ + 1)[n] == 1;
    } else {
      assert Slice(s, pos, MAXNZ + 1) == bits[..n][..MAXNZ + 1];
    }
  }

  lemma LoadedIs(pos: nat, feed: nat, valid: int)
    requires LONGEST <= valid <= 32 && pos == 8 * feed - valid && Aligned(feed)
    ensures valid == Loaded(pos)
  {
    hide Loaded;
    hide Aligned;
    AlignedIsEven(feed);
    HalfwordAhead(pos, feed / 2, valid);
  }

  lemma HalfwordAhead(pos: nat, halves: nat, valid: int)
    requires LONGEST <= valid <= 32 && pos == 16 * halves - valid
    ensures valid == Loaded(pos)
  {
  }
}
