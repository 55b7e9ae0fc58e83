/** bsdec/gentable.py: filling the decode tables from a prefix-free book. */
module GenTable {
  import opened Bits
  import opened CodeBook

  // One dispatch slot while the tables are being filled; pack() turns it into an entry.
  datatype Slot = Hole | Filled(sym: Sym, nbits: nat)

  function PackSlot(s: Slot): Word
    requires s.Filled? ==> s.sym.kind <= 2 && s.nbits < 32
  {
    if s.Hole? then 0 else Pack(s.sym, s.nbits)
  }

  // --- which slots a suffix covers -----------------------------------------------------

  lemma BitsInjective(bits: seq<Bit>, v: nat)
    requires v < Pow2(|bits|)
    ensures bits == BitsOf(v, |bits|) <==> Val(bits) == v
  {
    BitsOfVal(bits);
    ValBitsOf(v, |bits|);
  }

  // A suffix starts exactly the slots between its value, scaled, and the next value's.
  lemma SuffixSlots(suffix: seq<Bit>, w: nat, i: nat)
    requires |suffix| <= w && i < Pow2(w)
    ensures suffix <= BitsOf(i, w) <==> Val(suffix) == i / Pow2(w - |suffix|)
  {
    var k := |suffix|;
    var top: nat := i / Pow2(w - k);
    TopOfBits(i, w, k);
    TopFits(i, w, k);
    BitsInjective(suffix, top);
  }

  lemma CodeIsMarked(n: nat, code: seq<Bit>)
    requires LeadingZeros(code) == n < |code|
    ensures code == Marked(n, code[n + 1..])
  {
    LeadingZerosShape(code);
    assert code[..n] == Zeros(n);
  }

  lemma MarkedPrefix(n: nat, a: seq<Bit>, b: seq<Bit>)
    ensures Marked(n, a) <= Marked(n, b) <==> a <= b
  {
    assert Marked(n, a)[n + 1..] == a && Marked(n, b)[n + 1..] == b;
    if a <= b {
      assert Marked(n, b)[..|Marked(n, a)|] == Marked(n, a);
    }
  }

  lemma MarkedStarts(n: nat, code: seq<Bit>, suffix: seq<Bit>)
    requires LeadingZeros(code) == n < |code|
    ensures code <= Marked(n, suffix) <==> code[n + 1..] <= suffix
  {
    CodeIsMarked(n, code);
    MarkedPrefix(n, code[n + 1..], suffix);
  }

  // Only codes with n leading zeros can start a marked suffix of group n.
  lemma MarkedGroup(n: nat, code: seq<Bit>, suffix: seq<Bit>)
    requires LeadingZeros(code) < |code| && code <= Marked(n, suffix)
    ensures LeadingZeros(code) == n
  {
    var m, marked := LeadingZeros(code), Marked(n, suffix);
    LeadingZerosShape(code);
    assert marked[..m] == code[..m];
    LeadingZerosIs(marked, m);
    assert marked[..n] == Zeros(n);
    LeadingZerosIs(marked, n);
  }

  // --- one dispatch group --------------------------------------------------------------

  // Slot i of group n holds a code of book[..k] that starts its bits, if one does.
  ghost predicate SlotDone(book: seq<Sym>, k: nat, n: nat, w: nat, i: nat, slot: Slot)
    requires k <= |book|
  {
    && (slot.Filled? ==>
          exists j :: 0 <= j < k && book[j].code <= Marked(n, BitsOf(i, w)) && n < |book[j].code|
                      && slot == Filled(book[j], |book[j].code| - n - 1))
    && (slot.Hole? ==> forall j :: 0 <= j < k ==> !(book[j].code <= Marked(n, BitsOf(i, w))))
  }

  method FillGroup(book: seq<Sym>, n: nat) returns (filled: seq<Slot>)
    requires Good(book) && n <= MAXNZ
    ensures |filled| == Pow2(Width(book, n))
    ensures forall i :: 0 <= i < |filled| ==> SlotDone(book, |book|, n, Width(book, n), i, filled[i])
  {
    var w := Width(book, n);
    var slots := new Slot[Pow2(w)](_ => Hole);
    for k := 0 to |book|
      invariant fresh(slots) && slots.Length == Pow2(w)
      invariant forall i :: 0 <= i < slots.Length ==> SlotDone(book, k, n, w, i, slots[i])
    {
      assert WellFormedSym(book[k]);
      if LeadingZeros(book[k].code) == n {
        WidthIsWidest(book, n);
        CoverSlots(slots, book, k, n, w);
      } else {
        forall i | 0 <= i < slots.Length
          ensures !(book[k].code <= Marked(n, BitsOf(i, w)))
        {
          if book[k].code <= Marked(n, BitsOf(i, w)) {
            MarkedGroup(n, book[k].code, BitsOf(i, w));
          }
        }
      }
    }
    filled := slots[..];
  }

  // Every wider suffix that code k is a prefix of takes the code's slot, which no earlier
  // code has taken.
  method CoverSlots(slots: array<Slot>, book: seq<Sym>, k: nat, n: nat, w: nat)
    requires PrefixFree(book) && k < |book| && WellFormedSym(book[k])
    requires LeadingZeros(book[k].code) == n && |book[k].code| <= n + 1 + w && slots.Length == Pow2(w)
    requires forall i :: 0 <= i < slots.Length ==> SlotDone(book, k, n, w, i, slots[i])
    modifies slots
    ensures forall i :: 0 <= i < slots.Length ==> SlotDone(book, k + 1, n, w, i, slots[i])
  {
    hide SlotDone;
    hide SpanStart;
    var nbits := |book[k].code| - n - 1;
    var start, span := SpanStart(book[k].code, n, w), Pow2(w - nbits);
    SpanFits(book[k].code, n, w);
    for extra := 0 to span
      invariant forall i :: 0 <= i < slots.Length ==>
                  slots[i] == if start <= i < start + extra then Filled(book[k], nbits) else old(slots[i])
    {
      SlotFree(book, k, n, w, start + extra, slots[start + extra]);
      slots[start + extra] := Filled(book[k], nbits);
    }
    forall i | 0 <= i < slots.Length
      ensures SlotDone(book, k + 1, n, w, i, slots[i])
    {
      InCodeSpan(book[k].code, n, w, i);
      SlotStep(book, k, n, w, i, old(slots[i]), slots[i]);
    }
  }

  // The first slot of a code: its suffix, shifted to the group's width.
  function SpanStart(code: seq<Bit>, n: nat, w: nat): nat
    requires n < |code| <= n + 1 + w
  {
    Val(code[n + 1..]) * Pow2(w - (|code| - n - 1))
  }

  lemma InCodeSpan(code: seq<Bit>, n: nat, w: nat, i: nat)
    requires LeadingZeros(code) == n < |code| <= n + 1 + w && i < Pow2(w)
    ensures code <= Marked(n, BitsOf(i, w))
            <==> SpanStart(code, n, w) <= i < SpanStart(code, n, w) + Pow2(w - (|code| - n - 1))
  {
    MarkedStarts(n, code, BitsOf(i, w));
    SuffixSlots(code[n + 1..], w, i);
    InSpan(i, Val(code[n + 1..]), Pow2(w - (|code| - n - 1)));
  }

  // The generator's own assertion: the slot a code is about to take is still free.
  lemma SlotFree(book: seq<Sym>, k: nat, n: nat, w: nat, i: nat, slot: Slot)
    requires PrefixFree(book) && k < |book| && LeadingZeros(book[k].code) == n < |book[k].code| <= n + 1 + w
    requires i < Pow2(w) && SlotDone(book, k, n, w, i, slot)
    requires SpanStart(book[k].code, n, w) <= i < SpanStart(book[k].code, n, w) + Pow2(w - (|book[k].code| - n - 1))
    ensures slot == Hole
  {
    InCodeSpan(book[k].code, n, w, i);
    if slot.Filled? {
      var j :| 0 <= j < k && book[j].code <= Marked(n, BitsOf(i, w));
      UniqueHit(book, j, k, Marked(n, BitsOf(i, w)));
    }
  }

  lemma SlotStep(book: seq<Sym>, k: nat, n: nat, w: nat, i: nat, before: Slot, after: Slot)
    requires k < |book| && n < |book[k].code| && SlotDone(book, k, n, w, i, before)
    requires after == if book[k].code <= Marked(n, BitsOf(i, w)) then Filled(book[k], |book[k].code| - n - 1)
                      else before
    ensures SlotDone(book, k + 1, n, w, i, after)
  {
  }

  lemma SpanFits(code: seq<Bit>, n: nat, w: nat)
    requires n < |code| <= n + 1 + w
    ensures SpanStart(code, n, w) + Pow2(w - (|code| - n - 1)) <= Pow2(w)
  {
    hide Val;
    hide Pow2;
    var suffix := code[n + 1..];
    ValBound(suffix);
    Pow2Add(|suffix|, w - |suffix|);
    MulMono(Val(suffix) + 1, Pow2(|suffix|), Pow2(w - |suffix|));
  }

  lemma InSpan(i: nat, base: nat, span: nat)
    requires span > 0
    ensures base * span <= i < base * span + span <==> base == i / span
  {
    if base * span <= i < base * span + span {
      DivModUnique(base, i - base * span, span);
    }
  }

  // With a good book no slot stays a hole, and each packs to the entry its bits read as.
  lemma SlotPacks(book: seq<Sym>, n: nat, i: nat, slot: Slot)
    requires Good(book) && n <= MAXNZ && i < Pow2(Width(book, n))
    requires SlotDone(book, |book|, n, Width(book, n), i, slot)
    ensures slot.Filled? && slot.sym.kind <= 2 && slot.nbits < 32
    ensures GroupEntry(book, n, BitsOf(i, Width(book, n)), PackSlot(slot))
  {
    var bits := BitsOf(i, Width(book, n));
    assert Covered(book, Marked(n, bits));
    var j :| 0 <= j < |book| && book[j].code <= Marked(n, bits) && n < |book[j].code|
             && slot == Filled(book[j], |book[j].code| - n - 1);
    assert WellFormedSym(book[j]);
    PackRoundTrip(book[j], |book[j].code| - n - 1);
  }

  // --- the direct tables ---------------------------------------------------------------

  // The entry of the one code that starts the bits, zero when there is none.
  method DirectEntryOf(book: seq<Sym>, bits: seq<Bit>) returns (e: Word)
    requires Good(book)
    ensures DirectEntry(book, bits, e)
  {
    e := 0;
    ghost var hit: nat := |book|;
    for k := 0 to |book|
      invariant hit == |book| ==> e == 0 && forall j :: 0 <= j < k ==> !(book[j].code <= bits)
      invariant hit != |book| ==> hit < k && WellFormedSym(book[hit]) && book[hit].code <= bits
                                  && e != 0 && EntryMeans(e, 0, SymbolOf(book[hit]))
    {
      if book[k].code <= bits {
        if hit != |book| {
          UniqueHit(book, hit, k, bits);
        }
        assert WellFormedSym(book[k]);
        PackRoundTrip(book[k], |book[k].code|);
        e, hit := Pack(book[k], |book[k].code|), k;
      }
    }
  }

  method BuildDirect(book: seq<Sym>, lead: nat) returns (t: seq<Word>)
    requires Good(book)
    ensures |t| == 512
    ensures forall i :: 0 <= i < 512 ==> DirectEntry(book, Zeros(lead) + BitsOf(i, 9), t[i])
  {
    t := [];
    for i := 0 to 512
      invariant |t| == i
      invariant forall j :: 0 <= j < i ==> DirectEntry(book, Zeros(lead) + BitsOf(j, 9), t[j])
    {
      var e := DirectEntryOf(book, Zeros(lead) + BitsOf(i, 9));
      t := t + [e];
    }
  }

  // --- all of it -------------------------------------------------------------------------

  method PackGroup(book: seq<Sym>, n: nat) returns (entries: seq<Word>)
    requires Good(book) && n <= MAXNZ
    ensures |entries| == Pow2(Width(book, n))
    ensures forall i :: 0 <= i < |entries| ==> GroupEntry(book, n, BitsOf(i, Width(book, n)), entries[i])
  {
    hide GroupEntry;
    hide BitsOf;
    hide PackSlot;
    hide Width;
    hide Good;
    var slots := FillGroup(book, n);
    entries := [];
    for i := 0 to |slots|
      invariant |entries| == i
      invariant forall j :: 0 <= j < i ==> GroupEntry(book, n, BitsOf(j, Width(book, n)), entries[j])
    {
      SlotPacks(book, n, i, slots[i]);
      entries := entries + [PackSlot(slots[i])];
    }
  }

  lemma RowsStay(book: seq<Sym>, n: nat, w: nat, offset: nat, vlc: seq<Word>, more: seq<Word>)
    requires GroupRows(book, n, w, offset, vlc)
    ensures GroupRows(book, n, w, offset, vlc + more)
  {
    forall i | 0 <= i < Pow2(w)
      ensures GroupEntry(book, n, BitsOf(i, w), (vlc + more)[offset + i])
    {
      assert GroupEntry(book, n, BitsOf(i, w), vlc[offset + i]);
    }
  }

  // The dispatch tables: groups end to end, then the sentinel that rows past the book share.
  method BuildDispatch(book: seq<Sym>) returns (widths: seq<nat>, offsets: seq<nat>, vlc: seq<Word>)
    requires Good(book)
    ensures |widths| == 32 && |offsets| == 32
    ensures forall n :: 0 <= n <= MAXNZ ==> GroupRows(book, n, widths[n], offsets[n], vlc)
    ensures forall n :: MAXNZ < n < 32 ==> SentinelRow(widths[n], offsets[n], vlc)
  {
    widths, offsets, vlc := [], [], [];
    for n := 0 to MAXNZ + 1
      invariant |widths| == n && |offsets| == n
      invariant forall m :: 0 <= m < n ==> GroupRows(book, m, widths[m], offsets[m], vlc)
    {
      var entries := PackGroup(book, n);
      forall m | 0 <= m < n
        ensures GroupRows(book, m, widths[m], offsets[m], vlc + entries)
      {
        RowsStay(book, m, widths[m], offsets[m], vlc, entries);
      }
      NewRows(book, n, vlc, entries);
      widths, offsets, vlc := widths + [Width(book, n)], offsets + [|vlc|], vlc + entries;
    }
    ghost var rows := vlc;
    var total := |vlc|;
    vlc := vlc + [Pack(SENTINEL, 0)];
    forall m | 0 <= m <= MAXNZ
      ensures GroupRows(book, m, widths[m], offsets[m], vlc)
    {
      RowsStay(book, m, widths[m], offsets[m], rows, [Pack(SENTINEL, 0)]);
    }
    widths := widths + seq<nat>(31 - MAXNZ, _ => 0);
    offsets := offsets + seq<nat>(31 - MAXNZ, _ => total);
  }

  lemma NewRows(book: seq<Sym>, n: nat, vlc: seq<Word>, entries: seq<Word>)
    requires |entries| == Pow2(Width(book, n))
    requires forall i :: 0 <= i < |entries| ==> GroupEntry(book, n, BitsOf(i, Width(book, n)), entries[i])
    ensures GroupRows(book, n, Width(book, n), |vlc|, vlc + entries)
  {
    forall i | 0 <= i < |entries|
      ensures GroupEntry(book, n, BitsOf(i, Width(book, n)), (vlc + entries)[|vlc| + i])
    {
      assert (vlc + entries)[|vlc| + i] == entries[i];
    }
  }

  // gentable.py: every table the decoder indexes, correct for the book.
  method BuildTables(book: seq<Sym>) returns (t: Tables)
    requires Good(book)
    ensures TablesFor(book, t)
  {
    var prim := BuildDirect(book, 0);
    var sec := BuildDirect(book, 6);
    var widths, offsets, vlc := BuildDispatch(book);
    t := Tables(prim, sec, widths, offsets, vlc);
    forall i | 0 <= i < 512
      ensures DirectEntry(book, BitsOf(i, 9), prim[i])
    {
      assert Zeros(0) + BitsOf(i, 9) == BitsOf(i, 9);
    }
  }
}
