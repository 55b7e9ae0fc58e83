/** The AC code book and the decode tables that bsdec/gentable.py derives from it. */
module CodeBook {
  import opened Bits

  const NORMAL: nat := 0
  const EOB: nat := 1
  const ESCAPE: nat := 2

  // The book's deepest group: no code starts with more zeros than this.
  const MAXNZ: nat := 11
  // The longest code the 32-bit window can serve from one refill.
  const LONGEST: nat := 17

  datatype Sym = Sym(code: seq<Bit>, kind: nat, run: nat, level: int)

  function LeadingZeros(s: seq<Bit>): nat {
    if s == [] || s[0] == 1 then 0 else 1 + LeadingZeros(s[1..])
  }

  lemma {:induction false} LeadingZerosShape(s: seq<Bit>)
    ensures LeadingZeros(s) <= |s| && AllZero(s[..LeadingZeros(s)])
    ensures LeadingZeros(s) < |s| ==> s[LeadingZeros(s)] == 1
  {
    if s != [] && s[0] != 1 {
      LeadingZerosShape(s[1..]);
      forall i | 0 <= i < LeadingZeros(s)
        ensures s[i] == 0
      {
        if i > 0 {
          assert s[i] == s[1..][..LeadingZeros(s[1..])][i - 1];
        }
      }
    }
  }

  lemma {:induction false} LeadingZerosIs(bits: seq<Bit>, n: nat)
    requires n < |bits| && AllZero(bits[..n]) && bits[n] == 1
    ensures LeadingZeros(bits) == n
  {
    if n > 0 {
      assert bits[0] == bits[..n][0] == 0;
      assert bits[1..][..n - 1] == bits[..n][1..];
      LeadingZerosIs(bits[1..], n - 1);
    }
  }

  lemma {:induction false} LeadingZerosAtLeast(bits: seq<Bit>, m: nat)
    requires m <= |bits| && AllZero(bits[..m])
    ensures LeadingZeros(bits) >= m
  {
    if m > 0 {
      assert bits[0] == bits[..m][0] == 0;
      assert bits[1..][..m - 1] == bits[..m][1..];
      LeadingZerosAtLeast(bits[1..], m - 1);
    }
  }

  lemma LeadingZerosAll(bits: seq<Bit>)
    requires AllZero(bits)
    ensures LeadingZeros(bits) == |bits|
  {
  }

  // Whether some code of the book starts the given bits.
  ghost predicate Covered(book: seq<Sym>, bits: seq<Bit>) {
    exists k :: 0 <= k < |book| && book[k].code <= bits
  }

  predicate WellFormedSym(s: Sym) {
    && s.kind <= 2
    && LeadingZeros(s.code) < |s.code| <= LONGEST
    && LeadingZeros(s.code) <= MAXNZ
  }

  predicate Starts(a: Sym, b: Sym) {
    a.code <= b.code
  }

  ghost predicate PrefixFree(book: seq<Sym>) {
    forall j, k {:trigger Starts(book[j], book[k])} ::
      0 <= j < |book| && 0 <= k < |book| && j != k ==> !Starts(book[j], book[k])
  }

  // The widest suffix after the marker among the codes with n leading zeros.
  function Width(book: seq<Sym>, n: nat): nat {
    if book == [] then 0 else
      var last, w := book[|book| - 1], Width(book[..|book| - 1], n);
      if LeadingZeros(last.code) == n && |last.code| > n + 1 + w then |last.code| - n - 1 else w
  }

  lemma {:induction false} WidthIsWidest(book: seq<Sym>, n: nat)
    ensures forall k :: 0 <= k < |book| && LeadingZeros(book[k].code) == n ==> |book[k].code| <= n + 1 + Width(book, n)
    ensures Width(book, n) == 0
            || exists k :: 0 <= k < |book| && LeadingZeros(book[k].code) == n
                           && |book[k].code| == n + 1 + Width(book, n)
  {
    if book != [] {
      var m := |book| - 1;
      WidthIsWidest(book[..m], n);
      if Width(book, n) != Width(book[..m], n) {
        assert LeadingZeros(book[m].code) == n && |book[m].code| == n + 1 + Width(book, n);
      } else if Width(book, n) != 0 {
        var k :| 0 <= k < m && LeadingZeros(book[..m][k].code) == n && |book[..m][k].code| == n + 1 + Width(book, n);
        assert LeadingZeros(book[k].code) == n && |book[k].code| == n + 1 + Width(book, n);
      }
    }
  }

  // The code space of group n at one suffix.
  function Marked(n: nat, suffix: seq<Bit>): seq<Bit> {
    Zeros(n) + [1] + suffix
  }

  // What gentable.py asserts of a book before it emits tables, with the two facts it
  // only reports: no code outgrows the window, and no dispatch slot is left unreachable.
  ghost predicate Good(book: seq<Sym>) {
    && (forall k {:trigger WellFormedSym(book[k])} :: 0 <= k < |book| ==> WellFormedSym(book[k]))
    && PrefixFree(book)
    && (exists k :: 0 <= k < |book| && book[k].kind == ESCAPE)
    && (exists k :: 0 <= k < |book| && book[k].kind == EOB)
    && (forall n: nat, suffix: seq<Bit> {:trigger Covered(book, Marked(n, suffix))} ::
          n <= MAXNZ && |suffix| == Width(book, n) ==> Covered(book, Marked(n, suffix)))
    && (forall bits: seq<Bit> {:trigger Covered(book, bits)} ::
          |bits| == 9 ==> (Covered(book, bits) <==> !AllZero(bits[..6])))
    && (forall bits: seq<Bit> {:trigger Covered(book, Zeros(6) + bits)} ::
          |bits| == 9 ==> (Covered(book, Zeros(6) + bits) <==> !AllZero(bits[..4])))
  }

  lemma PrefixesNest(a: seq<Bit>, b: seq<Bit>, bits: seq<Bit>)
    requires a <= bits && b <= bits
    ensures a <= b || b <= a
  {
    if |a| <= |b| {
      assert a == bits[..|a|] == b[..|a|];
    } else {
      assert b == bits[..|b|] == a[..|b|];
    }
  }

  // At most one code starts any given bits.
  lemma UniqueHit(book: seq<Sym>, j: nat, k: nat, bits: seq<Bit>)
    requires PrefixFree(book) && j < |book| && k < |book|
    requires book[j].code <= bits && book[k].code <= bits
    ensures j == k
  {
    PrefixesNest(book[j].code, book[k].code, bits);
    assert j == k || (!Starts(book[j], book[k]) && !Starts(book[k], book[j]));
  }

  // --- table entries -------------------------------------------------------------

  // The MDEC run-level halfword a symbol stands for.
  function Halfword(s: Sym): Half {
    if s.kind == EOB then 0xfe00
    else if s.kind == ESCAPE then 0
    else (s.run % 64) * 1024 + s.level % 1024
  }

  // What reading one code tells the decoder: its kind, its word and its bits.
  datatype Symbol = Symbol(kind: nat, halfword: Half, length: nat)

  function SymbolOf(s: Sym): Symbol {
    Symbol(s.kind, Halfword(s), |s.code|)
  }

  // bits 0..15 halfword, 16..20 a bit count, 21..22 kind, 23 valid
  function Pack(s: Sym, nbits: nat): Word
    requires s.kind <= 2 && nbits < 32
  {
    Halfword(s) + nbits * 0x1_0000 + s.kind * 0x20_0000 + 0x80_0000
  }

  function EntryHalfword(e: Word): Half { e % 0x1_0000 }
  function EntryLength(e: Word): nat { Shr(e, 16) % 32 }
  function EntryKind(e: Word): nat { Shr(e, 21) % 4 }

  lemma PackRoundTrip(s: Sym, nbits: nat)
    requires s.kind <= 2 && nbits < 32
    ensures Pack(s, nbits) != 0
    ensures EntryHalfword(Pack(s, nbits)) == Halfword(s)
    ensures EntryLength(Pack(s, nbits)) == nbits
    ensures EntryKind(Pack(s, nbits)) == s.kind
  {
    ShiftsDivide(Pack(s, nbits));
  }

  lemma ShiftsDivide(e: Word)
    ensures Shr(e, 16) == e / 0x1_0000 && Shr(e, 21) == e / 0x20_0000
  {
    ShrDivides(e, 16);
    ShrDivides(e, 21);
    Pow2Values();
  }

  // An entry reads as the symbol, `extra` of whose bits were taken before the lookup.
  predicate EntryMeans(e: Word, extra: int, sym: Symbol) {
    EntryKind(e) == sym.kind && EntryHalfword(e) == sym.halfword && EntryLength(e) + extra == sym.length
  }

  const SENTINEL: Sym := Sym([], EOB, 0, 0)

  datatype Tables = Tables(prim: seq<Word>, sec: seq<Word>, widths: seq<nat>, offsets: seq<nat>, vlc: seq<Word>)

  // A direct-lookup entry carries the one code that starts the bits, or nothing.
  ghost predicate DirectEntry(book: seq<Sym>, bits: seq<Bit>, e: Word) {
    if Covered(book, bits) then
      exists k :: 0 <= k < |book| && WellFormedSym(book[k]) && book[k].code <= bits
                  && e != 0 && EntryMeans(e, 0, SymbolOf(book[k]))
    else e == 0
  }

  // A dispatch entry carries the code of group n that starts the marked suffix.
  ghost predicate GroupEntry(book: seq<Sym>, n: nat, suffix: seq<Bit>, e: Word) {
    exists k :: 0 <= k < |book| && WellFormedSym(book[k]) && book[k].code <= Marked(n, suffix)
                && EntryMeans(e, n + 1, SymbolOf(book[k]))
  }

  // The rows of group n: as many entries as its width allows, from its offset on.
  ghost predicate GroupRows(book: seq<Sym>, n: nat, w: nat, offset: nat, vlc: seq<Word>) {
    && w == Width(book, n) && offset + Pow2(w) <= |vlc|
    && forall i {:trigger BitsOf(i, w)} ::
         0 <= i < Pow2(w) ==> GroupEntry(book, n, BitsOf(i, w), vlc[offset + i])
  }

  ghost predicate SentinelRow(w: nat, offset: nat, vlc: seq<Word>) {
    w == 0 && offset < |vlc| && vlc[offset] == Pack(SENTINEL, 0)
  }

  ghost predicate TablesFor(book: seq<Sym>, t: Tables) {
    && |t.prim| == 512 && |t.sec| == 512 && |t.widths| == 32 && |t.offsets| == 32
    && (forall i {:trigger DirectEntry(book, BitsOf(i, 9), t.prim[i])} ::
          0 <= i < 512 ==> DirectEntry(book, BitsOf(i, 9), t.prim[i]))
    && (forall i {:trigger DirectEntry(book, Zeros(6) + BitsOf(i, 9), t.sec[i])} ::
          0 <= i < 512 ==> DirectEntry(book, Zeros(6) + BitsOf(i, 9), t.sec[i]))
    && (forall n {:trigger t.offsets[n]} :: 0 <= n <= MAXNZ ==> GroupRows(book, n, t.widths[n], t.offsets[n], t.vlc))
    && (forall n {:trigger t.offsets[n]} :: MAXNZ < n < 32 ==> SentinelRow(t.widths[n], t.offsets[n], t.vlc))
  }
}
