/** What a BS payload means, one bit at a time: no window, no tables, no refills. */
module BsStream {
  import opened Bits
  import opened CodeBook

  // --- the bits of a payload -----------------------------------------------------

  function HalfAt(payload: seq<Byte>, feed: nat): Half {
    if feed + 1 < |payload| then
      var lo: int, hi: int := payload[feed], payload[feed + 1];
      lo + 0x100 * hi
    else 0
  }

  // Codes run most significant bit first inside little-endian halfwords.
  function PayloadBits(payload: seq<Byte>): (s: seq<Bit>)
    ensures |s| == 16 * (|payload| / 2)
  {
    seq<Bit>(16 * (|payload| / 2), i requires 0 <= i => BitsOf(HalfAt(payload, 2 * (i / 16)), 16)[i % 16])
  }

  // Reading past the end yields zeros, as the decoder's window does.
  function At(s: seq<Bit>, i: nat): Bit {
    if i < |s| then s[i] else 0
  }

  function Slice(s: seq<Bit>, pos: nat, n: nat): (r: seq<Bit>)
    ensures |r| == n
  {
    seq<Bit>(n, i requires 0 <= i => At(s, pos + i))
  }

  lemma {:induction false} BitsOfZero(n: nat)
    ensures BitsOf(0, n) == Zeros(n)
  {
    if n > 0 {
      BitsOfZero(n - 1);
    }
  }

  lemma PayloadHalf(payload: seq<Byte>, k: nat)
    requires |payload| % 2 == 0
    ensures Slice(PayloadBits(payload), 16 * k, 16) == BitsOf(HalfAt(payload, 2 * k), 16)
  {
    var s := PayloadBits(payload);
    BitsOfZero(16);
    forall i | 0 <= i < 16
      ensures At(s, 16 * k + i) == BitsOf(HalfAt(payload, 2 * k), 16)[i]
    {
      DivModUnique(k, i, 16);
    }
  }

  // --- one AC symbol ---------------------------------------------------------------

  // The position of the code that is exactly these bits, |book| when there is none.
  function Lookup(book: seq<Sym>, bits: seq<Bit>): (k: nat)
    ensures k <= |book|
  {
    if book == [] then 0
    else
      var k := Lookup(book[..|book| - 1], bits);
      if k < |book| - 1 || book[k].code == bits then k else |book|
  }

  lemma {:induction false} LookupFinds(book: seq<Sym>, bits: seq<Bit>)
    ensures var k := Lookup(book, bits);
            && (k < |book| ==> book[k].code == bits)
            && (k == |book| ==> forall j :: 0 <= j < |book| ==> book[j].code != bits)
  {
    if book != [] {
      var m := |book| - 1;
      LookupFinds(book[..m], bits);
      if Lookup(book, bits) == |book| {
        assert forall j :: 0 <= j < m ==> book[..m][j].code != bits;
      }
    }
  }

  // The bits a full window holds at pos: 17 to 32 of them, up to a halfword boundary.
  function Loaded(pos: nat): (n: nat)
    ensures LONGEST <= n <= 32 && (pos + n) % 16 == 0
  {
    LONGEST + (15 - (pos + 16) % 16)
  }

  // A prefix longer than the book is skipped through its marker as far as the window
  // shows one; an empty window is skipped whole.
  function SentinelLength(s: seq<Bit>, pos: nat): nat {
    var n := LeadingZeros(Slice(s, pos, Loaded(pos)));
    if n < Loaded(pos) then n + 1 else 32
  }

  // Take one bit at a time until the bits taken spell a code of the book. Twelve zeros
  // start no code: they end the block as an end marker would.
  function NextSymbol(book: seq<Sym>, s: seq<Bit>, pos: nat, taken: nat := 0): Symbol
    decreases LONGEST + 1 - taken, s
  {
    if taken > LONGEST then Symbol(NORMAL, 0, 0)
    else if taken == MAXNZ + 1 && AllZero(Slice(s, pos, taken)) then
      Symbol(EOB, 0xfe00, SentinelLength(s, pos))
    else
      var k := Lookup(book, Slice(s, pos, taken));
      if k < |book| then SymbolOf(book[k]) else NextSymbol(book, s, pos, taken + 1)
  }

  // Whatever follows it, a code of the book reads back as its own symbol.
  lemma {:induction false} NextSymbolIs(book: seq<Sym>, s: seq<Bit>, pos: nat, k: nat, taken: nat)
    requires PrefixFree(book) && k < |book| && WellFormedSym(book[k])
    requires taken <= |book[k].code| && book[k].code == Slice(s, pos, |book[k].code|)
    ensures NextSymbol(book, s, pos, taken) == SymbolOf(book[k])
    decreases |book[k].code| - taken
  {
    var code := book[k].code;
    assert Slice(s, pos, taken) == code[..taken];
    LookupFinds(book, code[..taken]);
    if taken == MAXNZ + 1 {
      LeadingZerosShape(code);
      assert code[..taken][LeadingZeros(code)] == 1;
    }
    var j := Lookup(book, code[..taken]);
    if j < |book| {
      UniqueHit(book, j, k, code);
    } else {
      NextSymbolIs(book, s, pos, k, taken + 1);
    }
  }

  lemma NoZeroCode(book: seq<Sym>, bits: seq<Bit>)
    requires AllZero(bits) && forall k :: 0 <= k < |book| ==> WellFormedSym(book[k])
    ensures Lookup(book, bits) == |book|
  {
    LookupFinds(book, bits);
    LeadingZerosAll(bits);
    assert forall k :: 0 <= k < |book| && WellFormedSym(book[k]) ==> book[k].code != bits;
  }

  // A zero prefix longer than the book reaches the sentinel.
  lemma {:induction false} NextSymbolGarbage(book: seq<Sym>, s: seq<Bit>, pos: nat, taken: nat)
    requires forall k :: 0 <= k < |book| ==> WellFormedSym(book[k])
    requires AllZero(Slice(s, pos, MAXNZ + 1)) && taken <= MAXNZ + 1
    ensures NextSymbol(book, s, pos, taken) == Symbol(EOB, 0xfe00, SentinelLength(s, pos))
    decreases MAXNZ + 1 - taken
  {
    if taken <= MAXNZ {
      assert Slice(s, pos, taken) == Slice(s, pos, MAXNZ + 1)[..taken];
      NoZeroCode(book, Slice(s, pos, taken));
      NextSymbolGarbage(book, s, pos, taken + 1);
    }
  }
}
