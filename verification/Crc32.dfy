/** CRC-32, reflected: the table against the bits, words against bytes, and the residue. */
module Crc32 {

  const POLY_IN: bv32 := 0x04c1_1db7

  // --- the reversed polynomial ------------------------------------------------------------------

  function Reverse(value: bv32): bv32 {
    var a := ((value >> 1) & 0x5555_5555) | ((value & 0x5555_5555) << 1);
    var b := ((a >> 2) & 0x3333_3333) | ((a & 0x3333_3333) << 2);
    var c := ((b >> 4) & 0x0f0f_0f0f) | ((b & 0x0f0f_0f0f) << 4);
    var d := ((c >> 8) & 0x00ff_00ff) | ((c & 0x00ff_00ff) << 8);
    (d >> 16) | (d << 16)
  }

  // Bit i of the result is bit 31 - i of the value.
  lemma ReverseMirrors(value: bv32, i: bv32)
    requires i < 32
    ensures (Reverse(value) >> i) & 1 == (value >> (31 - i)) & 1
  {
  }

  lemma PolyIs()
    ensures Reverse(POLY_IN) == 0xedb8_8320
  {
  }

  // --- the operators, by name ---------------------------------------------------------------------

  function Xor(a: bv32, b: bv32): bv32 { a ^ b }
  function Low(r: bv32): bv32 { r & 0xff }
  function High(r: bv32): bv32 { r & 0xffff_ff00 }
  function Down(r: bv32): bv32 { r >> 8 }
  function Wide(b: bv8): bv32 { b as bv32 }

  // --- one bit, one byte ----------------------------------------------------------------------------

  // What the bit that falls out puts back.
  function Flip(r: bv32): bv32 {
    if r & 1 == 1 then 0xedb8_8320 else 0
  }

  // One bit of the message through the reflected register.
  function Shift(r: bv32): bv32 {
    (r >> 1) ^ Flip(r)
  }

  function Shift2(r: bv32): bv32 { Shift(Shift(r)) }
  function Shift4(r: bv32): bv32 { Shift2(Shift2(r)) }
  function Shift8(r: bv32): bv32 { Shift4(Shift4(r)) }

  // What RFC 1952, section 8, computes bit by bit: a byte into the low end, then eight shifts.
  function Bitwise(crc: bv32, data: seq<bv8>): bv32
    decreases |data|
  {
    if data == [] then crc else Bitwise(Shift8(Xor(crc, Wide(data[0]))), data[1..])
  }

  lemma {:induction false} BitwiseAppends(crc: bv32, a: seq<bv8>, b: seq<bv8>)
    ensures Bitwise(crc, a + b) == Bitwise(Bitwise(crc, a), b)
    decreases |a|
  {
    hide Shift8;
    hide Xor;
    if a == [] {
      assert a + b == b;
    } else {
      assert (a + b)[1..] == a[1..] + b;
      BitwiseAppends(Shift8(Xor(crc, Wide(a[0]))), a[1..], b);
    }
  }

  lemma FlipXor(a: bv32, b: bv32)
    ensures Flip(a ^ b) == Flip(a) ^ Flip(b)
  {
    assert (a ^ b) & 1 == 1 <==> (a & 1 == 1) != (b & 1 == 1);
  }

  // The register is linear: shifting a sum is summing the shifts.
  lemma ShiftXor(a: bv32, b: bv32)
    ensures Shift(Xor(a, b)) == Xor(Shift(a), Shift(b))
  {
    hide Flip;
    FlipXor(a, b);
    assert (a ^ b) >> 1 == (a >> 1) ^ (b >> 1);
  }

  lemma Shift2Xor(a: bv32, b: bv32)
    ensures Shift2(Xor(a, b)) == Xor(Shift2(a), Shift2(b))
  {
    hide Shift;
    hide Xor;
    ShiftXor(a, b);
    ShiftXor(Shift(a), Shift(b));
  }

  lemma Shift4Xor(a: bv32, b: bv32)
    ensures Shift4(Xor(a, b)) == Xor(Shift4(a), Shift4(b))
  {
    hide Shift2;
    hide Xor;
    Shift2Xor(a, b);
    Shift2Xor(Shift2(a), Shift2(b));
  }

  lemma Shift8Xor(a: bv32, b: bv32)
    ensures Shift8(Xor(a, b)) == Xor(Shift8(a), Shift8(b))
  {
    hide Shift4;
    hide Xor;
    Shift4Xor(a, b);
    Shift4Xor(Shift4(a), Shift4(b));
  }

  // Eight shifts of a register whose low byte is empty only move it.
  lemma Shift8High(r: bv32)
    ensures Shift8(High(r)) == Down(r)
  {
  }

  lemma LowAndHigh(r: bv32)
    ensures Xor(Low(r), High(r)) == r
  {
  }

  // The table's recurrence is the bits': eight shifts are one look-up of the low byte.
  lemma ByteStep(x: bv32)
    ensures Shift8(x) == Xor(Shift8(Low(x)), Down(x))
  {
    hide Shift8;
    hide Xor;
    hide Low;
    hide High;
    hide Down;
    LowAndHigh(x);
    Shift8Xor(Low(x), High(x));
    Shift8High(x);
  }

  // --- the table ---------------------------------------------------------------------------------------

  ghost predicate TableRight(table: seq<bv32>) {
    |table| == 256 && forall d {:trigger table[d]} :: 0 <= d < 256 ==> table[d] == Shift8(d as bv32)
  }

  function ShiftN(r: bv32, n: nat): bv32
    decreases n, r
  {
    if n == 0 then r else Shift(ShiftN(r, n - 1))
  }

  lemma {:induction false} ShiftNAdds(r: bv32, m: nat, n: nat)
    ensures ShiftN(r, m + n) == ShiftN(ShiftN(r, m), n)
    decreases n, r
  {
    hide Shift;
    if n > 0 { ShiftNAdds(r, m, n - 1); }
  }

  lemma EightShifts(d: bv32, n: nat)
    requires n == 8
    ensures ShiftN(d, n) == Shift8(d)
  {
    hide Shift;
    ShiftNAdds(d, 4, 4);
    FourShifts(d, 4);
    FourShifts(ShiftN(d, 4), 4);
  }

  lemma FourShifts(d: bv32, n: nat)
    requires n == 4
    ensures ShiftN(d, n) == Shift4(d)
  {
    hide Shift;
    assert ShiftN(d, 3) == Shift(ShiftN(d, 2));
    assert ShiftN(d, 2) == Shift(ShiftN(d, 1));
    assert ShiftN(d, 1) == Shift(ShiftN(d, 0));
  }

  // One entry, bit by bit.
  method Entry(d: bv32, poly: bv32) returns (r: bv32)
    requires poly == 0xedb8_8320
    ensures r == Shift8(d)
  {
    r := d;
    var i := 0;
    while i < 8
      invariant 0 <= i <= 8 && r == ShiftN(d, i)
    {
      var flip := if r & 1 == 1 then poly else 0;
      r := r >> 1;
      r := r ^ flip;
      i := i + 1;
    }
    EightShifts(d, i);
  }

  // The table of the reversed polynomial, the one the program builds.
  method MakeCrcTable(table: array<bv32>)
    requires table.Length == 256
    modifies table
    ensures TableRight(table[..])
  {
    hide Shift8;
    hide Reverse;
    var poly := Reverse(POLY_IN);
    PolyIs();
    for d := 0 to 256
      invariant forall e {:trigger table[e]} :: 0 <= e < d ==> table[e] == Shift8(e as bv32)
    {
      table[d] := Entry(d as bv32, poly);
    }
  }

  // --- a message ---------------------------------------------------------------------------------------

  lemma LowIndex(r: bv32)
    ensures Low(r) as nat < 256 && (Low(r) as nat) as bv32 == Low(r)
  {
  }

  // The table's answer for one byte is the bits' answer.
  method Look(table: array<bv32>, crc: bv32, w: bv32) returns (r: bv32)
    requires TableRight(table[..])
    ensures r == Shift8(Xor(crc, Low(w)))
  {
    hide Shift8;
    hide Xor;
    hide Low;
    hide Down;
    var x := Low(Xor(crc, w));
    LowIndex(Xor(crc, w));
    r := Xor(table[x as nat], Down(crc));
    assert table[x as nat] == table[..][x as nat] == Shift8(x);
    LowByte(crc, w);
    ByteStep(Xor(crc, Low(w)));
  }

  lemma LowByte(crc: bv32, w: bv32)
    ensures Low(Xor(crc, Low(w))) == Low(Xor(crc, w)) && Down(Xor(crc, Low(w))) == Down(crc)
  {
  }

  // A byte at a time is bit by bit, for every message and every start.
  method ProcessUnaligned(table: array<bv32>, data: seq<bv8>, crc_: bv32) returns (crc: bv32)
    requires TableRight(table[..])
    ensures crc == Bitwise(crc_, data)
  {
    hide Shift8;
    hide Xor;
    hide Low;
    hide Wide;
    crc := crc_;
    var i := 0;
    while i < |data|
      invariant 0 <= i <= |data| && Bitwise(crc, data[i..]) == Bitwise(crc_, data)
    {
      ByteIsLow(data[i]);
      assert data[i..][1..] == data[i + 1..];
      crc := Look(table, crc, Wide(data[i]));
      i := i + 1;
    }
  }

  lemma ByteIsLow(b: bv8)
    ensures Low(Wide(b)) == Wide(b)
  {
  }

  // The bytes of a word, low end first.
  function WordBytes(w: bv32): seq<bv8> {
    [ByteOf(w), ByteOf(Down(w)), ByteOf(Down(Down(w))), ByteOf(Down(Down(Down(w))))]
  }

  function ByteOf(w: bv32): bv8 {
    Low(w) as bv8
  }

  lemma ByteOfLow(w: bv32)
    ensures Wide(ByteOf(w)) == Low(w)
  {
  }

  function AllBytes(words: seq<bv32>): seq<bv8> {
    if words == [] then [] else WordBytes(words[0]) + AllBytes(words[1..])
  }

  // The four bytes from `at` on are the word's, each the word moved down by eight bits more.
  ghost predicate Spells(b: seq<bv8>, at: nat, w: bv32) {
    && at + 4 <= |b|
    && Wide(b[at]) == w & 0xff && Wide(b[at + 1]) == (w >> 8) & 0xff
    && Wide(b[at + 2]) == (w >> 16) & 0xff && Wide(b[at + 3]) == (w >> 24) & 0xff
  }

  lemma WordBytesSpell(w: bv32)
    ensures |WordBytes(w)| == 4 && Spells(WordBytes(w), 0, w)
  {
    ByteOfLow(w);
    ByteOfLow(Down(w));
    ByteOfLow(Down(Down(w)));
    ByteOfLow(Down(Down(Down(w))));
  }

  lemma SpellsBehind(a: seq<bv8>, b: seq<bv8>, at: nat, w: bv32)
    ensures Spells(a, at, w) ==> Spells(a + b, at, w)
    ensures Spells(b, at, w) ==> Spells(a + b, |a| + at, w)
  {
    hide Wide;
  }

  // The bytes of a message of words are four a word, those of each word in its place.
  lemma {:induction false} AllBytesAre(words: seq<bv32>, i: nat)
    ensures |AllBytes(words)| == 4 * |words|
    ensures i < |words| ==> Spells(AllBytes(words), 4 * i, words[i])
    decreases |words|
  {
    hide WordBytes;
    hide Spells;
    if words != [] {
      var first, rest := WordBytes(words[0]), AllBytes(words[1..]);
      WordBytesSpell(words[0]);
      AllBytesAre(words[1..], if i > 0 then i - 1 else 0);
      SpellsBehind(first, rest, 0, words[0]);
      if 0 < i < |words| { SpellsBehind(first, rest, 4 * (i - 1), words[i]); }
    }
  }

  // Three entries of the table that the standard prints, and the first word of a message.
  lemma KnownEntries()
    ensures Shift8(1) == 0x7707_3096 && Shift8(2) == 0xee0e_612c && Shift8(0xff) == 0x2d02_ef8d
    ensures AllBytes([0x3433_3231]) == [0x31, 0x32, 0x33, 0x34]
  {
    assert [0x3433_3231][1..] == [];
  }

  // Four look-ups a word are the bytes of the word, low end first.
  method ProcessAligned(table: array<bv32>, data: seq<bv32>, crc_: bv32) returns (crc: bv32)
    requires TableRight(table[..])
    ensures crc == Bitwise(crc_, AllBytes(data))
  {
    hide Shift8;
    hide Xor;
    hide Low;
    hide Down;
    hide ByteOf;
    hide WordBytes;
    crc := crc_;
    var i := 0;
    while i < |data|
      invariant 0 <= i <= |data| && Bitwise(crc, AllBytes(data[i..])) == Bitwise(crc_, AllBytes(data))
    {
      var w := data[i];
      assert data[i..][1..] == data[i + 1..];
      BitwiseAppends(crc, WordBytes(w), AllBytes(data[i + 1..]));
      FourBytes(crc, w);
      crc := Look(table, crc, w);
      w := Down(w);
      crc := Look(table, crc, w);
      w := Down(w);
      crc := Look(table, crc, w);
      w := Down(w);
      crc := Look(table, crc, w);
      i := i + 1;
    }
  }

  lemma FourSteps(crc: bv32, b: seq<bv8>)
    requires |b| == 4
    ensures Bitwise(crc, b) ==
      Shift8(Xor(Shift8(Xor(Shift8(Xor(Shift8(Xor(crc, Wide(b[0]))), Wide(b[1]))), Wide(b[2]))), Wide(b[3])))
  {
    hide Shift8;
    hide Xor;
    hide Wide;
    assert b[1..][1..] == b[2..] && b[2..][1..] == b[3..] && b[3..][1..] == [];
    var c1 := Shift8(Xor(crc, Wide(b[0])));
    assert Bitwise(crc, b) == Bitwise(c1, b[1..]);
    var c2 := Shift8(Xor(c1, Wide(b[1])));
    assert Bitwise(c1, b[1..]) == Bitwise(c2, b[2..]);
    var c3 := Shift8(Xor(c2, Wide(b[2])));
    assert Bitwise(c2, b[2..]) == Bitwise(c3, b[3..]);
    var c4 := Shift8(Xor(c3, Wide(b[3])));
    assert Bitwise(c3, b[3..]) == Bitwise(c4, []);
  }

  lemma FourBytes(crc: bv32, w: bv32)
    ensures Bitwise(crc, WordBytes(w)) == Shift8(Xor(Shift8(Xor(Shift8(Xor(Shift8(Xor(crc, Low(w))),
              Low(Down(w)))), Low(Down(Down(w))))), Low(Down(Down(Down(w))))))
  {
    hide Shift8;
    hide Xor;
    hide Wide;
    hide Low;
    hide Down;
    hide ByteOf;
    hide Bitwise;
    FourSteps(crc, WordBytes(w));
    ByteOfLow(w);
    ByteOfLow(Down(w));
    ByteOfLow(Down(Down(w)));
    ByteOfLow(Down(Down(Down(w))));
  }

  // --- the residue --------------------------------------------------------------------------------------

  lemma XorAssociates(a: bv32, b: bv32, c: bv32)
    ensures Xor(a, Xor(b, c)) == Xor(Xor(a, b), c)
  {
  }

  // A whole word put in at once: what lies above the low byte only moves down.
  lemma Absorb(c: bv32, w: bv32)
    ensures Shift8(Xor(c, w)) == Xor(Shift8(Xor(c, Low(w))), Down(w))
  {
    hide Shift8;
    hide Xor;
    hide Low;
    hide High;
    hide Down;
    LowAndHigh(w);
    XorAssociates(c, Low(w), High(w));
    Shift8Xor(Xor(c, Low(w)), High(w));
    Shift8High(w);
  }

  lemma NothingLeft(w: bv32, r: bv32)
    ensures Xor(r, Down(Down(Down(Down(w))))) == r
  {
  }

  // So a word's four bytes are the word at once and 32 shifts.
  lemma WordAtOnce(crc: bv32, w: bv32)
    ensures Bitwise(crc, WordBytes(w)) == Shift8(Shift8(Shift8(Shift8(Xor(crc, w)))))
  {
    hide Shift8;
    hide Xor;
    hide Low;
    hide Down;
    hide Bitwise;
    hide WordBytes;
    FourBytes(crc, w);
    var w1, w2, w3 := Down(w), Down(Down(w)), Down(Down(Down(w)));
    var c1 := Shift8(Xor(crc, Low(w)));
    var c2 := Shift8(Xor(c1, Low(w1)));
    var c3 := Shift8(Xor(c2, Low(w2)));
    Absorb(crc, w);
    Absorb(c1, w1);
    Absorb(c2, w2);
    Absorb(c3, w3);
    NothingLeft(w, Shift8(Xor(c3, Low(w3))));
  }

  // The finished CRC of a message as RFC 1952 stores it: started and ended with all bits flipped.
  function Finished(data: seq<bv8>): bv32 {
    Not(Bitwise(0xffff_ffff, data))
  }

  function Not(r: bv32): bv32 { r ^ 0xffff_ffff }

  lemma XorNot(r: bv32)
    ensures Xor(r, Not(r)) == 0xffff_ffff
  {
  }

  lemma OnesShifted(r: bv32)
    requires r == 0xffff_ffff
    ensures Shift8(Shift8(Shift8(Shift8(r)))) == 0xdebb_20e3
  {
  }

  // Whatever the message, appending its finished CRC leaves one and the same register.
  lemma Residue(data: seq<bv8>)
    ensures Bitwise(0xffff_ffff, data + WordBytes(Finished(data))) == 0xdebb_20e3
  {
    hide Shift8;
    hide Xor;
    hide Not;
    hide Bitwise;
    hide WordBytes;
    var c := Bitwise(0xffff_ffff, data);
    BitwiseAppends(0xffff_ffff, data, WordBytes(Finished(data)));
    WordAtOnce(c, Not(c));
    XorNot(c);
    OnesShifted(Xor(c, Not(c)));
  }
}
