/** How much room a block at the very end of its output buffer needs. */
module Lz4End {
  import opened Bits
  import opened Lz4Format
  import opened Lz4Block
  import opened Lz4InPlace

  // The buffer that every block of n bytes of output can be decoded from the end of. The first
  // match ends at least five bytes into the output; what may follow is one run of literals.
  function Room(n: nat): nat {
    if n < 5 then n else n + 1 + Extra(n - 5)
  }

  // A block of this output at the end of this buffer.
  ghost predicate Placed(mem: seq<Byte>, p: nat, out: seq<Byte>) {
    p < |mem| && Decode([], mem[p..]) == Some(out) && |out| <= |mem|
  }

  ghost predicate AllDecode(n: nat, room: nat) {
    forall mem: seq<Byte>, p, out {:trigger Placed(mem, p, out)} ::
      Placed(mem, p, out) && |mem| == room && |out| == n ==>
        LiteralTurn(mem, p, room, 0) == Ran(Patched(mem, 0, out), n)
  }

  // Which buffers are long enough for every block of a given output length.
  lemma RoomIsExact(n: nat, room: nat)
    requires n <= room < TWO32
    ensures AllDecode(n, room) <==> room >= Room(n)
  {
    hide Decode;
    hide LiteralTurn;
    hide Patched;
    if room >= Room(n) {
      forall mem: seq<Byte>, p: nat, out {:trigger Placed(mem, p, out)} |
        Placed(mem, p, out) && |mem| == room && |out| == n
        ensures LiteralTurn(mem, p, room, 0) == Ran(Patched(mem, 0, out), n)
      {
        DecodesFromEnd(mem, p, out);
      }
    } else {
      var mem, p, out := FailsBelow(n, room);
      assert Placed(mem, p, out);
    }
  }

  // --- enough ----------------------------------------------------------------------------------

  lemma DecodesFromEnd(mem: seq<Byte>, p: nat, out: seq<Byte>)
    requires Placed(mem, p, out) && Room(|out|) <= |mem| < TWO32
    ensures LiteralTurn(mem, p, |mem|, 0) == Ran(Patched(mem, 0, out), |out|)
  {
    hide LiteralTurn;
    hide Clear;
    assert mem[p..|mem|] == mem[p..];
    assert mem[0..0] == [];
    EndClears(mem[p..], Parse(mem[p..]).value, out, p);
    InPlace(mem, p, |mem|, 0, 0, out);
  }

  lemma EndClears(src: seq<Byte>, b: Block, out: seq<Byte>, gap: int)
    requires Parse(src) == Some(b) && Apply([], b) == Some(out) && gap >= Room(|out|) - |src|
    ensures Clear(src, gap)
  {
    var h := ReadHead(src);
    HeadSize(src);
    if h.Match? && h.used < |src| {
      hide ReadHead;
      ParsePair(src, h, b);
      assert [] + b.lits == b.lits;
      var x := |h.lits| + h.length;
      BlockSize(src[h.used..], b.rest);
      ExtraAdds(OutLen(b.rest), x - 5);
      MarginClears(src[h.used..], b.rest, gap + h.used - x);
    }
  }

  // --- not enough ------------------------------------------------------------------------------

  function Fill(n: nat, z: Byte): (s: seq<Byte>)
    ensures |s| == n && forall i :: 0 <= i < n ==> s[i] == z
  {
    seq<Byte>(n, _ => z)
  }

  // One z, k + 4 copies of it, and a last or only block after them.
  function Opening(k: nat, z: Byte): (s: seq<Byte>)
    requires k < 15
    ensures |s| == 4
  {
    [0x10 + k, z, 1, 0]
  }

  lemma {:induction false} CopyOfFill(out: seq<Byte>, n: nat, z: Byte)
    requires out != [] && out == Fill(|out|, z)
    ensures Copy(out, 1, n) == Fill(|out| + n, z)
    decreases n
  {
    if n > 0 {
      var next := out + [out[|out| - 1]];
      assert next == Fill(|out| + 1, z);
      CopyOfFill(next, n - 1, z);
    }
  }

  lemma DecodedApart(k: nat, z: Byte, rest: Block)
    requires k < 15 && Legal(rest) && rest != Stop && Encode(rest) != []
    ensures Decode([], Opening(k, z) + Encode(rest)) == Apply(Fill(k + 5, z), rest)
  {
    hide Copy;
    hide Parse;
    hide Apply;
    var src, h := Opening(k, z) + Encode(rest), Match([z], 1, k + 4, 4);
    CopyOfFill([z], k + 4, z);
    assert [] + h.lits == [z] == Fill(1, z);
    assert ReadHead(src) == h by {
      assert src[1..][0..1] == [z];
    }
    DecodeMatch([], src, h, Fill(k + 5, z));
    assert src[4..] == Encode(rest);
    ParseEncode(rest);
  }

  // Such a block lying k bytes into its own output: its match reaches the next token.
  lemma TokenOverwritten(mem: seq<Byte>, k: nat, z: Byte) returns (m: seq<Byte>)
    requires k < 15 && k + 5 <= |mem| < TWO32 && mem[k..k + 4] == Opening(k, z)
    ensures |m| == |mem| && m[k + 4] == z && m[k + 5..] == mem[k + 5..]
    ensures LiteralTurn(mem, k, |mem|, 0) == LiteralTurn(m, k + 4, |mem|, k + 5)
  {
    hide MatchTurn;
    hide LiteralTurn;
    hide Copy;
    var o := mem[k..k + 4];
    assert mem[k] == o[0] && mem[k + 1] == o[1] && mem[k + 2] == o[2] && mem[k + 3] == o[3];
    FirstLiteral(mem, k, z);
    m := MatchOverwrites(mem[0 := z], k, z);
  }

  lemma FirstLiteral(mem: seq<Byte>, k: nat, z: Byte)
    requires k < 15 && k + 5 <= |mem| < TWO32 && mem[k] == 0x10 + k && mem[k + 1] == z
    ensures LiteralTurn(mem, k, |mem|, 0) == MatchTurn(mem[0 := z], k + 2, |mem|, 1, k)
  {
    hide MatchTurn;
    assert Length(1, mem[k + 1..]) == Ext(1, 0);
    assert CopyBytes(mem, k + 1, 0, 1) == mem[0 := z];
  }

  lemma MatchOverwrites(mem: seq<Byte>, k: nat, z: Byte) returns (m: seq<Byte>)
    requires k < 15 && k + 5 <= |mem| < TWO32 && mem[0] == z && mem[k + 2] == 1 && mem[k + 3] == 0
    ensures |m| == |mem| && m[k + 4] == z && m[k + 5..] == mem[k + 5..]
    ensures MatchTurn(mem, k + 2, |mem|, 1, k) == LiteralTurn(m, k + 4, |mem|, k + 5)
  {
    hide Copy;
    hide CopyBytes;
    hide LiteralTurn;
    assert [z] == Fill(1, z);
    CopyOfFill([z], k + 4, z);
    CopyBack(mem, 0, 1, 1, k + 4);
    assert mem[0..1] == [z];
    assert Length(k, mem[k + 4..]) == Ext(k, 0);
    m := Patched(mem, 0, Fill(k + 5, z));
  }

  // A 0 for the token reads as a match from far behind the output.
  lemma FarOffset(m: seq<Byte>, k: nat)
    requires k + 7 <= |m| < TWO32 && m[k + 4] == 0 && m[k + 5] as nat + 0x100 * m[k + 6] as nat > k + 5
    ensures LiteralTurn(m, k + 4, |m|, k + 5) == Fault
  {
    assert Length(0, m[k + 5..]) == Ext(0, 0);
    assert CopyBytes(m, k + 5, k + 5, 0) == m;
  }

  // Any block whose first bytes read so, at the end of a buffer that it fills from k on.
  lemma EndPlacementFails(k: nat, rest: Block, mem: seq<Byte>)
    requires k < 15 && Legal(rest) && rest != Stop && |Encode(rest)| >= 3
    requires |mem| == k + 4 + |Encode(rest)| < TWO32 && mem[k..] == Opening(k, 0) + Encode(rest)
    requires Encode(rest)[1] as nat + 0x100 * Encode(rest)[2] as nat > k + 5
    ensures Decode([], mem[k..]) == Apply(Fill(k + 5, 0), rest)
    ensures LiteralTurn(mem, k, |mem|, 0) == Fault
  {
    hide LiteralTurn;
    hide Decode;
    hide Encode;
    DecodedApart(k, 0, rest);
    var src := mem[k..];
    assert mem[k..k + 4] == src[..4] == Opening(k, 0);
    assert mem[k + 5] == src[5] && mem[k + 6] == src[6];
    var m := TokenOverwritten(mem, k, 0);
    assert m[k + 5] == m[k + 5..][0] && m[k + 6] == m[k + 5..][1];
    assert mem[k + 5] == mem[k + 5..][0] && mem[k + 6] == mem[k + 5..][1];
    FarOffset(m, k);
  }

  // No margin at all, and a block that closes as the format asks, with five literals behind a
  // match that starts twelve bytes before the end: thirteen bytes out, ten in.
  lemma NoMarginFails(mem: seq<Byte>)
    requires |mem| == 13 && mem[3..] == [0x13, 0, 1, 0, 0x50, 1, 2, 3, 4, 5]
    ensures Decode([], mem[3..]) == Some([0, 0, 0, 0, 0, 0, 0, 0, 1, 2, 3, 4, 5])
    ensures LiteralTurn(mem, 3, 13, 0) == Fault
  {
    hide LiteralTurn;
    hide Decode;
    var rest := Final([1, 2, 3, 4, 5]);
    assert Encode(rest) == [0x50, 1, 2, 3, 4, 5];
    EndPlacementFails(3, rest, mem);
    assert Fill(8, 0) + [1, 2, 3, 4, 5] == [0, 0, 0, 0, 0, 0, 0, 0, 1, 2, 3, 4, 5];
  }

  // --- in every buffer that is too short -----------------------------------------------------------

  // A block of n bytes of output that does not decode from the end of this buffer.
  lemma FailsBelow(n: nat, room: nat) returns (mem: seq<Byte>, p: nat, out: seq<Byte>)
    requires n <= room < Room(n) && room < TWO32
    ensures Placed(mem, p, out) && |mem| == room && |out| == n
    ensures LiteralTurn(mem, p, room, 0) == Fault
  {
    hide Decode;
    hide LiteralTurn;
    if n < 7 {
      mem, out := FailsShort(n - 5);
      p := 0;
    } else if room - n == Extra(n - 5) {
      mem, out := FailsFinal(n - 5, 0);
      p := 0;
    } else if room - n >= Extra(n - 9) {
      mem, out := FailsFinal(n - 9, 4);
      p := 4;
    } else {
      mem, out := FailsPair(n - 5, room - n + 1);
      p := 0;
    }
  }

  // The shortest two: a token of 255 reads a length that does not end.
  lemma FailsShort(n: nat) returns (mem: seq<Byte>, out: seq<Byte>)
    requires n < 2
    ensures Placed(mem, 0, out) && |mem| == n + 5 && |out| == n + 5
    ensures LiteralTurn(mem, 0, |mem|, 0) == Fault
  {
    hide Decode;
    var rest := Final(Fill(n, 255));
    mem, out := Opening(0, 255) + Encode(rest), Fill(5, 255) + Fill(n, 255);
    assert mem[0..] == mem;
    DecodedApart(0, 255, rest);
    hide Encode;
    var m := TokenOverwritten(mem, 0, 255);
    assert Extension(15, m[5..]).Cut?;
  }

  // The opening and one run of literals.
  lemma FailsFinal(n: nat, k: nat) returns (mem: seq<Byte>, out: seq<Byte>)
    requires n >= 2 && k <= 4 && k + 5 + Extra(n) + n < TWO32
    ensures Placed(mem, k, out) && |mem| == k + 5 + Extra(n) + n && |out| == k + 5 + n
    ensures LiteralTurn(mem, k, |mem|, 0) == Fault
  {
    hide Decode;
    hide LiteralTurn;
    var rest := Final(Fill(n, 255));
    LenBytesSize(n);
    mem, out := Fill(k, 0) + (Opening(k, 0) + Encode(rest)), Fill(k + 5, 0) + Fill(n, 255);
    assert mem[k..] == Opening(k, 0) + Encode(rest);
    EndPlacementFails(k, rest, mem);
  }

  // The opening, a run of literals that grows, a match that shrinks and at most one literal more:
  // this many bytes longer than what they decode to.
  function Growth(n: nat, d: nat, last: nat): int
    requires d + 4 + last <= n
  {
    Extra(n - 4 - d - last) + Extra(d) - d
  }

  // From one split to the next it never falls by more than one, so it comes by every value.
  lemma {:induction false} Split(n: nat, grow: nat, d: nat) returns (d': nat, last: nat)
    requires grow > 0 && d + 4 <= n && Growth(n, d, 0) >= grow
    ensures last <= 1 && d' + 4 + last <= n && Growth(n, d', last) == grow
    decreases n - d
  {
    d', last := d, 0;
    if Growth(n, d, 0) > grow {
      ExtraAdds(d, 0);
      if Growth(n, d, 1) == grow {
        last := 1;
      } else {
        d', last := Split(n, grow, d + 1);
      }
    }
  }

  lemma FailsPair(n: nat, grow: nat) returns (mem: seq<Byte>, out: seq<Byte>)
    requires n >= 4 && 0 < grow <= Extra(n - 4) && n + 4 + grow < TWO32
    ensures Placed(mem, 0, out) && |mem| == n + 4 + grow && |out| == n + 5
    ensures LiteralTurn(mem, 0, |mem|, 0) == Fault
  {
    hide Decode;
    hide LiteralTurn;
    hide Copy;
    var d, last := Split(n, grow, 0);
    var a := n - 4 - d - last;
    ExtraAdds(d, 0);
    var rest := Pair(Fill(a, 255), 1, 4 + d, Final(Fill(last, 255)));
    var o := Fill(5, 0) + Fill(a, 255);
    mem, out := Opening(0, 0) + Encode(rest), Copy(o, 1, 4 + d) + Fill(last, 255);
    assert mem[0..] == mem;
    PairBytes(a, d, last, rest);
    EndPlacementFails(0, rest, mem);
  }

  lemma PairBytes(a: nat, d: nat, last: nat, rest: Block)
    requires a >= 15 && last <= 1
    requires rest == Pair(Fill(a, 255), 1, 4 + d, Final(Fill(last, 255)))
    ensures |Encode(rest)| == a + 4 + last + Extra(a) + Extra(d)
    ensures |Encode(rest)| > 2 && (Encode(rest)[1] == 255 || Encode(rest)[2] == 255)
  {
    LenBytesSize(a);
    LenBytesSize(d);
    var bytes := LenBytes(a) + Fill(a, 255);
    assert bytes[0] == 255 || bytes[1] == 255 by {
      if a >= 270 { assert bytes[0] == ExtBytes(a - 15)[0]; } else { assert bytes[1] == Fill(a, 255)[0]; }
    }
    assert Encode(rest)[1] == bytes[0] && Encode(rest)[2] == bytes[1];
  }
}
