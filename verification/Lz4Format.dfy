/**
 * The LZ4 block format: sequences of literals and back references. `Parse` reads the
 * bytes, `Apply` says what they mean, `Encode` writes them.
 */
module Lz4Format {
  import opened Bits

  datatype Option<+T> = None | Some(value: T)

  // --- back references -----------------------------------------------------------------

  // n bytes appended one at a time, each read `offset` bytes back, so a copy may overlap itself.
  function Copy(out: seq<Byte>, offset: nat, n: nat): (r: seq<Byte>)
    requires 0 < offset <= |out|
    ensures |r| == |out| + n && out <= r
    decreases n, offset
  {
    if n == 0 then out else Copy(out + [out[|out| - offset]], offset, n - 1)
  }

  // Overlapping copies compose, which is what lets a match be copied in pieces.
  lemma {:induction false} CopyAdds(out: seq<Byte>, offset: nat, a: nat, b: nat)
    requires 0 < offset <= |out|
    ensures Copy(out, offset, a + b) == Copy(Copy(out, offset, a), offset, b)
    decreases a
  {
    if a == 0 {
    } else {
      CopyAdds(out + [out[|out| - offset]], offset, a - 1, b);
    }
  }

  // What a copy appends: the last `offset` bytes, over and over.
  lemma {:induction false} CopyRepeats(out: seq<Byte>, offset: nat, n: nat, i: nat)
    requires 0 < offset <= |out| && i < n
    ensures Copy(out, offset, n)[|out| + i] == out[|out| - offset + i % offset]
    decreases n
  {
    var next := out + [out[|out| - offset]];
    if i == 0 {
      assert Copy(out, offset, n)[..|next|] == next;
    } else {
      CopyRepeats(next, offset, n - 1, i - 1);
      NextMod(i - 1, offset);
    }
  }

  lemma NextMod(i: nat, d: nat)
    requires d > 0
    ensures (i + 1) % d == if i % d == d - 1 then 0 else i % d + 1
  {
    var q, r := i / d, i % d;
    assert i == q * d + r;
    if r == d - 1 {
      assert (q + 1) * d == q * d + d;
      DivModUnique(q + 1, 0, d);
    } else {
      DivModUnique(q, r + 1, d);
    }
  }

  // --- reading -------------------------------------------------------------------------

  // A length read so far and the bytes its extension took, or an extension cut short.
  datatype Ext = Ext(len: nat, used: nat) | Cut

  // Bytes are added until one that is not 255 has been.
  function Extension(len: nat, src: seq<Byte>): (e: Ext)
    ensures e.Ext? ==> 0 < e.used <= |src| && len <= e.len <= len + 255 * e.used
    decreases |src|
  {
    if src == [] then Cut
    else if src[0] != 255 then Ext(len + src[0], 1)
    else match Extension(len + 255, src[1..])
      case Ext(n, used) => Ext(n, used + 1)
      case Cut => Cut
  }

  function Length(nibble: nat, src: seq<Byte>): (e: Ext)
    ensures e.Ext? ==> e.used <= |src| && nibble <= e.len <= nibble + 255 * e.used
  {
    if nibble == 15 then Extension(15, src) else Ext(nibble, 0)
  }

  // Bytes of 255 and one that is less, and what they add up to.
  lemma {:induction false} ExtensionMeans(len: nat, src: seq<Byte>)
    ensures match Extension(len, src)
      case Cut => forall i :: 0 <= i < |src| ==> src[i] == 255
      case Ext(total, used) =>
        && 0 < used <= |src| && src[used - 1] != 255 && (forall i :: 0 <= i < used - 1 ==> src[i] == 255)
        && total == len + 255 * (used - 1) + src[used - 1] as nat
    decreases |src|
  {
    if src != [] && src[0] == 255 {
      ExtensionMeans(len + 255, src[1..]);
      assert forall i :: 0 < i < |src| ==> src[i] == src[1..][i - 1];
    }
  }

  // One sequence: literals to the end of the block, or literals and a match.
  datatype Head = Broken | Tail(lits: seq<Byte>)
                | Match(lits: seq<Byte>, offset: nat, length: nat, used: nat)

  function ReadMatch(lits: seq<Byte>, nibble: nat, src: seq<Byte>, at: nat): (h: Head)
    ensures h.Match? ==> at + 2 <= h.used <= at + |src| && h.length >= 4 && h.offset < 0x1_0000
  {
    if |src| < 2 then Broken
    else match Length(nibble, src[2..])
      case Cut => Broken
      case Ext(n, used) =>
        var offset: nat := src[0] as int + 256 * src[1] as int;
        Match(lits, offset, n + 4, at + 2 + used)
  }

  function ReadHead(src: seq<Byte>): (h: Head)
    ensures h.Match? ==> 3 <= h.used <= |src| && h.length >= 4 && h.offset < 0x1_0000
  {
    if src == [] then Broken
    else match Length(src[0] / 16, src[1..])
      case Cut => Broken
      case Ext(n, used) =>
        var at := 1 + used;
        if at + n > |src| then Broken
        else if at + n == |src| then Tail(src[at..])
        else ReadMatch(src[at..at + n], src[0] % 16, src[at + n..], at + n)
  }

  // ReadHead told from the literal length alone.
  lemma HeadIs(src: seq<Byte>, e: Ext)
    requires src != [] && e == Length(src[0] / 16, src[1..])
    ensures e.Cut? || 1 + e.used + e.len > |src| ==> ReadHead(src).Broken?
    ensures e.Ext? && 1 + e.used + e.len <= |src| ==>
      var at := 1 + e.used + e.len;
      ReadHead(src) == if at == |src| then Tail(src[1 + e.used..at])
                       else ReadMatch(src[1 + e.used..at], src[0] % 16, src[at..], at)
    ensures var h := ReadHead(src);
      !h.Broken? ==>
        && e.Ext? && 1 + e.used + e.len <= |src| && h.lits == src[1 + e.used..1 + e.used + e.len]
        && (h.Tail? <==> 1 + e.used + e.len == |src|)
  {
  }

  // A block as its sequences; Stop is a block that ends on a match.
  datatype Block = Stop | Final(lits: seq<Byte>)
                 | Pair(lits: seq<Byte>, offset: nat, length: nat, rest: Block)

  function Parse(src: seq<Byte>): (b: Option<Block>)
    decreases |src|
  {
    match ReadHead(src)
    case Broken => None
    case Tail(lits) => Some(Final(lits))
    case Match(lits, offset, length, used) =>
      if used == |src| then Some(Pair(lits, offset, length, Stop))
      else match Parse(src[used..])
        case None => None
        case Some(rest) => Some(Pair(lits, offset, length, rest))
  }

  // A block that starts with a match is that match and the block after it.
  lemma ParsePair(src: seq<Byte>, h: Head, b: Block)
    requires h == ReadHead(src) && b.Pair?
    requires h.Match? ==> h.used <= |src|
    ensures Parse(src) == Some(b) <==>
      && h.Match? && h == Match(b.lits, b.offset, b.length, h.used)
      && if h.used == |src| then b.rest == Stop else Parse(src[h.used..]) == Some(b.rest)
  {
  }

  // --- meaning -------------------------------------------------------------------------

  function Apply(out: seq<Byte>, b: Block): (r: Option<seq<Byte>>)
    ensures r.Some? ==> out <= r.value && |r.value| == |out| + OutLen(b)
    decreases b
  {
    match b
    case Stop => Some(out)
    case Final(lits) => Some(out + lits)
    case Pair(lits, offset, length, rest) =>
      var o := out + lits;
      if 0 < offset <= |o| then Apply(Copy(o, offset, length), rest) else None
  }

  function OutLen(b: Block): nat {
    match b
    case Stop => 0
    case Final(lits) => |lits|
    case Pair(lits, _, length, rest) => |lits| + length + OutLen(rest)
  }

  // The bytes a block adds to `out`, which holds what its matches may reach.
  function Decode(out: seq<Byte>, src: seq<Byte>): Option<seq<Byte>> {
    var b := Parse(src);
    if b.None? then None else Apply(out, b.value)
  }

  // Decoding is one sequence, then decoding what follows it.
  lemma DecodeMatch(out: seq<Byte>, src: seq<Byte>, h: Head, o: seq<Byte>)
    requires h == ReadHead(src) && h.Match? && 0 < h.offset <= |out| + |h.lits|
    requires o == Copy(out + h.lits, h.offset, h.length)
    ensures Decode(out, src) == if h.used == |src| then Some(o) else Decode(o, src[h.used..])
  {
    var b := Parse(src);
    if h.used == |src| {
      assert Apply(o, Stop) == Some(o);
      assert b == Some(Pair(h.lits, h.offset, h.length, Stop));
    } else {
      var rest := Parse(src[h.used..]);
      if rest.Some? {
        assert b == Some(Pair(h.lits, h.offset, h.length, rest.value));
      } else {
        assert b == None;
      }
    }
  }

  lemma DecodeBadOffset(out: seq<Byte>, src: seq<Byte>, h: Head)
    requires h == ReadHead(src) && h.Match? && !(0 < h.offset <= |out| + |h.lits|)
    ensures Decode(out, src) == None
  {
    var b := Parse(src);
    if b.Some? {
      assert b.value.Pair? && b.value.offset == h.offset && b.value.lits == h.lits;
    }
  }

  // What is written only grows, and each sequence must be decodable where it stands.
  lemma DecodeGrows(out: seq<Byte>, src: seq<Byte>, h: Head, r: seq<Byte>)
    requires h == ReadHead(src) && Decode(out, src) == Some(r)
    ensures h.Tail? || h.Match?
    ensures h.Tail? ==> r == out + h.lits
    ensures h.Match? ==> 0 < h.offset <= |out| + |h.lits| && Copy(out + h.lits, h.offset, h.length) <= r
    ensures h.Match? && h.used == |src| ==> r == Copy(out + h.lits, h.offset, h.length)
    ensures h.Match? && h.used < |src| ==>
      Decode(Copy(out + h.lits, h.offset, h.length), src[h.used..]) == Some(r)
  {
    hide ReadHead;
    hide Copy;
    if h.Match? {
      if !(0 < h.offset <= |out| + |h.lits|) {
        DecodeBadOffset(out, src, h);
      } else {
        DecodeMatch(out, src, h, Copy(out + h.lits, h.offset, h.length));
      }
    }
  }

  // --- writing -------------------------------------------------------------------------

  predicate Legal(b: Block) {
    match b
    case Stop => true
    case Final(_) => true
    case Pair(_, offset, length, rest) => offset < 0x1_0000 && length >= 4 && Legal(rest)
  }

  function ExtBytes(n: nat): seq<Byte> {
    if n < 255 then [n] else [255] + ExtBytes(n - 255)
  }

  function LenBytes(n: nat): seq<Byte> {
    if n < 15 then [] else ExtBytes(n - 15)
  }

  function Nibble(n: nat): (r: nat) ensures r < 16 {
    if n < 15 then n else 15
  }

  // Offset and length extension of a match.
  function MatchBytes(offset: nat, length: nat): seq<Byte>
    requires offset < 0x1_0000 && length >= 4
  {
    [offset % 256, offset / 256] + LenBytes(length - 4)
  }

  function Encode(b: Block): seq<Byte>
    requires Legal(b)
  {
    match b
    case Stop => []
    case Final(lits) => [16 * Nibble(|lits|)] + LenBytes(|lits|) + lits
    case Pair(lits, offset, length, rest) =>
      [16 * Nibble(|lits|) + Nibble(length - 4)] + LenBytes(|lits|) + lits
      + MatchBytes(offset, length) + Encode(rest)
  }

  lemma {:induction false} ExtensionReads(len: nat, n: nat, tail: seq<Byte>)
    ensures Extension(len, ExtBytes(n) + tail) == Ext(len + n, |ExtBytes(n)|)
    decreases n
  {
    if n < 255 {
    } else {
      ExtensionReads(len + 255, n - 255, tail);
      assert (ExtBytes(n) + tail)[1..] == ExtBytes(n - 255) + tail;
    }
  }

  lemma LengthReads(n: nat, src: seq<Byte>, tail: seq<Byte>)
    requires src == LenBytes(n) + tail
    ensures Length(Nibble(n), src) == Ext(n, |LenBytes(n)|)
  {
    if n >= 15 { ExtensionReads(15, n - 15, tail); }
  }

  lemma MatchReads(lits: seq<Byte>, offset: nat, length: nat, tail: seq<Byte>, at: nat)
    requires offset < 0x1_0000 && length >= 4
    ensures ReadMatch(lits, Nibble(length - 4), MatchBytes(offset, length) + tail, at)
         == Match(lits, offset, length, at + |MatchBytes(offset, length)|)
  {
    var src := MatchBytes(offset, length) + tail;
    assert src[2..] == LenBytes(length - 4) + tail;
    LengthReads(length - 4, src[2..], tail);
  }

  lemma HeadReads(lits: seq<Byte>, low: nat, tail: seq<Byte>, src: seq<Byte>)
    requires low < 16
    requires src == [16 * Nibble(|lits|) + low] + LenBytes(|lits|) + lits + tail
    ensures ReadHead(src) ==
      if tail == [] then Tail(lits) else ReadMatch(lits, low, tail, |src| - |tail|)
  {
    assert src[1..] == LenBytes(|lits|) + (lits + tail);
    LengthReads(|lits|, src[1..], lits + tail);
    assert src[0] / 16 == Nibble(|lits|) && src[0] % 16 == low;
    var at := 1 + |LenBytes(|lits|)|;
    assert src[at..at + |lits|] == lits;
    assert src[at + |lits|..] == tail;
    if tail == [] { assert src[at..] == lits; }
  }

  // Every legal block survives being written and read.
  lemma {:induction false} ParseEncode(b: Block)
    requires Legal(b) && b != Stop
    ensures Parse(Encode(b)) == Some(b)
    decreases b
  {
    hide ReadHead;
    hide ReadMatch;
    hide LenBytes;
    hide Nibble;
    var src := Encode(b);
    match b
    case Final(lits) =>
      HeadReads(lits, 0, [], src);
    case Pair(lits, offset, length, rest) =>
      var tail := MatchBytes(offset, length) + Encode(rest);
      HeadReads(lits, Nibble(length - 4), tail, src);
      MatchReads(lits, offset, length, Encode(rest), |src| - |tail|);
      var h := ReadHead(src);
      assert src[h.used..] == Encode(rest);
      ParsePair(src, h, b);
      if rest != Stop { ParseEncode(rest); }
  }

  // Decoding a written block gives what its sequences mean.
  lemma RoundTrip(out: seq<Byte>, b: Block)
    requires Legal(b) && b != Stop
    ensures Decode(out, Encode(b)) == Apply(out, b)
  {
    ParseEncode(b);
  }

  // --- room to decode in place ---------------------------------------------------------

  // Wherever a match ends with input left, no more has been produced than consumed plus the gap.
  predicate Clear(src: seq<Byte>, gap: int)
    decreases |src|
  {
    var h := ReadHead(src);
    h.Match? && h.used < |src| ==>
      && |h.lits| + h.length <= h.used + gap
      && Clear(src[h.used..], gap + h.used - |h.lits| - h.length)
  }

  // The bytes that a length takes beyond its nibble.
  function Extra(n: nat): nat {
    if n < 15 then 0 else (n - 15) / 255 + 1
  }

  lemma {:induction false} ExtBytesSize(n: nat)
    ensures |ExtBytes(n)| == n / 255 + 1
    decreases n
  {
    if n >= 255 { ExtBytesSize(n - 255); }
  }

  lemma LenBytesSize(n: nat)
    ensures |LenBytes(n)| == Extra(n)
  {
    if n >= 15 { ExtBytesSize(n - 15); }
  }

  // Splitting a length costs at most one byte more.
  lemma ExtraAdds(a: nat, b: nat)
    ensures Extra(a) <= Extra(a + b) && Extra(a) + Extra(b) <= Extra(a + b) + 1 && Extra(a) <= a
  {
  }

  // How many bytes one sequence takes.
  lemma HeadSize(src: seq<Byte>)
    ensures var h := ReadHead(src);
      h.Tail? ==> |src| == 1 + Extra(|h.lits|) + |h.lits|
    ensures var h := ReadHead(src);
      h.Match? ==> h.used == 1 + Extra(|h.lits|) + |h.lits| + 2 + Extra(h.length - 4)
  {
    if src != [] {
      LengthSize(src[0] / 16, src[1..]);
      var e := Length(src[0] / 16, src[1..]);
      if e.Ext? && 1 + e.used + e.len < |src| {
        var rest := src[1 + e.used + e.len..];
        if |rest| >= 2 { LengthSize(src[0] % 16, rest[2..]); }
      }
    }
  }

  lemma LengthSize(nibble: nat, src: seq<Byte>)
    requires nibble < 16
    ensures var e := Length(nibble, src); e.Ext? ==> e.used == Extra(e.len)
  {
    if nibble == 15 { ExtensionSize(15, src); }
  }

  lemma {:induction false} ExtensionSize(len: nat, src: seq<Byte>)
    ensures var e := Extension(len, src); e.Ext? ==> e.used == (e.len - len) / 255 + 1
    decreases |src|
  {
    if src != [] && src[0] == 255 { ExtensionSize(len + 255, src[1..]); }
  }

  // A match is shorter than what it stands for, even where it splits a run of literals.
  lemma MatchShrinks(src: seq<Byte>, more: nat)
    ensures var h := ReadHead(src);
      h.Match? ==> h.used + Extra(more) <= |h.lits| + h.length + Extra(|h.lits| + h.length + more)
  {
    var h := ReadHead(src);
    HeadSize(src);
    if h.Match? {
      ExtraAdds(|h.lits|, more);
      ExtraAdds(|h.lits| + more, h.length);
      ExtraAdds(h.length - 4, 0);
    }
  }

  // No block is longer than one run of literals of what it decodes to.
  lemma {:induction false} BlockSize(src: seq<Byte>, b: Block)
    requires Parse(src) == Some(b)
    ensures |src| <= OutLen(b) + 1 + Extra(OutLen(b))
    decreases |src|
  {
    HeadSize(src);
    var h := ReadHead(src);
    if h.Match? && h.used < |src| {
      BlockSize(src[h.used..], b.rest);
      MatchShrinks(src, OutLen(b.rest));
    } else if h.Match? {
      MatchShrinks(src, 0);
    }
  }

  // A gap that always leaves room: what one run of literals would need.
  lemma {:induction false} MarginClears(src: seq<Byte>, b: Block, gap: int)
    requires Parse(src) == Some(b)
    requires gap >= OutLen(b) + 1 + Extra(OutLen(b)) - |src|
    ensures Clear(src, gap)
    decreases |src|
  {
    HeadSize(src);
    var h := ReadHead(src);
    if h.Match? && h.used < |src| {
      var x := |h.lits| + h.length;
      BlockSize(src[h.used..], b.rest);
      ExtraAdds(OutLen(b.rest), x);
      MarginClears(src[h.used..], b.rest, gap + h.used - x);
    }
  }

  lemma ClearMatch(src: seq<Byte>, h: Head, gap: int)
    requires h == ReadHead(src) && h.Match? && h.used < |src| && Clear(src, gap)
    ensures |h.lits| + h.length <= h.used + gap
    ensures Clear(src[h.used..], gap + h.used - |h.lits| - h.length)
  {
    hide ReadHead;
  }

  predicate EndsInLiterals(b: Block) {
    match b
    case Stop => false
    case Final(_) => true
    case Pair(_, _, _, rest) => EndsInLiterals(rest)
  }

  // With the compressed data at the very end of the output buffer there is never room, as soon
  // as a match is followed by a last run of literals: that run is longer compressed than not.
  lemma {:induction false} EndPlacementOverlaps(src: seq<Byte>, b: Block)
    requires Parse(src) == Some(b) && b.Pair? && EndsInLiterals(b)
    ensures !Clear(src, OutLen(b) - |src|)
    decreases |src|
  {
    hide ReadHead;
    hide Clear;
    var h := ReadHead(src);
    ParsePair(src, h, b);
    var rest, gap := src[h.used..], OutLen(b) - |src|;
    if Clear(src, gap) {
      ClearMatch(src, h, gap);
      if b.rest.Pair? {
        EndPlacementOverlaps(rest, b.rest);
      } else {
        HeadSize(rest);
      }
    }
  }
}
