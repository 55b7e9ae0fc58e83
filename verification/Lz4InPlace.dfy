/** When decoding over one memory gives the block's meaning. */
module Lz4InPlace {
  import opened Bits
  import opened Lz4Format
  import opened Lz4Block
  import Lz4Stream

  // `mem` with the bytes from `base` on replaced by `out`.
  function Patched(mem: seq<Byte>, base: nat, out: seq<Byte>): (r: seq<Byte>)
    requires base + |out| <= |mem|
    ensures |r| == |mem|
  {
    mem[..base] + out + mem[base + |out|..]
  }

  lemma PatchedNone(mem: seq<Byte>, base: nat)
    requires base <= |mem|
    ensures Patched(mem, base, []) == mem
  {
  }

  lemma PatchedOne(mem: seq<Byte>, base: nat, first: Byte, rest: seq<Byte>)
    requires base + 1 + |rest| <= |mem|
    ensures Patched(mem[base := first], base + 1, rest) == Patched(mem, base, [first] + rest)
  {
  }

  // --- copies in memory ------------------------------------------------------------------

  lemma {:induction false} CopyAcross(mem: seq<Byte>, from: nat, to: nat, n: nat)
    requires from + n <= |mem| && to + n <= |mem|
    requires to <= from || from + n <= to
    ensures CopyBytes(mem, from, to, n) == Patched(mem, to, mem[from..from + n])
    decreases n
  {
    hide Patched;
    if n > 0 {
      var m := mem[to := mem[from]];
      CopyAcross(m, from + 1, to + 1, n - 1);
      assert m[from + 1..from + n] == mem[from + 1..from + n];
      assert mem[from..from + n] == [mem[from]] + mem[from + 1..from + n];
      PatchedOne(mem, to, mem[from], mem[from + 1..from + n]);
    } else {
      assert mem[from..from] == [];
      PatchedNone(mem, to);
    }
  }

  lemma {:induction false} CopyBack(mem: seq<Byte>, base: nat, dest: nat, offset: nat, n: nat)
    requires base <= dest && dest + n <= |mem| && 0 < offset <= dest - base
    ensures CopyBytes(mem, dest - offset, dest, n) == Patched(mem, base, Copy(mem[base..dest], offset, n))
    decreases n
  {
    if n > 0 {
      var m := mem[dest := mem[dest - offset]];
      CopyBack(m, base, dest + 1, offset, n - 1);
      assert m[base..dest + 1] == mem[base..dest] + [mem[base..dest][dest - base - offset]];
    } else {
      assert mem == Patched(mem, base, mem[base..dest]);
    }
  }

  // --- lengths are read the same whatever lies behind the block ---------------------------

  lemma {:induction false} ExtensionMore(len: nat, s: seq<Byte>, t: seq<Byte>)
    requires Extension(len, s).Ext?
    ensures Extension(len, s + t) == Extension(len, s)
    decreases |s|
  {
    if s[0] == 255 {
      assert (s + t)[1..] == s[1..] + t;
      ExtensionMore(len + 255, s[1..], t);
    }
  }

  lemma LengthAt(mem: seq<Byte>, p: nat, end: nat, nibble: nat)
    requires p <= end <= |mem| && Length(nibble, mem[p..end]).Ext?
    ensures Length(nibble, mem[p..]) == Length(nibble, mem[p..end])
  {
    assert mem[p..] == mem[p..end] + mem[end..];
    if nibble == 15 { ExtensionMore(15, mem[p..end], mem[end..]); }
  }

  // --- one turn ----------------------------------------------------------------------------

  // A literal turn in memory: the copy is a patch, wherever the source lies.
  lemma LiteralsInMemory(mem: seq<Byte>, p: nat, end: nat, dest: nat, e: Ext, at: nat)
    requires p < end <= |mem| < TWO32
    requires e == Length(mem[p] / 16, mem[p + 1..end]) && e.Ext?
    requires at == p + 1 + e.used + e.len && at <= end && dest + e.len <= |mem|
    requires dest <= p || end <= dest
    ensures var m := Patched(mem, dest, mem[at - e.len..at]);
      LiteralTurn(mem, p, end, dest) ==
        if at < end then MatchTurn(m, at, end, dest + e.len, mem[p] % 16) else Ran(m, dest + e.len)
  {
    hide MatchTurn;
    hide Length;
    hide CopyBytes;
    LengthAt(mem, p + 1, end, mem[p] / 16);
    CopyAcross(mem, at - e.len, dest, e.len);
  }

  // A match turn in memory: the copy is the format's, from whatever has been written.
  lemma MatchInMemory(mem: seq<Byte>, p: nat, end: nat, base: nat, dest: nat, nibble: nat, h: Head, at: nat)
    requires p < end <= |mem| < TWO32 && base <= dest
    requires h.Match? && h == ReadMatch(h.lits, nibble, mem[p..end], at)
    requires 0 < h.offset <= dest - base && dest + h.length <= |mem|
    ensures var m, q := Patched(mem, base, Copy(mem[base..dest], h.offset, h.length)), p + h.used - at;
      MatchTurn(mem, p, end, dest, nibble) ==
        if q < end then LiteralTurn(m, q, end, dest + h.length) else Ran(m, dest + h.length)
  {
    hide LiteralTurn;
    hide Length;
    hide CopyBytes;
    assert mem[p..end][2..] == mem[p + 2..end];
    LengthAt(mem, p + 2, end, nibble);
    CopyBack(mem, base, dest, h.offset, h.length);
  }

  // --- the block ---------------------------------------------------------------------------

  // The source lies below the output, or above it with room at every step.
  predicate Safe(mem: seq<Byte>, p: nat, end: nat, dest: nat)
    requires p <= end <= |mem|
  {
    end <= dest || (dest <= p && Clear(mem[p..end], p - dest))
  }

  lemma PatchTwice(mem: seq<Byte>, base: nat, a: seq<Byte>, b: seq<Byte>)
    requires |a| <= |b| && base + |b| <= |mem|
    ensures Patched(Patched(mem, base, a), base, b) == Patched(mem, base, b)
  {
  }

  lemma SliceOfSlice(mem: seq<Byte>, p: nat, end: nat, i: nat, j: nat)
    requires p <= end <= |mem| && i <= j <= end - p
    ensures mem[p..end][i..j] == mem[p + i..p + j]
  {
    var s := mem[p..end];
    assert forall k :: i <= k < j ==> s[k] == mem[p + k];
    assert s[i..j] == mem[p + i..p + j];
  }

  // A patch after what was written makes one patch of both, and leaves what lies outside it.
  lemma PatchOn(mem: seq<Byte>, base: nat, dest: nat, new_: seq<Byte>)
    requires base <= dest && dest + |new_| <= |mem|
    ensures Patched(mem, dest, new_) == Patched(mem, base, mem[base..dest] + new_)
    ensures Patched(mem, dest, new_)[base..dest + |new_|] == mem[base..dest] + new_
  {
  }

  lemma PatchKeeps(mem: seq<Byte>, base: nat, new_: seq<Byte>, p: nat, end: nat)
    requires base + |new_| <= |mem| && p <= end <= |mem|
    requires end <= base || base + |new_| <= p
    ensures Patched(mem, base, new_)[p..end] == mem[p..end]
  {
  }

  // In place or not, the decoder leaves the decoded block at `dest` and nothing else changed.
  // What precedes `dest` from `base` on is history that matches may reach.
  lemma {:induction false} InPlace(mem: seq<Byte>, p: nat, end: nat, base: nat, dest: nat, out: seq<Byte>)
    requires p < end <= |mem| < TWO32 && base <= dest <= |mem|
    requires Decode(mem[base..dest], mem[p..end]) == Some(out) && base + |out| <= |mem|
    requires Safe(mem, p, end, dest)
    ensures LiteralTurn(mem, p, end, dest) == Ran(Patched(mem, base, out), base + |out|)
    decreases end - p, 1
  {
    hide LiteralTurn;
    hide MatchTurn;
    hide ReadHead;
    hide ReadMatch;
    hide Copy;
    hide Patched;
    hide Decode;
    hide Clear;
    var src, hist := mem[p..end], mem[base..dest];
    var e, h := Length(src[0] / 16, src[1..]), ReadHead(src);
    DecodeGrows(hist, src, h, out);
    HeadIs(src, e);
    assert src[1..] == mem[p + 1..end];
    var at := p + 1 + e.used + e.len;
    assert at <= end;
    var lits := mem[at - e.len..at];
    SliceOfSlice(mem, p, end, 1 + e.used, 1 + e.used + e.len);
    assert src[at - p..] == mem[at..end];
    LiteralsInMemory(mem, p, end, dest, e, at);
    PatchOn(mem, base, dest, lits);
    if at < end {
      MatchAfter(mem, p, end, base, dest, out, h, at);
    }
  }

  lemma MatchAfter(mem: seq<Byte>, p: nat, end: nat, base: nat, dest: nat, out: seq<Byte>, h: Head, at: nat)
    requires p < end <= |mem| < TWO32 && base <= dest <= |mem|
    requires Decode(mem[base..dest], mem[p..end]) == Some(out) && base + |out| <= |mem|
    requires Safe(mem, p, end, dest)
    requires h == ReadHead(mem[p..end]) && h.Match? && p + |h.lits| < at < end
    requires h == ReadMatch(h.lits, mem[p] % 16, mem[at..end], at - p)
    requires dest + |h.lits| <= |mem|
    ensures MatchTurn(Patched(mem, dest, h.lits), at, end, dest + |h.lits|, mem[p] % 16)
         == Ran(Patched(mem, base, out), base + |out|)
    decreases end - p, 0
  {
    hide LiteralTurn;
    hide MatchTurn;
    hide ReadHead;
    hide ReadMatch;
    hide Copy;
    hide Patched;
    hide Decode;
    hide Clear;
    var src, hist, d := mem[p..end], mem[base..dest], dest + |h.lits|;
    var m := Patched(mem, dest, h.lits);
    DecodeGrows(hist, src, h, out);
    var o := Copy(hist + h.lits, h.offset, h.length);
    PatchOn(mem, base, dest, h.lits);
    PatchKeeps(mem, dest, h.lits, at, end);
    MatchInMemory(m, at, end, base, d, mem[p] % 16, h, at - p);
    PatchTwice(mem, base, hist + h.lits, o);
    var q := p + h.used;
    if q < end {
      var m2, tail := Patched(mem, base, o), o[|hist + h.lits|..];
      assert m[base..d] + tail == o;
      PatchOn(m, base, d, tail);
      if dest <= p { ClearMatch(src, h, p - dest); }
      PatchKeeps(mem, dest, h.lits, q, end);
      PatchKeeps(m, d, tail, q, end);
      assert src[h.used..] == mem[q..end];
      InPlace(m2, q, end, base, d + h.length, out);
      PatchTwice(mem, base, o, out);
    }
  }

  // --- where the source may lie --------------------------------------------------------------

  // Buffers that do not meet are safe.
  lemma {:induction false} FarClears(src: seq<Byte>, b: Block, gap: int)
    requires Parse(src) == Some(b) && gap >= OutLen(b)
    ensures Clear(src, gap)
    decreases |src|
  {
    var h := ReadHead(src);
    if h.Match? && h.used < |src| {
      FarClears(src[h.used..], b.rest, gap + h.used - |h.lits| - h.length);
    }
  }

  // The two decoders agree: whatever block the stream accepts, the whole-block decoder leaves the
  // same bytes in memory, overlapping buffers included.
  lemma DecodersAgree(s: Lz4Stream.State, mem: seq<Byte>, p: nat, end: nat, base: nat, dest: nat)
    requires p < end <= |mem| < TWO32 && base <= dest <= |mem|
    requires s.phase.Token? && s.out == mem[base..dest] && Safe(mem, p, end, dest)
    requires end - p <= Lz4Stream.SHORT || Decode(s.out, mem[p..end]).Some?
    ensures var out := Lz4Stream.Accept(s, mem[p..end]);
      out.Some? && base + |out.value| <= |mem| ==>
        LiteralTurn(mem, p, end, dest) == Ran(Patched(mem, base, out.value), base + |out.value|)
  {
    var out := Lz4Stream.Accept(s, mem[p..end]);
    Lz4Stream.StreamIsBlock(s, mem[p..end]);
    if out.Some? && base + |out.value| <= |mem| { InPlace(mem, p, end, base, dest, out.value); }
  }
}
