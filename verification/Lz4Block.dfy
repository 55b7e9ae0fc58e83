/**
 * The whole-block decoder on a flat memory that may hold both buffers: what its loop does to
 * memory, the loop itself, and when that is the block's meaning although the buffers overlap.
 */
module Lz4Block {
  import opened Bits
  import opened Lz4Format

  // The memory the decoder leaves and where it stopped writing, or an access outside memory.
  datatype Machine = Ran(mem: seq<Byte>, dest: nat) | Fault

  // A forward byte copy: later bytes see what earlier ones wrote.
  function CopyBytes(mem: seq<Byte>, from: nat, to: nat, n: nat): (r: seq<Byte>)
    requires from + n <= |mem| && to + n <= |mem|
    ensures |r| == |mem|
    decreases n, from
  {
    if n == 0 then mem else CopyBytes(mem[to := mem[from]], from + 1, to + 1, n - 1)
  }

  // A token and its literals. Lengths are the source's 32-bit size_t.
  function LiteralTurn(mem: seq<Byte>, p: nat, end: nat, dest: nat): Machine
    decreases |mem| - p
  {
    if p >= |mem| then Fault
    else match Length(mem[p] / 16, mem[p + 1..])
      case Cut => Fault
      case Ext(len, used) =>
        var from, n := p + 1 + used, len % TWO32;
        if from + n > |mem| || dest + n > |mem| then Fault
        else
          var m := CopyBytes(mem, from, dest, n);
          if from + n < end then MatchTurn(m, from + n, end, dest + n, mem[p] % 16) else Ran(m, dest + n)
  }

  // An offset, the rest of the match length, and the copy.
  function MatchTurn(mem: seq<Byte>, p: nat, end: nat, dest: nat, nibble: nat): Machine
    decreases |mem| - p
  {
    if p + 2 > |mem| then Fault
    else match Length(nibble, mem[p + 2..])
      case Cut => Fault
      case Ext(len, used) =>
        var offset: nat := mem[p] as int + 256 * mem[p + 1] as int;
        var n := (len + 4) % TWO32;
        if offset > dest || dest + n > |mem| then Fault
        else
          var m := CopyBytes(mem, dest - offset, dest, n);
          if p + 2 + used < end then LiteralTurn(m, p + 2 + used, end, dest + n) else Ran(m, dest + n)
  }

  // --- the loop --------------------------------------------------------------------------

  method ReadExtension(mem: array<Byte>, source: nat, nibble: nat) returns (p: nat, len: nat)
    requires source <= mem.Length && nibble < 16 && Length(nibble, mem[source..]).Ext?
    ensures var e := Length(nibble, mem[source..]); p == source + e.used && len == e.len % TWO32
  {
    hide Extension;
    p, len := source, nibble;
    if len == 0x0f {
      ghost var e, total: nat := Extension(15, mem[source..]), 15;
      var more := true;
      while more
        invariant source <= p <= mem.Length && len == total % TWO32
        invariant more ==> p - source < e.used && Extension(total, mem[p..]) == Ext(e.len, e.used - (p - source))
        invariant !more ==> e == Ext(total, p - source)
        decreases more, mem.Length - p
      {
        ExtensionAt(mem[..], p, total);
        var b := mem[p];
        p := p + 1;
        AddMod(len, total, b);
        len := (len + b) % TWO32;
        total := total + b;
        more := b == 255;
      }
    }
  }

  lemma ExtensionAt(mem: seq<Byte>, p: nat, total: nat)
    requires p <= |mem| && Extension(total, mem[p..]).Ext?
    ensures p < |mem|
    ensures var e := Extension(total, mem[p..]);
      if mem[p] != 255 then e == Ext(total + mem[p], 1)
      else e.used > 1 && Extension(total + 255, mem[p + 1..]) == Ext(e.len, e.used - 1)
  {
    assert mem[p..][1..] == mem[p + 1..];
  }

  method CopyForward(mem: array<Byte>, from: nat, to: nat, n: nat) returns (ptr: nat, dest: nat)
    requires from + n <= mem.Length && to + n <= mem.Length
    modifies mem
    ensures ptr == from + n && dest == to + n
    ensures mem[..] == CopyBytes(old(mem[..]), from, to, n)
  {
    ptr, dest := from, to;
    var ptrEnd := from + n;
    while ptr != ptrEnd
      invariant from <= ptr <= ptrEnd && dest == to + (ptr - from)
      invariant CopyBytes(mem[..], ptr, dest, ptrEnd - ptr) == CopyBytes(old(mem[..]), from, to, n)
      decreases ptrEnd - ptr
    {
      ghost var m := mem[..];
      mem[dest] := mem[ptr];
      assert mem[..] == m[dest := m[ptr]];
      ptr, dest := ptr + 1, dest + 1;
    }
  }

  // The two halves of the source's loop body.
  method TakeLiterals(mem: array<Byte>, p: nat, end: nat, d: nat) returns (source: nat, dest: nat)
    requires LiteralTurn(mem[..], p, end, d).Ran?
    modifies mem
    ensures p < source && p < mem.Length
    ensures LiteralTurn(old(mem[..]), p, end, d) ==
      if source < end then MatchTurn(mem[..], source, end, dest, old(mem[p]) % 16) else Ran(mem[..], dest)
  {
    hide MatchTurn;
    hide Length;
    hide CopyBytes;
    assert mem[..][p + 1..] == mem[p + 1..];
    var len;
    source, len := ReadExtension(mem, p + 1, mem[p] / 16);
    source, dest := CopyForward(mem, source, d, len);
  }

  method TakeMatch(mem: array<Byte>, p: nat, end: nat, d: nat, nibble: nat) returns (source: nat, dest: nat)
    requires nibble < 16 && MatchTurn(mem[..], p, end, d, nibble).Ran?
    modifies mem
    ensures p < source && p < mem.Length
    ensures MatchTurn(old(mem[..]), p, end, d, nibble) ==
      if source < end then LiteralTurn(mem[..], source, end, dest) else Ran(mem[..], dest)
  {
    hide LiteralTurn;
    hide Length;
    hide CopyBytes;
    assert mem[..][p + 2..] == mem[p + 2..];
    var offset: nat := mem[p] as int + 256 * mem[p + 1] as int;
    var len, end_;
    source, len := ReadExtension(mem, p + 2, nibble);
    AddMod(len, Length(nibble, mem[p + 2..]).len, 4);
    len := (len + 4) % TWO32;
    end_, dest := CopyForward(mem, d - offset, d, len);
  }

  // What the source asks of its caller: a run that stays in memory.
  method DecompressBlock(mem: array<Byte>, source_: nat, sourceEnd: nat, dest_: nat) returns (written: nat)
    requires LiteralTurn(mem[..], source_, sourceEnd, dest_).Ran?
    modifies mem
    ensures LiteralTurn(old(mem[..]), source_, sourceEnd, dest_) == Ran(mem[..], written)
  {
    var source: nat, dest: nat, token: Byte := source_, dest_, 0;
    hide MatchTurn;
    var state, more := 0, true;
    ghost var goal := LiteralTurn(mem[..], source_, sourceEnd, dest_);
    while more
      invariant state == 0 || state == 1
      invariant more && state == 0 ==> goal == LiteralTurn(mem[..], source, sourceEnd, dest)
      invariant more && state == 1 ==> goal == MatchTurn(mem[..], source, sourceEnd, dest, token % 16)
      invariant !more ==> goal == Ran(mem[..], dest)
      decreases more, mem.Length - source
    {
      if state == 0 {
        token := mem[source];
        source, dest := TakeLiterals(mem, source, sourceEnd, dest);
      } else {
        source, dest := TakeMatch(mem, source, sourceEnd, dest, token % 16);
      }
      state := 1 - state;
      more := source < sourceEnd;
    }
    written := dest;
  }
}
