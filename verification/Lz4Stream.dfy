/** The byte-at-a-time decoder: its step as a function, its refinement of the block format, its object. */
module Lz4Stream {
  import opened Bits
  import opened Lz4Format

  datatype Phase = Token | LitLen | Literals | OffLo | OffHi | MatchLen
  datatype Rc = Ok | BadOffset | Truncated

  // `out` is everything written since the stream began, which is what a match may reach.
  datatype State = State(out: seq<Byte>, count: Word, offset: Half, token: Byte, phase: Phase)

  // What every state a stream is fed in satisfies; a stream that reported an error is not fed on.
  predicate Sound(s: State) {
    && (s.phase.Literals? ==> s.count > 0)
    && (s.phase.OffHi? ==> s.offset < 256)
    && (s.phase.MatchLen? ==> s.offset > 0)
  }

  datatype Fed = Fed(rc: Rc, s: State)

  // The copy that ends a step: `n` bytes, when the match starts inside what has been written.
  function Emit(s: State, n: nat): (f: Fed)
    requires s.offset > 0
  {
    if n == 0 then Fed(Ok, s)
    else if |s.out| < s.offset then Fed(BadOffset, s)
    else Fed(Ok, s.(out := Copy(s.out, s.offset, n)))
  }

  function AfterLength(s: State, count: Word): State {
    s.(count := count, phase := if count != 0 then Literals else OffLo)
  }

  function Step(s: State, b: Byte): (f: Fed)
    requires Sound(s)
    ensures f.rc == Ok ==> Sound(f.s)
  {
    match s.phase
    case Token =>
      var t := s.(token := b);
      Fed(Ok, if b / 16 == 15 then t.(count := 15, phase := LitLen) else AfterLength(t, b / 16))
    case LitLen =>
      var count := (s.count + b) % TWO32;
      Fed(Ok, if b == 255 then s.(count := count) else AfterLength(s, count))
    case Literals =>
      Fed(Ok, s.(out := s.out + [b], count := s.count - 1, phase := if s.count == 1 then OffLo else Literals))
    case OffLo =>
      Fed(Ok, s.(offset := b, phase := OffHi))
    case OffHi =>
      var t := s.(offset := s.offset + 256 * b, phase := if s.token % 16 == 15 then MatchLen else Token);
      if t.offset == 0 then Fed(BadOffset, t) else Emit(t, s.token % 16 + 4)
    case MatchLen =>
      Emit(if b != 255 then s.(phase := Token) else s, b)
  }

  // No byte of input writes more than 255 of output, and what was written stays.
  lemma StepEmits(s: State, b: Byte)
    requires Sound(s)
    ensures s.out <= Step(s, b).s.out && |Step(s, b).s.out| <= |s.out| + 255
  {
  }

  // Feeding stops at the first error.
  function Run(s: State, src: seq<Byte>): (f: Fed)
    requires Sound(s)
    ensures f.rc == Ok ==> Sound(f.s)
    decreases |src|
  {
    if src == [] then Fed(Ok, s)
    else var f := Step(s, src[0]);
      if f.rc != Ok then f else Run(f.s, src[1..])
  }

  lemma RunOne(s: State, src: seq<Byte>, t: State)
    requires Sound(s) && src != [] && Step(s, src[0]) == Fed(Ok, t)
    ensures Run(s, src) == Run(t, src[1..])
  {
  }

  lemma RunNothing(s: State, src: seq<Byte>)
    requires Sound(s) && src == []
    ensures Run(s, src) == Fed(Ok, s)
  {
  }

  lemma StepToken(s: State, b: Byte)
    requires s.phase.Token?
    ensures Step(s, b) == Fed(Ok, if b / 16 == 15 then s.(token := b, count := 15, phase := LitLen)
                                  else AfterLength(s.(token := b), b / 16))
  {
  }

  lemma {:induction false} RunAppend(s: State, a: seq<Byte>, b: seq<Byte>)
    requires Sound(s)
    ensures Run(s, a + b) == if Run(s, a).rc != Ok then Run(s, a) else Run(Run(s, a).s, b)
    decreases |a|
  {
    if a == [] {
      assert a + b == b;
    } else {
      assert (a + b)[1..] == a[1..] + b;
      if Step(s, a[0]).rc == Ok { RunAppend(Step(s, a[0]).s, a[1..], b); }
    }
  }

  lemma {:induction false} RunEmits(s: State, src: seq<Byte>)
    requires Sound(s)
    ensures s.out <= Run(s, src).s.out && |Run(s, src).s.out| <= |s.out| + 255 * |src|
    decreases |src|
  {
    if src != [] {
      StepEmits(s, src[0]);
      if Step(s, src[0]).rc == Ok { RunEmits(Step(s, src[0]).s, src[1..]); }
    }
  }

  // A block may end after literals or after a match.
  predicate BlockEnd(s: State) {
    s.phase.OffLo? || s.phase.Token?
  }

  // What the stream makes of a whole block: the bytes, or nothing when it reports an error.
  function Accept(s: State, src: seq<Byte>): Option<seq<Byte>>
    requires Sound(s)
  {
    var f := Run(s, src);
    if f.rc == Ok && BlockEnd(f.s) then Some(f.s.out) else None
  }

  // --- one part of a sequence at a time ------------------------------------------------

  lemma StepLitLen(s: State, b: Byte, len: nat)
    requires s.phase.LitLen? && s.count == len % TWO32
    ensures var count := (len + b) % TWO32;
      Step(s, b) == Fed(Ok, if b == 255 then s.(count := count) else AfterLength(s, count))
  {
    assert (s.count + b) % TWO32 == (len + b) % TWO32;
  }

  lemma {:induction false} RunLitLen(s: State, src: seq<Byte>, len: nat, e: Ext)
    requires s.phase.LitLen? && s.count == len % TWO32
    requires e == Extension(len, src)
    ensures e.Cut? ==> Run(s, src).rc == Ok && Run(s, src).s.phase.LitLen?
    ensures e.Ext? ==> Run(s, src) == Run(AfterLength(s, e.len % TWO32), src[e.used..])
    decreases |src|
  {
    hide Step;
    if src != [] {
      StepLitLen(s, src[0], len);
      var t := Step(s, src[0]).s;
      RunOne(s, src, t);
      if src[0] == 255 {
        var e' := Extension(len + 255, src[1..]);
        RunLitLen(t, src[1..], len + 255, e');
        if e.Ext? {
          assert src[1..][e'.used..] == src[e.used..];
          assert AfterLength(t, e.len % TWO32) == AfterLength(s, e.len % TWO32);
        }
      }
    }
  }

  lemma {:induction false} RunLiterals(s: State, src: seq<Byte>)
    requires s.phase.Literals? && s.count > 0
    ensures |src| < s.count ==> Run(s, src).rc == Ok && Run(s, src).s.phase.Literals?
    ensures |src| >= s.count ==>
      Run(s, src) == Run(s.(out := s.out + src[..s.count], count := 0, phase := OffLo), src[s.count..])
    decreases |src|
  {
    if src != [] {
      var t := Step(s, src[0]).s;
      if s.count == 1 {
        assert src[..1] == [src[0]];
      } else {
        RunLiterals(t, src[1..]);
        if |src| >= s.count {
          assert src[..s.count] == [src[0]] + src[1..][..t.count];
          assert s.out + src[..s.count] == t.out + src[1..][..t.count];
          assert src[1..][t.count..] == src[s.count..];
        }
      }
    }
  }

  lemma StepMatchLen(s: State, b: Byte, o: seq<Byte>, len: nat)
    requires s.phase.MatchLen? && 0 < s.offset <= |o|
    requires s.out == Copy(o, s.offset, len + 4)
    ensures Step(s, b) == Fed(Ok, s.(out := Copy(o, s.offset, len + b + 4),
                                     phase := if b == 255 then MatchLen else Token))
  {
    CopyAdds(o, s.offset, len + 4, b);
    assert len + 4 + b == len + b + 4;
  }

  lemma {:induction false} RunMatchLen(s: State, src: seq<Byte>, o: seq<Byte>, len: nat, e: Ext)
    requires s.phase.MatchLen? && 0 < s.offset <= |o|
    requires s.out == Copy(o, s.offset, len + 4)
    requires e == Extension(len, src)
    ensures e.Cut? ==> Run(s, src).rc == Ok && Run(s, src).s.phase.MatchLen?
    ensures e.Ext? ==>
      Run(s, src) == Run(s.(out := Copy(o, s.offset, e.len + 4), phase := Token), src[e.used..])
    decreases |src|
  {
    hide Step;
    if src != [] {
      StepMatchLen(s, src[0], o, len);
      var t := Step(s, src[0]).s;
      assert Run(s, src) == Run(t, src[1..]);
      if src[0] == 255 {
        var e' := Extension(len + 255, src[1..]);
        RunMatchLen(t, src[1..], o, len + 255, e');
        if e.Ext? { assert src[1..][e'.used..] == src[e.used..]; }
      }
    }
  }

  lemma RunOffset(s: State, src: seq<Byte>)
    requires s.phase.OffLo? && |src| >= 2
    ensures var t := s.(offset := src[0], phase := OffHi);
      var f := Step(t, src[1]);
      Run(s, src) == if f.rc != Ok then f else Run(f.s, src[2..])
  {
    var t := Step(s, src[0]).s;
    assert Run(s, src) == Run(t, src[1..]);
    assert src[1..][1..] == src[2..];
  }

  // An offset the stream refuses, and one it takes: the first copy of a match.
  lemma StepOffset(s: State, lo: Byte, hi: Byte, f: Fed)
    requires f == Step(s.(offset := lo, phase := OffHi), hi)
    ensures var offset := lo + 256 * hi;
      if !(0 < offset <= |s.out|) then f.rc != Ok
      else f == Fed(Ok, s.(out := Copy(s.out, offset, s.token % 16 + 4), offset := offset,
                           phase := if s.token % 16 == 15 then MatchLen else Token))
  {
  }

  // The match part of a sequence, when some of it is there.
  lemma RunMatch(s: State, lits: seq<Byte>, src: seq<Byte>, at: nat, h: Head)
    requires s.phase.OffLo? && src != []
    requires h == ReadMatch(lits, s.token % 16, src, at)
    ensures !h.Tail? && (h.Match? ==> h.lits == lits)
    ensures h.Broken? ==> Run(s, src).rc != Ok || !BlockEnd(Run(s, src).s)
    ensures h.Match? && !(0 < h.offset <= |s.out|) ==> Run(s, src).rc != Ok
    ensures h.Match? && 0 < h.offset <= |s.out| ==>
      Run(s, src) == Run(s.(out := Copy(s.out, h.offset, h.length), offset := h.offset, phase := Token),
                         src[h.used - at..])
  {
    if |src| == 1 {
      assert Run(s, src) == Run(Step(s, src[0]).s, src[1..]);
      assert Run(s, src).s.phase.OffHi?;
    } else {
      RunWholeOffset(s, lits, src, at, h);
    }
  }

  lemma RunWholeOffset(s: State, lits: seq<Byte>, src: seq<Byte>, at: nat, h: Head)
    requires s.phase.OffLo? && |src| >= 2
    requires h == ReadMatch(lits, s.token % 16, src, at)
    ensures !h.Tail? && (h.Match? ==> h.lits == lits)
    ensures h.Broken? ==> Run(s, src).rc != Ok || !BlockEnd(Run(s, src).s)
    ensures h.Match? && !(0 < h.offset <= |s.out|) ==> Run(s, src).rc != Ok
    ensures h.Match? && 0 < h.offset <= |s.out| ==>
      Run(s, src) == Run(s.(out := Copy(s.out, h.offset, h.length), offset := h.offset, phase := Token),
                         src[h.used - at..])
  {
    hide Step;
    hide Run;
    hide Copy;
    hide Length;
    hide ReadMatch;
    MatchIs(lits, s.token % 16, src, at);
    RunOffset(s, src);
    var f := Step(s.(offset := src[0], phase := OffHi), src[1]);
    StepOffset(s, src[0], src[1], f);
    if f.rc == Ok { RunLengthOfMatch(s, f.s, src); }
  }

  // ReadMatch told from the match length alone.
  lemma MatchIs(lits: seq<Byte>, nibble: nat, src: seq<Byte>, at: nat)
    requires |src| >= 2
    ensures var e, h := Length(nibble, src[2..]), ReadMatch(lits, nibble, src, at);
      if e.Cut? then h.Broken?
      else h.Match? && h.lits == lits && h.offset as int == src[0] as int + 256 * src[1] as int
           && h.length == e.len + 4 && h.used == at + 2 + e.used
  {
  }

  // The match length that follows the offset, and its copy.
  lemma RunLengthOfMatch(s: State, t: State, src: seq<Byte>)
    requires |src| >= 2 && 0 < t.offset <= |s.out|
    requires t == s.(out := Copy(s.out, t.offset, s.token % 16 + 4), offset := t.offset,
                     phase := if s.token % 16 == 15 then MatchLen else Token)
    ensures var e := Length(s.token % 16, src[2..]);
      if e.Cut? then Run(t, src[2..]).rc == Ok && !BlockEnd(Run(t, src[2..]).s)
      else Run(t, src[2..]) == Run(s.(out := Copy(s.out, t.offset, e.len + 4), offset := t.offset, phase := Token),
                                   src[2 + e.used..])
  {
    hide Step;
    hide Run;
    hide Copy;
    hide Extension;
    var e := Length(s.token % 16, src[2..]);
    if s.token % 16 == 15 {
      RunMatchLen(t, src[2..], s.out, 15, e);
      if e.Ext? { assert src[2..][e.used..] == src[2 + e.used..]; }
    }
  }

  // The length that follows the token.
  lemma RunLength(s: State, src: seq<Byte>, e: Ext)
    requires s.phase.Token? && src != []
    requires e == Length(src[0] / 16, src[1..]) && (e.Ext? ==> e.len < TWO32)
    ensures e.Cut? ==> Run(s, src).rc == Ok && Run(s, src).s.phase.LitLen?
    ensures e.Ext? ==> Run(s, src) == Run(AfterLength(s.(token := src[0]), e.len), src[1 + e.used..])
  {
    hide Step;
    hide Run;
    hide Extension;
    StepToken(s, src[0]);
    var t := Step(s, src[0]).s;
    RunOne(s, src, t);
    if src[0] / 16 == 15 {
      RunLitLen(t, src[1..], 15, e);
      if e.Ext? {
        assert AfterLength(t, e.len) == AfterLength(s.(token := src[0]), e.len);
        assert src[1..][e.used..] == src[1 + e.used..];
      }
    } else {
      assert src[1..] == src[1 + e.used..];
    }
  }

  // The literal part of a sequence: the length, then that many bytes.
  lemma RunLits(s: State, src: seq<Byte>, e: Ext)
    requires s.phase.Token? && src != []
    requires e == Length(src[0] / 16, src[1..]) && (e.Ext? ==> e.len < TWO32)
    ensures e.Cut? || 1 + e.used + e.len > |src| ==> Run(s, src).rc == Ok && !BlockEnd(Run(s, src).s)
    ensures e.Ext? && 1 + e.used + e.len <= |src| ==>
      Run(s, src) == Run(s.(out := s.out + src[1 + e.used..1 + e.used + e.len], count := 0,
                            token := src[0], phase := OffLo),
                         src[1 + e.used + e.len..])
  {
    hide Step;
    hide Run;
    RunLength(s, src, e);
    if e.Ext? {
      var u := AfterLength(s.(token := src[0]), e.len);
      var at := 1 + e.used;
      if e.len == 0 {
        assert s.out + src[at..at] == s.out;
      } else {
        RunLiterals(u, src[at..]);
        if at + e.len <= |src| {
          assert src[at..][..e.len] == src[at..at + e.len];
          assert src[at..][e.len..] == src[at + e.len..];
        }
      }
    }
  }

  // --- the stream is the block format -----------------------------------------------------

  // No literal length in a source this short can reach 2^32.
  const SHORT: nat := 16843009

  // The state in which a stream meets the offset of a sequence.
  function AtOffset(s: State, token: Byte, lits: seq<Byte>): State {
    s.(out := s.out + lits, count := 0, token := token, phase := OffLo)
  }

  function AfterMatch(s: State, token: Byte, h: Head): State
    requires h.Match? && 0 < h.offset <= |s.out| + |h.lits| && h.offset < 0x1_0000
  {
    State(Copy(s.out + h.lits, h.offset, h.length), 0, h.offset, token, Token)
  }

  // The literals of one sequence, then its match: the stream follows ReadHead.
  lemma RunHead(s: State, src: seq<Byte>, h: Head)
    requires s.phase.Token? && src != [] && h == ReadHead(src)
    requires |src| <= SHORT || (|src| < TWO32 && !h.Broken?)
    ensures h.Broken? ==> Run(s, src).rc != Ok || !BlockEnd(Run(s, src).s)
    ensures h.Tail? ==> Run(s, src) == Fed(Ok, AtOffset(s, src[0], h.lits))
    ensures h.Match? && !(0 < h.offset <= |s.out| + |h.lits|) ==> Run(s, src).rc != Ok
    ensures h.Match? && 0 < h.offset <= |s.out| + |h.lits| ==>
      Run(s, src) == Run(AfterMatch(s, src[0], h), src[h.used..])
  {
    hide Step;
    hide Run;
    hide Copy;
    hide Length;
    hide ReadHead;
    hide ReadMatch;
    var e := Length(src[0] / 16, src[1..]);
    HeadIs(src, e);
    RunLits(s, src, e);
    if e.Ext? && 1 + e.used + e.len <= |src| {
      var at := 1 + e.used + e.len;
      var t := AtOffset(s, src[0], src[1 + e.used..at]);
      if at == |src| {
        RunNothing(t, src[at..]);
      } else {
        RunMatch(t, src[1 + e.used..at], src[at..], at, h);
        if h.Match? { assert src[at..][h.used - at..] == src[h.used..]; }
      }
    }
  }

  // A stream at the start of a block accepts exactly the well-formed blocks, and writes exactly
  // the bytes they decode to over whatever was written before. The 32-bit literal counter is why
  // the source is bounded: any source up to SHORT bytes, a decodable one up to 2^32.
  lemma {:induction false} StreamIsBlock(s: State, src: seq<Byte>)
    requires s.phase.Token? && src != []
    requires |src| <= SHORT || (|src| < TWO32 && Decode(s.out, src).Some?)
    ensures Accept(s, src) == Decode(s.out, src)
    decreases |src|
  {
    hide Step;
    var h := ReadHead(src);
    RunHead(s, src, h);
    if h.Match? {
      if 0 < h.offset <= |s.out| + |h.lits| {
        var o := Copy(s.out + h.lits, h.offset, h.length);
        var t := AfterMatch(s, src[0], h);
        DecodeMatch(s.out, src, h, o);
        if h.used < |src| {
          StreamIsBlock(t, src[h.used..]);
        } else {
          assert src[h.used..] == [];
        }
      } else {
        DecodeBadOffset(s.out, src, h);
      }
    }
  }

  // One byte longer and the bound fails: a literal length of exactly 2^32 wraps to none, and the
  // stream accepts a block whose literals are missing.
  lemma LengthWraps(s: State, n: nat, src: seq<Byte>)
    requires s.phase.Token? && n == TWO32 - 15
    requires src == [0xF0] + ExtBytes(n)
    ensures |src| == SHORT + 1 && Accept(s, src) == Some(s.out) && Decode(s.out, src) == None
  {
    hide Step;
    ExtBytesSize(n);
    assert src[1..] == ExtBytes(n) + [];
    ExtensionReads(15, n, []);
    StepToken(s, src[0]);
    var t := s.(token := 0xF0, count := 15, phase := LitLen);
    RunOne(s, src, t);
    var e := Ext(n + 15, |ExtBytes(n)|);
    RunLitLen(t, src[1..], 15, e);
    RunNothing(AfterLength(t, 0), src[1..][e.used..]);
    assert ReadHead(src).Broken?;
  }

  // --- the object ------------------------------------------------------------------------

  // `out` and `base` are positions in a flat memory, the source's pointers.
  class Stream {
    var out: nat
    var base: nat
    var count: Word
    var offset: Half
    var token: Byte
    var state: Phase

    ghost predicate Within(mem: array<Byte>)
      reads this
    {
      base <= out <= mem.Length < TWO32
    }

    ghost function View(mem: array<Byte>): State
      reads this, mem
      requires Within(mem)
    {
      State(mem[base..out], count, offset, token, state)
    }

    constructor ()
      ensures state == Token && out == base == 0
    {
      out, base, count, offset, token, state := 0, 0, 0, 0, 0, Token;
    }

    // Only the pointers and the state are set; the other fields keep what they held.
    method Init(dest: nat)
      modifies this
      ensures out == base == dest && state == Token
      ensures count == old(count) && offset == old(offset) && token == old(token)
    {
      out, base := dest, dest;
      state := Token;
    }

    // What is asked of the caller is what the source leaves to it: room for the output.
    method Feed(mem: array<Byte>, b: Byte) returns (rc: Rc)
      requires Within(mem) && Sound(View(mem))
      requires base + |Step(View(mem), b).s.out| <= mem.Length
      modifies this, mem
      ensures Within(mem) && base == old(base)
      ensures Fed(rc, View(mem)) == Step(old(View(mem)), b)
      ensures mem[..base] == old(mem[..base]) && mem[out..] == old(mem[..])[out..]
    {
      hide Step;
      rc := Ok;
      if state == Literals {
        FeedLiteral(mem, b);
      } else if state == OffHi || state == MatchLen {
        rc := FeedMatch(mem, b);
      } else {
        FeedLength(mem, b);
      }
    }

    // The states that only read lengths and offsets.
    method FeedLength(mem: array<Byte>, b: Byte)
      requires Within(mem) && Sound(View(mem)) && (state == Token || state == LitLen || state == OffLo)
      modifies this
      ensures Within(mem) && base == old(base) && out == old(out)
      ensures Fed(Ok, View(mem)) == Step(old(View(mem)), b)
    {
      match state {
        case Token =>
          token := b;
          count := b / 16;
          if count == 15 { state := LitLen; } else { state := if count != 0 then Literals else OffLo; }
        case LitLen =>
          count := (count + b) % TWO32;
          if b != 255 { state := if count != 0 then Literals else OffLo; }
        case OffLo =>
          offset := b;
          state := OffHi;
      }
    }

    method FeedLiteral(mem: array<Byte>, b: Byte)
      requires Within(mem) && Sound(View(mem)) && state == Literals
      requires base + |Step(View(mem), b).s.out| <= mem.Length
      modifies this, mem
      ensures Within(mem) && base == old(base)
      ensures Fed(Ok, View(mem)) == Step(old(View(mem)), b)
      ensures mem[..base] == old(mem[..base]) && mem[out..] == old(mem[..])[out..]
    {
      PutByte(mem, base, out, b);
      out := out + 1;
      count := count - 1;
      if count == 0 { state := OffLo; }
    }

    // The states whose byte completes a match or a piece of one.
    method FeedMatch(mem: array<Byte>, b: Byte) returns (rc: Rc)
      requires Within(mem) && Sound(View(mem)) && (state == OffHi || state == MatchLen)
      requires base + |Step(View(mem), b).s.out| <= mem.Length
      modifies this, mem
      ensures Within(mem) && base == old(base)
      ensures Fed(rc, View(mem)) == Step(old(View(mem)), b)
      ensures mem[..base] == old(mem[..base]) && mem[out..] == old(mem[..])[out..]
    {
      hide Copy;
      var n: nat := b;
      rc := Ok;
      if state == OffHi {
        offset := offset + 256 * b;
        if offset == 0 { rc := BadOffset; }
        n := token % 16 + 4;
        state := if token % 16 == 15 then MatchLen else Token;
      } else if b != 255 {
        state := Token;
      }
      if n != 0 && rc == Ok { rc, out := CheckedCopy(mem, base, out, offset, n); }
    }

    // Ends a block and readies the stream for the next.
    method EndBlock() returns (rc: Rc)
      modifies this
      ensures state == Token
      ensures rc == if old(state) == OffLo || old(state) == Token then Ok else Truncated
      ensures out == old(out) && base == old(base)
      ensures count == old(count) && offset == old(offset) && token == old(token)
    {
      rc := if state == OffLo || state == Token then Ok else Truncated;
      state := Token;
    }
  }

  method PutByte(mem: array<Byte>, base: nat, out: nat, b: Byte)
    requires base <= out < mem.Length
    modifies mem
    ensures mem[base..out + 1] == old(mem[base..out]) + [b]
    ensures mem[..base] == old(mem[..base]) && mem[out + 1..] == old(mem[..])[out + 1..]
  {
    mem[out] := b;
  }

  // The match, unless it reaches behind the output.
  method CheckedCopy(mem: array<Byte>, base: nat, out: nat, offset: nat, n: nat) returns (rc: Rc, end: nat)
    requires base <= out <= mem.Length && offset > 0 && (offset <= out - base ==> out + n <= mem.Length)
    modifies mem
    ensures rc == if out - base < offset then BadOffset else Ok
    ensures rc == BadOffset ==> end == out && mem[..] == old(mem[..])
    ensures rc == Ok ==> end == out + n && mem[base..end] == Copy(old(mem[base..out]), offset, n)
    ensures mem[..base] == old(mem[..base]) && mem[end..] == old(mem[..])[end..]
  {
    rc, end := Ok, out;
    if out - base < offset { rc := BadOffset; }
    if rc == Ok { end := CopyMatch(mem, base, out, offset, n); }
  }

  // Byte by byte through memory, reading what the copy itself has just written when it overlaps.
  method CopyMatch(mem: array<Byte>, base: nat, out: nat, offset: nat, n: nat) returns (end: nat)
    requires base <= out && 0 < offset <= out - base && out + n <= mem.Length
    modifies mem
    ensures end == out + n
    ensures mem[base..end] == Copy(old(mem[base..out]), offset, n)
    ensures mem[..base] == old(mem[..base]) && mem[end..] == old(mem[..])[end..]
  {
    hide Copy;
    var src, left: nat := out - offset, n;
    end := out;
    ghost var was, done := mem[..], mem[base..out];
    while left != 0
      invariant base <= out <= end <= mem.Length
      invariant left <= n && end == out + (n - left) && src == end - offset
      invariant mem[base..end] == done && |done| >= offset
      invariant Copy(done, offset, left) == Copy(was[base..out], offset, n)
      invariant mem[..base] == was[..base] && mem[end..] == was[end..]
    {
      CopyOne(done, offset, left);
      assert mem[src] == mem[base..end][src - base] == done[|done| - offset];
      assert mem[end + 1..] == mem[end..][1..] == was[end + 1..];
      done := done + [done[|done| - offset]];
      mem[end] := mem[src];
      left, src, end := left - 1, src + 1, end + 1;
    }
    CopyNone(done, offset);
  }

  lemma CopyOne(out: seq<Byte>, offset: nat, n: nat)
    requires 0 < offset <= |out| && n > 0
    ensures Copy(out, offset, n) == Copy(out + [out[|out| - offset]], offset, n - 1)
  {
  }

  lemma CopyNone(out: seq<Byte>, offset: nat)
    requires 0 < offset <= |out|
    ensures Copy(out, offset, 0) == out
  {
  }
}
