/**
 * The monitor's LZ4 upload: slices of one block in separate frames, decoded as they arrive,
 * whatever frames come. `Receive` is one frame; the class at the end is the monitor's object.
 */
module Lz4Upload {
  import opened Bits
  import opened Lz4Format
  import opened Lz4Stream
  import F = Frames

  datatype Code = Fine | BadLength | BadStateCode | DecodeError | BadChecksum

  // The payload words of a frame and whether its checksum held.
  datatype Frame = Frame(payload: seq<Half>, sumOk: bool)

  datatype Header = Header(dest: Word, rawLen: Word, clen: Word, off: Word, nbytes: Word)

  function HeaderOf(f: Frame): Header
    requires |f.payload| >= 10
  {
    var p := f.payload;
    Header(F.Join32(p[0], p[1]), F.Join32(p[2], p[3]), F.Join32(p[4], p[5]), F.Join32(p[6], p[7]), F.Join32(p[8], p[9]))
  }

  // The slice a frame carries.
  function Slice(f: Frame): seq<Byte> {
    if |f.payload| >= 10 && HeaderOf(f).nbytes <= 2 * (|f.payload| - 10)
    then F.FirstBytes(f.payload[10..], HeaderOf(f).nbytes) else []
  }

  // `base` is where the output of `stream` lies.
  datatype Upload = Upload(active: bool, consumed: Word, base: nat, stream: State)
  datatype Reply = Reply(code: Code, u: Upload)

  predicate Feedable(u: Upload) {
    u.active ==> Sound(u.stream)
  }

  function Begin(s: State): State {
    s.(out := [], phase := Token)
  }

  function Opened(u: Upload, h: Header): (o: Upload) {
    if h.off == 0 then Upload(true, 0, h.dest, Begin(u.stream)) else u
  }

  function Objection(o: Upload, h: Header, words: nat): Code {
    if h.off != 0 && (!o.active || h.off != o.consumed) then BadStateCode
    else if h.nbytes > 2 * words || (h.off + h.nbytes) % TWO32 > h.clen then BadLength
    else Fine
  }

  // The bytes of a slice count, and the last of them must end a block of the promised size.
  function Closed(u: Upload, h: Header): (r: Reply)
    ensures r.u.base == u.base && r.u.stream.out == u.stream.out
  {
    var w := u.(consumed := (u.consumed + h.nbytes) % TWO32);
    if w.consumed != h.clen then Reply(Fine, w)
    else Reply(if BlockEnd(w.stream) && |w.stream.out| % TWO32 == h.rawLen then Fine else DecodeError,
               w.(active := false, stream := w.stream.(phase := Token)))
  }

  function Dropped(u: Upload, code: Code, sumOk: bool): Reply {
    Reply(if sumOk then code else BadChecksum, u.(active := false))
  }

  function Receive(u: Upload, f: Frame): (r: Reply)
    requires Feedable(u)
    ensures Feedable(r.u)
  {
    if |f.payload| < 10 then Dropped(u, BadLength, f.sumOk)
    else
      var h := HeaderOf(f);
      var o := Opened(u, h);
      var c := Objection(o, h, |f.payload| - 10);
      if c != Fine then Dropped(o, c, f.sumOk)
      else
        var fed := Run(o.stream, Slice(f));
        var v := o.(stream := fed.s);
        if fed.rc != Ok || !f.sumOk then Dropped(v, DecodeError, f.sumOk) else Closed(v, h)
  }

  // --- any run of frames -----------------------------------------------------------------

  const IDLE := Upload(false, 0, 0, State([], 0, 0, 0, Token))

  function After(fs: seq<Frame>): (u: Upload)
    ensures Feedable(u)
    decreases |fs|
  {
    if fs == [] then IDLE else Receive(After(fs[..|fs| - 1]), fs[|fs| - 1]).u
  }

  predicate Opens(f: Frame) {
    |f.payload| >= 10 && HeaderOf(f).off == 0
  }

  // The slices since the last frame that opened a stream, end to end.
  function Sent(fs: seq<Frame>): seq<Byte>
    decreases |fs|
  {
    if fs == [] then []
    else var f := fs[|fs| - 1];
      if Opens(f) then Slice(f) else Sent(fs[..|fs| - 1]) + Slice(f)
  }

  // The decoder as that frame left it: nothing written, at the start of a block.
  function Origin(fs: seq<Frame>): (s: State)
    ensures s.out == [] && s.phase.Token?
    decreases |fs|
  {
    if fs == [] then IDLE.stream
    else var f := fs[|fs| - 1];
      if Opens(f) then Begin(After(fs[..|fs| - 1]).stream) else Origin(fs[..|fs| - 1])
  }

  // Where the last frame that opened a stream put it.
  function Target(fs: seq<Frame>): nat
    decreases |fs|
  {
    if fs == [] then 0
    else var f := fs[|fs| - 1];
      if Opens(f) then HeaderOf(f).dest else Target(fs[..|fs| - 1])
  }

  // What must have happened for a frame to count.
  lemma ReceiveFine(u: Upload, f: Frame, r: Reply)
    requires Feedable(u) && r == Receive(u, f) && (r.u.active || r.code == Fine)
    ensures |f.payload| >= 10 && f.sumOk
    ensures var h := HeaderOf(f);
      var o := Opened(u, h);
      && o.active && (Opens(f) || h.off == u.consumed)
      && |Slice(f)| == h.nbytes && (h.off + h.nbytes) % TWO32 <= h.clen
      && Run(o.stream, Slice(f)).rc == Ok
      && r == Closed(o.(stream := Run(o.stream, Slice(f)).s), h)
  {
    hide Run;
    hide F.FirstBytes;
  }

  // The words of a frame: five 32-bit values, low half first, and the slice, low byte first.
  lemma FrameWordsMean(f: Frame, i: nat)
    requires |f.payload| >= 10
    ensures var p, h := f.payload, HeaderOf(f);
      && h.dest == p[0] as nat + 0x1_0000 * p[1] as nat && h.rawLen == p[2] as nat + 0x1_0000 * p[3] as nat
      && h.clen == p[4] as nat + 0x1_0000 * p[5] as nat && h.off == p[6] as nat + 0x1_0000 * p[7] as nat
      && h.nbytes == p[8] as nat + 0x1_0000 * p[9] as nat
      && (h.nbytes <= 2 * (|p| - 10) && i < h.nbytes ==>
            |Slice(f)| == h.nbytes
            && Slice(f)[i] == if i % 2 == 0 then p[10 + i / 2] % 0x100 else p[10 + i / 2] / 0x100)
  {
  }

  // Which answer a frame gets. Whatever is wrong with it, a bad checksum is what is said; else the
  // first of these, and any of them ends the stream.
  lemma AnswerMeans(u: Upload, f: Frame, r: Reply)
    requires Feedable(u) && r == Receive(u, f)
    ensures !f.sumOk <==> r.code == BadChecksum
    ensures r.code != Fine ==> !r.u.active
    ensures f.sumOk && |f.payload| < 10 ==> r.code == BadLength
    ensures f.sumOk && |f.payload| >= 10 ==>
      var h := HeaderOf(f);
      var lost := h.off != 0 && !(u.active && u.consumed == h.off);
      var long := h.nbytes > 2 * (|f.payload| - 10) || (h.off + h.nbytes) % TWO32 > h.clen;
      && (r.code == BadStateCode <==> lost) && (r.code == BadLength <==> !lost && long)
      && (!lost && !long ==>
            var fed := Run(if h.off == 0 then Begin(u.stream) else u.stream, Slice(f));
            var last := (h.off + h.nbytes) % TWO32 == h.clen;
            var whole := BlockEnd(fed.s) && |fed.s.out| % TWO32 == h.rawLen;
            && (r.code == DecodeError <==> fed.rc != Ok || (last && !whole))
            && (r.code == Fine <==> fed.rc == Ok && (last ==> whole))
            && (r.code == Fine ==> (r.u.active <==> !last)))
  {
    hide Run;
    hide Slice;
    hide HeaderOf;
    hide Sound;
  }

  // The stream, wherever it is after a frame that counted, has been fed all that was sent.
  lemma FedSoFar(fs: seq<Frame>, f: Frame, o: Upload)
    requires |f.payload| >= 10 && o == Opened(After(fs), HeaderOf(f)) && o.active
    ensures var all := fs + [f];
      && Run(Origin(all), Sent(all)) == Run(o.stream, Slice(f))
      && (o.consumed + |Slice(f)|) % TWO32 == |Sent(all)| % TWO32
      && o.base == Target(all)
    decreases |fs|, 1
  {
    hide Run;
    hide Slice;
    hide Receive;
    var all := fs + [f];
    assert all[..|fs|] == fs && all[|fs|] == f;
    if !Opens(f) {
      ActiveIsFed(fs);
      RunAppend(Origin(fs), Sent(fs), Slice(f));
      AddMod(o.consumed, |Sent(fs)|, |Slice(f)|);
    }
  }

  // While a stream is active, whatever frames came, the decoder is where feeding it the slices
  // since its opening frame in one go would have left it.
  lemma {:induction false} ActiveIsFed(fs: seq<Frame>)
    requires After(fs).active
    ensures Run(Origin(fs), Sent(fs)) == Fed(Ok, After(fs).stream)
    ensures After(fs).consumed == |Sent(fs)| % TWO32 && After(fs).base == Target(fs)
    decreases |fs|, 0
  {
    hide Receive;
    hide Run;
    hide HeaderOf;
    hide Slice;
    var front, f := fs[..|fs| - 1], fs[|fs| - 1];
    var u := After(front);
    ReceiveFine(u, f, Receive(u, f));
    assert front + [f] == fs;
    FedSoFar(front, f, Opened(u, HeaderOf(f)));
  }

  // The frame that ends an upload: answered Fine, and no stream is left open.
  predicate Completes(fs: seq<Frame>, f: Frame) {
    var r := Receive(After(fs), f);
    r.code == Fine && !r.u.active
  }

  // An upload answered Fine to its end fed exactly clen bytes, which are a whole block, and
  // wrote exactly rawLen bytes at the destination its first frame named. Both counts are kept in
  // 32 bits, so they are exact of uploads below 2^32 bytes.
  lemma CompletedUpload(fs: seq<Frame>, f: Frame, r: Reply)
    requires Completes(fs, f) && r == Receive(After(fs), f)
    ensures |f.payload| >= 10
    ensures var src, out := Sent(fs + [f]), r.u.stream.out;
      && |src| % TWO32 == HeaderOf(f).clen && |out| % TWO32 == HeaderOf(f).rawLen
      && (|src| < TWO32 ==> |src| == HeaderOf(f).clen) && (|out| < TWO32 ==> |out| == HeaderOf(f).rawLen)
      && r.u.base == Target(fs + [f])
      && Accept(Origin(fs + [f]), src) == Some(out)
      && (0 < |src| <= SHORT ==> Decode([], src) == Some(out))
  {
    hide Receive;
    hide Run;
    hide HeaderOf;
    hide Slice;
    hide Decode;
    ReceiveFine(After(fs), f, r);
    FedSoFar(fs, f, Opened(After(fs), HeaderOf(f)));
    var src := Sent(fs + [f]);
    if 0 < |src| <= SHORT { StreamIsBlock(Origin(fs + [f]), src); }
  }

  // --- the host's side ----------------------------------------------------------------------

  function FrameOf(h: Header, slice: seq<Byte>): (f: Frame)
    requires h.nbytes == |slice|
  {
    Frame(F.Split32(h.dest) + F.Split32(h.rawLen) + F.Split32(h.clen) + F.Split32(h.off) + F.Split32(h.nbytes)
          + F.PackedWords(slice), true)
  }

  lemma FrameCarries(h: Header, slice: seq<Byte>)
    requires h.nbytes == |slice|
    ensures var f := FrameOf(h, slice);
      f.sumOk && |f.payload| == 10 + (|slice| + 1) / 2 && HeaderOf(f) == h && Slice(f) == slice
  {
    var p := FrameOf(h, slice).payload;
    var w := F.PackedWords(slice);
    assert p[10..] == w;
    F.PackedBytes(slice);
  }

  function Concat(slices: seq<seq<Byte>>): seq<Byte> {
    if slices == [] then [] else slices[0] + Concat(slices[1..])
  }

  // One block in slices, whose offsets continue from `off`.
  function Frames(dest: Word, rawLen: Word, clen: Word, off: nat, slices: seq<seq<Byte>>): (fs: seq<Frame>)
    requires off + |Concat(slices)| < TWO32
    ensures |fs| == |slices|
    decreases |slices|
  {
    if slices == [] then []
    else [FrameOf(Header(dest, rawLen, clen, off, |slices[0]|), slices[0])]
         + Frames(dest, rawLen, clen, off + |slices[0]|, slices[1..])
  }

  function Replies(u: Upload, fs: seq<Frame>): (rs: seq<Reply>)
    requires Feedable(u)
    ensures |rs| == |fs|
    decreases |fs|
  {
    if fs == [] then [] else var r := Receive(u, fs[0]); [r] + Replies(r.u, fs[1..])
  }

  // The stream is `off` bytes into `src`, or about to start.
  predicate Midway(u: Upload, s: State, dest: Word, src: seq<Byte>, off: nat)
    requires s.phase.Token? && off <= |src|
  {
    if off == 0 then s == Begin(u.stream)
    else u.active && u.consumed == off && u.base == dest && Run(s, src[..off]) == Fed(Ok, u.stream)
  }

  // One slice of a block the stream would accept: answered Fine, and the stream moves on.
  lemma SliceTaken(u: Upload, s: State, src: seq<Byte>, h: Header, slice: seq<Byte>, out: seq<Byte>, r: Reply)
    requires s.phase.Token? && s.out == [] && |src| < TWO32 && Accept(s, src) == Some(out)
    requires |out| < TWO32 && h.rawLen == |out| && h.clen == |src|
    requires slice != [] && h.nbytes == |slice| && h.off + |slice| <= |src|
    requires slice == src[h.off..h.off + |slice|]
    requires Feedable(u) && Midway(u, s, h.dest, src, h.off) && r == Receive(u, FrameOf(h, slice))
    ensures r.code == Fine && r.u.base == h.dest
    ensures h.off + |slice| < |src| ==> Midway(r.u, s, h.dest, src, h.off + |slice|)
    ensures h.off + |slice| == |src| ==> !r.u.active && r.u.stream.out == out
  {
    hide Begin;
    hide Run;
    hide FrameOf;
    hide HeaderOf;
    hide Slice;
    hide Accept;
    hide BlockEnd;
    FrameCarries(h, slice);
    SliceFed(u, s, src, h, slice, out);
    var o := Opened(u, h);
    assert Objection(o, h, (|slice| + 1) / 2) == Fine;
  }

  // The stream after the slice is the one that was fed the block so far.
  lemma SliceFed(u: Upload, s: State, src: seq<Byte>, h: Header, slice: seq<Byte>, out: seq<Byte>)
    requires s.phase.Token? && s.out == [] && Sound(s) && Accept(s, src) == Some(out)
    requires h.off + |slice| <= |src| && slice == src[h.off..h.off + |slice|]
    requires Feedable(u) && Midway(u, s, h.dest, src, h.off)
    ensures var o, next := Opened(u, h), h.off + |slice|;
      && Sound(o.stream) && Run(o.stream, slice).rc == Ok
      && Run(s, src[..next]) == Run(o.stream, slice)
      && (next == |src| ==> BlockEnd(Run(o.stream, slice).s) && Run(o.stream, slice).s.out == out)
  {
    hide Begin;
    hide Run;
    hide Accept;
    hide BlockEnd;
    Accepted(s, src, out);
    var o, next := Opened(u, h), h.off + |slice|;
    assert src[..0] == [];
    RunNothing(s, src[..0]);
    assert Run(s, src[..h.off]) == Fed(Ok, o.stream);
    assert src[..h.off] + slice == src[..next];
    RunAppend(s, src[..h.off], slice);
    assert src[..next] + src[next..] == src;
    RunAppend(s, src[..next], src[next..]);
    RunAppendOk(s, src[..next], src[next..]);
    if next == |src| { assert src[..next] == src; }
  }

  lemma Accepted(s: State, src: seq<Byte>, out: seq<Byte>)
    requires Sound(s) && Accept(s, src) == Some(out)
    ensures var f := Run(s, src); f.rc == Ok && BlockEnd(f.s) && f.s.out == out
  {
  }

  lemma RunAppendOk(s: State, a: seq<Byte>, b: seq<Byte>)
    requires Sound(s) && Run(s, a + b).rc == Ok
    ensures Run(s, a).rc == Ok
  {
    RunAppend(s, a, b);
  }

  // However a block is cut, sending its slices in order uploads it, whatever came before:
  // every frame is answered Fine and the last leaves the decoded block at its destination.
  lemma {:induction false} Delivers(u: Upload, s: State, dest: Word, src: seq<Byte>, out: seq<Byte>,
                                    off: nat, slices: seq<seq<Byte>>)
    requires s.phase.Token? && s.out == [] && 0 < |src| < TWO32 && |out| < TWO32
    requires Decode([], src) == Some(out)
    requires slices != [] && [] !in slices && off <= |src| && Concat(slices) == src[off..]
    requires Feedable(u) && Midway(u, s, dest, src, off)
    ensures off + |Concat(slices)| < TWO32
    ensures var rs := Replies(u, Frames(dest, |out|, |src|, off, slices));
      && (forall r :: r in rs ==> r.code == Fine)
      && rs[|rs| - 1].u.base == dest && rs[|rs| - 1].u.stream.out == out && !rs[|rs| - 1].u.active
    decreases |slices|
  {
    hide Run;
    hide Decode;
    hide Receive;
    hide FrameOf;
    hide Midway;
    var slice, h := slices[0], Header(dest, |out|, |src|, off, |slices[0]|);
    var fs := Frames(dest, |out|, |src|, off, slices);
    StreamIsBlock(s, src);
    var rest := Concat(slices[1..]);
    assert src[off..] == slice + rest;
    assert slice == src[off..off + |slice|] && rest == src[off + |slice|..];
    var r := Receive(u, fs[0]);
    SliceTaken(u, s, src, h, slice, out, r);
    assert fs[1..] == Frames(dest, |out|, |src|, off + |slice|, slices[1..]);
    var rs := Replies(u, fs);
    if |slices| > 1 {
      assert slices[1] in slices;
      Delivers(r.u, s, dest, src, out, off + |slice|, slices[1..]);
      assert rs == [r] + Replies(r.u, fs[1..]);
    } else {
      assert rest == [];
      assert rs == [r];
    }
  }

  // --- the monitor's object -----------------------------------------------------------------

  class Monitor {
    var lz: Stream
    var lzConsumed: Word
    var lzActive: bool
    var memWritten: bool

    constructor ()
      ensures !lzActive && fresh(lz)
    {
      lz := new Stream();
      lzConsumed, lzActive, memWritten := 0, false, false;
    }

    ghost function View(mem: array<Byte>): Upload
      reads this, lz, mem
      requires lz.Within(mem)
    {
      Upload(lzActive, lzConsumed, lz.base, lz.View(mem))
    }

    // Nothing outside the output changed.
    ghost predicate Untouched(now: seq<Byte>, was: seq<Byte>, base: nat, end: nat) {
      base <= end <= |now| == |was| && now[..base] == was[..base] && now[end..] == was[end..]
    }

    lemma NothingTouched(mem: seq<Byte>, base: nat, end: nat)
      requires base <= end <= |mem|
      ensures Untouched(mem, mem, base, end)
    {
    }

    lemma StillUntouched(was: seq<Byte>, now: seq<Byte>, later: seq<Byte>, base: nat, end: nat, end': nat)
      requires Untouched(now, was, base, end) && base <= end' <= |later| == |now| && end <= end'
      requires later[..base] == now[..base] && later[end'..] == now[end'..]
      ensures Untouched(later, was, base, end')
    {
      assert now[end'..] == now[end..][end' - end..] == was[end..][end' - end..] == was[end'..];
    }

    // The words arrive through the link; what its checksum says at the end is `f.sumOk`.
    // What is asked is room in memory for what the frame decodes to.
    method StreamWriteMemLz4(mem: array<Byte>, f: Frame) returns (bad: Code)
      requires lz.Within(mem) && Feedable(View(mem))
      requires var r := Receive(View(mem), f); r.u.base + |r.u.stream.out| <= mem.Length
      modifies this, lz, mem
      ensures lz == old(lz) && lz.Within(mem) && memWritten
      ensures Reply(bad, View(mem)) == Receive(old(View(mem)), f)
      ensures Untouched(mem[..], old(mem[..]), lz.base, lz.out)
    {
      hide Run;
      hide Slice;
      hide Closed;
      hide HeaderOf;
      hide Untouched;
      var words := |f.payload|;
      memWritten := true;
      NothingTouched(mem[..], lz.base, lz.out);
      if words < 10 {
        bad := if f.sumOk then BadLength else BadChecksum;
        lzActive := false;
      } else {
        var h := HeaderOf(f);
        words := words - 10;
        bad := Open(mem, h, words);
        NothingTouched(mem[..], lz.base, lz.out);
        if bad == Fine {
          SliceIs(f);
          bad := FeedSlice(mem, f.payload[10..], h.nbytes);
        }
        if !f.sumOk { bad := BadChecksum; }
        if bad == Fine {
          bad := Close(mem, h);
        } else {
          lzActive := false;
        }
      }
    }

    lemma SliceIs(f: Frame)
      requires |f.payload| >= 10 && HeaderOf(f).nbytes <= 2 * (|f.payload| - 10)
      ensures Slice(f) == F.FirstBytes(f.payload[10..], HeaderOf(f).nbytes)
    {
    }

    // The bytes are counted, and at clen the stream must have ended cleanly at rawLen bytes.
    method Close(mem: array<Byte>, h: Header) returns (bad: Code)
      requires lz.Within(mem)
      modifies this, lz
      ensures lz == old(lz) && lz.Within(mem) && memWritten == old(memWritten)
      ensures Reply(bad, View(mem)) == Closed(old(View(mem)), h)
      ensures lz.base == old(lz.base) && lz.out == old(lz.out)
    {
      bad := Fine;
      lzConsumed := (lzConsumed + h.nbytes) % TWO32;
      if lzConsumed == h.clen {
        var rc := lz.EndBlock();
        if rc != Ok || (lz.out - lz.base) % TWO32 != h.rawLen { bad := DecodeError; }
        lzActive := false;
      }
      if bad != Fine { lzActive := false; }
    }

    // The header's part: a stream is opened or continued, or the frame is refused.
    method Open(mem: array<Byte>, h: Header, words: nat) returns (bad: Code)
      requires lz.Within(mem) && (h.off == 0 ==> h.dest <= mem.Length)
      modifies this, lz
      ensures lz == old(lz) && lz.Within(mem) && memWritten == old(memWritten)
      ensures View(mem) == Opened(old(View(mem)), h)
      ensures bad == Objection(View(mem), h, words)
    {
      bad := Fine;
      if h.off == 0 {
        lz.Init(h.dest);
        lzConsumed := 0;
        lzActive := true;
      } else if !lzActive || h.off != lzConsumed {
        bad := BadStateCode;
      }
      if bad == Fine && (h.nbytes > words * 2 || (h.off + h.nbytes) % TWO32 > h.clen) { bad := BadLength; }
    }

    // The slice, byte by byte out of the words, until it ends or the decoder objects.
    method FeedSlice(mem: array<Byte>, words: seq<Half>, nbytes: nat) returns (bad: Code)
      requires lz.Within(mem) && Sound(lz.View(mem)) && nbytes <= 2 * |words|
      requires lz.base + |Run(lz.View(mem), F.FirstBytes(words, nbytes)).s.out| <= mem.Length
      modifies lz, mem
      ensures lz.Within(mem) && lz.base == old(lz.base)
      ensures var fed := Run(old(lz.View(mem)), F.FirstBytes(words, nbytes));
        lz.View(mem) == fed.s && bad == if fed.rc == Ok then Fine else DecodeError
      ensures Untouched(mem[..], old(mem[..]), lz.base, lz.out)
    {
      hide Run;
      hide F.FirstBytes;
      hide Step;
      ghost var s, all := lz.View(mem), F.FirstBytes(words, nbytes);
      ghost var fed := Run(s, all);
      assert all[0..] == all;
      bad := Fine;
      var w := 0;
      while w < |words|
        invariant 0 <= w <= |words|
        invariant lz.Within(mem) && lz.base == old(lz.base)
        invariant Untouched(mem[..], old(mem[..]), lz.base, lz.out)
        invariant bad == Fine || bad == DecodeError
        invariant bad == Fine ==> Sound(lz.View(mem)) && Run(lz.View(mem), all[Least(2 * w, nbytes)..]) == fed
        invariant bad != Fine ==> fed.rc != Ok && lz.View(mem) == fed.s
      {
        if bad == Fine { bad := FeedWord(mem, words, w, nbytes, all, fed, old(mem[..])); }
        w := w + 1;
      }
      assert all[nbytes..] == [];
      if bad == Fine { RunNothing(lz.View(mem), all[nbytes..]); }
    }

    // Low byte then high byte of one word, as far as the slice reaches.
    method FeedWord(mem: array<Byte>, words: seq<Half>, w: nat, nbytes: nat, ghost all: seq<Byte>, ghost fed: Fed,
                    ghost was: seq<Byte>)
      returns (bad: Code)
      requires w < |words| && nbytes <= 2 * |words| && all == F.FirstBytes(words, nbytes)
      requires lz.Within(mem) && Sound(lz.View(mem))
      requires Run(lz.View(mem), all[Least(2 * w, nbytes)..]) == fed
      requires lz.base + |fed.s.out| <= mem.Length && Untouched(mem[..], was, lz.base, lz.out)
      modifies lz, mem
      ensures lz.Within(mem) && lz.base == old(lz.base) && Untouched(mem[..], was, lz.base, lz.out)
      ensures bad == Fine || bad == DecodeError
      ensures bad == Fine ==> Sound(lz.View(mem)) && Run(lz.View(mem), all[Least(2 * w + 2, nbytes)..]) == fed
      ensures bad != Fine ==> fed.rc != Ok && lz.View(mem) == fed.s
    {
      hide Step;
      hide Run;
      bad := Fine;
      var word := words[w];
      var bi := w * 2;
      while bi < w * 2 + 2 && bi < nbytes
        invariant 2 * w <= bi <= 2 * w + 2
        invariant word == if bi == 2 * w then words[w] else if bi == 2 * w + 1 then words[w] / 256 else 0
        invariant lz.Within(mem) && lz.base == old(lz.base) && Untouched(mem[..], was, lz.base, lz.out)
        invariant bad == Fine || bad == DecodeError
        invariant bad == Fine ==> Sound(lz.View(mem)) && Run(lz.View(mem), all[Least(bi, nbytes)..]) == fed
        invariant bad != Fine ==> fed.rc != Ok && lz.View(mem) == fed.s
      {
        if bad == Fine {
          RunFirst(lz.View(mem), all[bi..], fed);
          assert all[bi..][0] == F.ByteAt(words, bi) == word % 256;
          assert all[bi..][1..] == all[bi + 1..];
          ghost var end, now := lz.out, mem[..];
          StepEmits(lz.View(mem), word % 256);
          var rc := lz.Feed(mem, word % 256);
          StillUntouched(was, now, mem[..], lz.base, end, lz.out);
          if rc != Ok { bad := DecodeError; }
        }
        bi, word := bi + 1, word / 256;
      }
    }
  }

  lemma RunFirst(s: State, src: seq<Byte>, fed: Fed)
    requires Sound(s) && src != [] && fed == Run(s, src)
    ensures var f := Step(s, src[0]);
      && |f.s.out| <= |fed.s.out|
      && (if f.rc == Ok then fed == Run(f.s, src[1..]) else fed == f)
  {
    hide Step;
    if Step(s, src[0]).rc == Ok { RunEmits(Step(s, src[0]).s, src[1..]); }
  }
}
