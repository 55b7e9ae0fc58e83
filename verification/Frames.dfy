/**
 * Monitor frames on a byte link: what a sender writes, where a receiver finds a frame in
 * whatever comes, and that a stream of both reads back frame by frame.
 */
module Frames {
  import opened Bits
  import opened Fletcher

  // The largest LEN a byte link takes.
  const MAX_LEN: nat := 4112

  datatype Frame = Frame(kind: Half, payload: seq<Half>)

  // --- words on the link: low byte first ----------------------------------------------------------

  function WordBytes(w: Half): (b: seq<Byte>)
    ensures |b| == 2
  {
    [w % 256, w / 256]
  }

  function Bytes(words: seq<Half>): (b: seq<Byte>)
    ensures |b| == 2 * |words|
  {
    if words == [] then [] else WordBytes(words[0]) + Bytes(words[1..])
  }

  function WordOf(lo: Byte, hi: Byte): Half {
    lo as int + 256 * hi as int
  }

  // A 32-bit value as two words, low half first.
  function Split32(x: Word): (w: seq<Half>)
    ensures |w| == 2
  {
    [x % 0x1_0000, x / 0x1_0000]
  }

  function Join32(lo: Half, hi: Half): Word {
    lo as int + 0x1_0000 * hi as int
  }

  // The first n words of a byte sequence.
  function Words(s: seq<Byte>, n: nat): (w: seq<Half>)
    requires 2 * n <= |s|
    ensures |w| == n
    decreases n, s
  {
    if n == 0 then [] else [WordOf(s[0], s[1])] + Words(s[2..], n - 1)
  }

  lemma {:induction false} WordsRead(words: seq<Half>, rest: seq<Byte>)
    ensures Words(Bytes(words) + rest, |words|) == words
    ensures (Bytes(words) + rest)[2 * |words|..] == rest
    decreases |words|
  {
    if words != [] {
      assert (Bytes(words) + rest)[2..] == Bytes(words[1..]) + rest;
      WordsRead(words[1..], rest);
    }
  }

  lemma {:induction false} BytesAppend(a: seq<Half>, b: seq<Half>)
    ensures Bytes(a + b) == Bytes(a) + Bytes(b)
    decreases |a|
  {
    if a == [] {
      assert a + b == b;
    } else {
      assert (a + b)[1..] == a[1..] + b;
      BytesAppend(a[1..], b);
    }
  }

  // Byte i of the words' bytes, and the first n of them.
  function ByteAt(words: seq<Half>, i: nat): Byte
    requires i < 2 * |words|
  {
    if i % 2 == 0 then words[i / 2] % 256 else words[i / 2] / 256
  }

  function FirstBytes(words: seq<Half>, n: nat): (b: seq<Byte>)
    requires n <= 2 * |words|
    ensures |b| == n
  {
    seq(n, i requires 0 <= i < n => ByteAt(words, i))
  }

  lemma {:induction false} BytesAt(words: seq<Half>, i: nat)
    requires i < 2 * |words|
    ensures Bytes(words)[i] == ByteAt(words, i)
    decreases |words|
  {
    if i >= 2 {
      BytesAt(words[1..], i - 2);
      assert Bytes(words)[i] == Bytes(words[1..])[i - 2];
      assert words[1..][(i - 2) / 2] == words[i / 2];
    }
  }

  // Bytes as words, the last one padded with 0 when they are odd.
  function PackedWords(b: seq<Byte>): (w: seq<Half>)
    ensures |w| == (|b| + 1) / 2
  {
    seq((|b| + 1) / 2, i requires 0 <= i < (|b| + 1) / 2 =>
      b[2 * i] as int + if 2 * i + 1 < |b| then 256 * b[2 * i + 1] as int else 0)
  }

  lemma PackedBytes(b: seq<Byte>)
    ensures FirstBytes(PackedWords(b), |b|) == b
  {
    var w := PackedWords(b);
    forall i | 0 <= i < |b| ensures ByteAt(w, i) == b[i] { }
  }

  // On the wire the packed bytes are themselves, and one 0 where they are odd.
  lemma PackedOnWire(b: seq<Byte>)
    ensures Bytes(PackedWords(b)) == b + if |b| % 2 == 0 then [] else [0]
  {
    hide Bytes;
    hide PackedWords;
    var w, wire := PackedWords(b), Bytes(PackedWords(b));
    forall i | 0 <= i < |wire|
      ensures wire[i] == if i < |b| then b[i] else 0
    {
      BytesAt(w, i);
      PackedAt(b, i);
    }
    assert |wire| == |b| + |b| % 2;
  }

  lemma PackedAt(b: seq<Byte>, i: nat)
    requires i < 2 * |PackedWords(b)|
    ensures ByteAt(PackedWords(b), i) == if i < |b| then b[i] else 0
  {
    assert i == 2 * (i / 2) || i == 2 * (i / 2) + 1;
  }

  // And what is read back as words gives the first bytes of the wire.
  lemma {:induction false} WireBytes(s: seq<Byte>, n: nat)
    requires 2 * n <= |s|
    ensures Bytes(Words(s, n)) == s[..2 * n]
    decreases n
  {
    if n > 0 {
      WireBytes(s[2..], n - 1);
      assert Words(s, n)[1..] == Words(s[2..], n - 1);
    }
  }

  // --- a frame -----------------------------------------------------------------------------------------

  // What the checksum covers.
  function Covered(f: Frame): seq<Half>
    requires |f.payload| < 0x1_0000
  {
    [f.kind, |f.payload|] + f.payload
  }

  // A 0, SYNC, TYPE, LEN, the payload and the checksum, low word first.
  function FrameBytes(f: Frame): seq<Byte>
    requires |f.payload| < 0x1_0000
  {
    [0, 0xaa, 0x55] + Bytes(Covered(f)) + Bytes(Split32(Finish(Sum(FRESH, Covered(f)))))
  }

  // The four bytes that close a frame: low half and high half, each low byte first. The low half
  // is the plain total of the words modulo 65535 and the high half what the second sum left.
  lemma ChecksumOnWire(f: Frame)
    requires |f.payload| < 0x1_0000
    ensures var b, c := FrameBytes(f), Covered(f);
            var n, lo, hi := |b|, Total(c) % M, Weighted(c) % TWO32 % M;
            && n == 3 + 2 * |c| + 4
            && if lo == 0 && hi == 0 then b[n - 4] == b[n - 3] == b[n - 2] == b[n - 1] == 0xff
               else b[n - 4] as nat + 0x100 * b[n - 3] as nat == lo && b[n - 2] as nat + 0x100 * b[n - 1] as nat == hi
  {
    hide Sum;
    hide Total;
    hide Weighted;
    var c := Covered(f);
    SumIsTotals(FRESH, c);
    FirstSumExact(c);
    FinishHalves(Sum(FRESH, c));
    CheckBytes(Finish(Sum(FRESH, c)));
    assert FrameBytes(f) == ([0, 0xaa, 0x55] + Bytes(c)) + Bytes(Split32(Finish(Sum(FRESH, c))));
  }

  lemma CheckBytes(ck: Word)
    ensures var b := Bytes(Split32(ck));
            && b[0] as nat + 0x100 * b[1] as nat == ck % 0x1_0000 && b[2] as nat + 0x100 * b[3] as nat == ck / 0x1_0000
            && (ck == 0xffff_ffff ==> b == [0xff, 0xff, 0xff, 0xff])
  {
    var w := Split32(ck);
    assert w[1..][1..] == [];
    assert Bytes(w) == WordBytes(w[0]) + WordBytes(w[1]);
  }

  // Up to 359 payload words those are the two sums of textbook Fletcher-32.
  lemma ChecksumIsFletcher(f: Frame)
    requires |f.payload| <= 359
    ensures Reduced(0, 0, Covered(f)) == (Total(Covered(f)) % M, Weighted(Covered(f)) % TWO32 % M)
  {
    ShortIsFletcher(Covered(f));
    SumIsTotals(FRESH, Covered(f));
    FirstSumExact(Covered(f));
  }

  lemma TwoWords(s: Sums, a: Half, b: Half)
    ensures Sum(s, [a, b]) == Add(Add(s, a), b) && Bytes([a, b]) == WordBytes(a) + WordBytes(b)
  {
    assert [a, b][1..] == [b];
    assert Bytes([b]) == WordBytes(b);
    assert Sum(Add(s, a), [b]) == Add(Add(s, a), b);
  }

  lemma ThreeWords(s: Sums, a: Half, b: Half, c: Half)
    ensures Sum(s, [a, b, c]) == Add(Add(Add(s, a), b), c)
    ensures Bytes([a, b, c]) == WordBytes(a) + (WordBytes(b) + WordBytes(c))
  {
    assert [a, b, c][1..] == [b, c];
    TwoWords(Add(s, a), b, c);
  }

  // Two frames that monitor/transport.c spells out byte by byte: PING, and PING with the word 1.
  lemma PingFrame()
    ensures FrameBytes(Frame(1, [])) == [0x00, 0xaa, 0x55, 0x01, 0x00, 0x00, 0x00, 0x01, 0x00, 0x02, 0x00]
  {
    hide Sum;
    hide Bytes;
    assert Covered(Frame(1, [])) == [1, 0];
    TwoWords(FRESH, 1, 0);
    assert Split32(0x2_0001) == [1, 2];
    TwoWords(FRESH, 1, 2);
  }

  lemma ConfirmFrame()
    ensures FrameBytes(Frame(1, [1]))
         == [0x00, 0xaa, 0x55, 0x01, 0x00, 0x01, 0x00, 0x01, 0x00, 0x03, 0x00, 0x06, 0x00]
  {
    hide Sum;
    hide Bytes;
    assert Covered(Frame(1, [1])) == [1, 1, 1];
    ThreeWords(FRESH, 1, 1, 1);
    assert Bytes([1, 1, 1]) == [0x01, 0x00, 0x01, 0x00, 0x01, 0x00];
    assert Finish(Sum(FRESH, [1, 1, 1])) == 0x6_0003 && Split32(0x6_0003) == [3, 6];
    TwoWords(FRESH, 3, 6);
    assert Bytes([3, 6]) == [0x03, 0x00, 0x06, 0x00];
  }

  // --- finding a frame ------------------------------------------------------------------------------------

  // A header with the bytes after it and the console bytes dropped on the way, or not yet one.
  datatype Begun = Begun(kind: Half, len: nat, rest: seq<Byte>, dropped: nat) | Blocked

  function Drop(b: Begun): Begun {
    if b.Begun? then b.(dropped := b.dropped + 1) else b
  }

  // A byte outside a frame: a 0 may start one, anything else is console text.
  function Hunt(s: seq<Byte>): (b: Begun)
    ensures b.Begun? ==> b.len <= MAX_LEN && |b.rest| + 7 <= |s|
    decreases |s|, 1
  {
    if s == [] then Blocked
    else if s[0] != 0 then Drop(Hunt(s[1..]))
    else AfterZero(s[1..])
  }

  // A run of 0s is one start. A byte that does not continue SYNC is looked at again, and so is
  // whatever follows a LEN no frame can have.
  function AfterZero(s: seq<Byte>): (b: Begun)
    ensures b.Begun? ==> b.len <= MAX_LEN && |b.rest| + 6 <= |s|
    decreases |s|, 2
  {
    if s == [] then Blocked
    else if s[0] == 0 then AfterZero(s[1..])
    else if s[0] != 0xaa then Hunt(s)
    else if |s| < 2 then Blocked
    else if s[1] != 0x55 then Hunt(s[1..])
    else ReadHeader(s[2..])
  }

  function ReadHeader(s: seq<Byte>): (b: Begun)
    ensures b.Begun? ==> b.len <= MAX_LEN && |b.rest| + 4 <= |s|
    decreases |s|, 3
  {
    if |s| < 4 then Blocked
    else
      var t, l := WordOf(s[0], s[1]), WordOf(s[2], s[3]);
      if l <= MAX_LEN then Begun(t, l, s[4..], 0) else Hunt(s[4..])
  }

  // Text in front of a frame start that holds no 0 is dropped byte for byte.
  lemma {:induction false} TextDropped(text: seq<Byte>, tail: seq<Byte>)
    requires 0 !in text
    ensures var b := Hunt(text + ([0] + tail));
      if AfterZero(tail).Begun? then b == AfterZero(tail).(dropped := AfterZero(tail).dropped + |text|)
      else b == Blocked
    decreases |text|
  {
    hide AfterZero;
    if text == [] {
      assert text + ([0] + tail) == [0] + tail;
      assert ([0] + tail)[1..] == tail;
    } else {
      assert (text + ([0] + tail))[1..] == text[1..] + ([0] + tail);
      TextDropped(text[1..], tail);
    }
  }

  // A frame may announce 4112 words and no more; a larger LEN is noise.
  lemma LimitIs(kind: Half, len: Half, more: seq<Byte>)
    ensures ReadHeader(WordBytes(kind) + WordBytes(len) + more)
         == if len <= 4112 then Begun(kind, len, more, 0) else Hunt(more)
  {
    var s := WordBytes(kind) + WordBytes(len) + more;
    assert s[4..] == more;
  }

  // --- where that is --------------------------------------------------------------------------------------

  predicate StartAt(s: seq<Byte>, i: nat) {
    i + 2 < |s| && s[i] == 0 && s[i + 1] == 0xaa && s[i + 2] == 0x55
  }

  // Text that holds no 0, AA, 55 passes for text.
  ghost predicate Plain(text: seq<Byte>) {
    forall i: nat :: i < |text| ==> !StartAt(text, i)
  }

  ghost predicate FirstAt(s: seq<Byte>, i: nat) {
    StartAt(s, i) && forall j: nat :: j < i ==> !StartAt(s, j)
  }

  // Whatever the bytes are, the hunt stops at the first 0, AA, 55 and nowhere else.
  lemma {:induction false} HuntFinds(s: seq<Byte>, i: nat)
    requires FirstAt(s, i)
    ensures Hunt(s).Begun? <==> ReadHeader(s[i + 3..]).Begun?
    ensures Hunt(s).Begun? ==> Hunt(s) == ReadHeader(s[i + 3..]).(dropped := Hunt(s).dropped)
    decreases |s|, 1
  {
    if i == 0 {
      assert s[1..][2..] == s[3..];
    } else if s[0] != 0 {
      ShiftStart(s, i, 1);
      HuntFinds(s[1..], i - 1);
      assert s[1..][i + 2..] == s[i + 3..];
    } else {
      AfterZeroFinds(s, i);
    }
  }

  lemma {:induction false} AfterZeroFinds(s: seq<Byte>, i: nat)
    requires |s| > 0 && s[0] == 0 && i > 0
    requires FirstAt(s, i)
    ensures AfterZero(s[1..]).Begun? <==> ReadHeader(s[i + 3..]).Begun?
    ensures AfterZero(s[1..]).Begun? ==>
      AfterZero(s[1..]) == ReadHeader(s[i + 3..]).(dropped := AfterZero(s[1..]).dropped)
    decreases |s|, 0
  {
    ShiftStart(s, i, 1);
    var u := s[1..];
    assert u[i + 2..] == s[i + 3..];
    if u[0] == 0 {
      HuntFinds(u, i - 1);
    } else if u[0] != 0xaa {
      HuntFinds(u, i - 1);
    } else {
      assert !StartAt(s, 0);
      assert i >= 2;
      ShiftStart(s, i, 2);
      assert u[1..] == s[2..];
      HuntFinds(s[2..], i - 2);
      assert s[2..][i + 1..] == s[i + 3..];
    }
  }

  lemma ShiftStart(s: seq<Byte>, i: nat, k: nat)
    requires k <= i && FirstAt(s, i)
    ensures FirstAt(s[k..], i - k)
  {
    forall j: nat | j < i - k
      ensures !StartAt(s[k..], j)
    {
      assert !StartAt(s, j + k);
    }
  }

  // Without one it never stops.
  lemma {:induction false} HuntBlocks(s: seq<Byte>)
    requires Plain(s)
    ensures Hunt(s) == Blocked
    decreases |s|
  {
    if s != [] {
      PlainTail(s);
      HuntBlocks(s[1..]);
      if s[0] == 0 && s[1..] != [] && s[1] == 0xaa {
        PlainTail(s[1..]);
        assert s[1..][1..] == s[2..];
        HuntBlocks(s[2..]);
        assert !StartAt(s, 0);
      }
    }
  }

  lemma PlainTail(s: seq<Byte>)
    requires Plain(s) && s != []
    ensures Plain(s[1..])
  {
    forall i: nat | i < |s[1..]|
      ensures !StartAt(s[1..], i)
    {
      assert s[i + 1] == s[1..][i];
      assert !StartAt(s, i + 1);
    }
  }

  // --- receiving --------------------------------------------------------------------------------------------

  datatype Received = Received(f: Frame) | TooLong | BadSum
  // What one receive answers and what is left on the link, or a receive that waits for more.
  datatype Outcome = Outcome(r: Received, rest: seq<Byte>) | Waiting

  function Receive(s: seq<Byte>, maxLen: nat): (o: Outcome)
    ensures o.Outcome? ==> |o.rest| < |s|
  {
    var b := Hunt(s);
    if b.Blocked? || |b.rest| < 2 * b.len + 4 then Waiting
    else
      var words, ck := Words(b.rest, b.len), Words(b.rest[2 * b.len..], 2);
      Outcome(Judge(b.kind, b.len, words, ck, maxLen), b.rest[2 * b.len + 4..])
  }

  function Judge(kind: Half, len: Half, words: seq<Half>, ck: seq<Half>, maxLen: nat): Received
    requires |words| == len && |ck| == 2
  {
    if len > maxLen then TooLong
    else if ck == Split32(Finish(Sum(FRESH, [kind, len] + words))) then Received(Frame(kind, words))
    else BadSum
  }

  // Receive over and over, until nothing more comes of the bytes.
  function ReceiveAll(s: seq<Byte>, maxLen: nat): seq<Received>
    decreases |s|
  {
    var o := Receive(s, maxLen);
    if o.Waiting? then [] else [o.r] + ReceiveAll(o.rest, maxLen)
  }

  // Text before a frame: the frame's own start is the first.
  lemma TextThenStart(text: seq<Byte>, tail: seq<Byte>)
    requires Plain(text)
    ensures FirstAt(text + ([0, 0xaa, 0x55] + tail), |text|)
  {
    var s := text + ([0, 0xaa, 0x55] + tail);
    assert s[|text|] == 0 && s[|text| + 1] == 0xaa && s[|text| + 2] == 0x55;
    forall j: nat | j < |text|
      ensures !StartAt(s, j)
    {
      if j + 2 < |text| { assert !StartAt(text, j); }
    }
  }

  // Any covered words with a fitting LEN are read as they are, and the reader ends behind them.
  lemma CoveredReads(text: seq<Byte>, c: seq<Half>, ck: seq<Half>, rest: seq<Byte>, maxLen: nat)
    requires Plain(text) && |c| >= 2 && c[1] == |c| - 2 && c[1] <= MAX_LEN && |ck| == 2
    ensures Receive(text + ([0, 0xaa, 0x55] + (Bytes(c) + (Bytes(ck) + rest))), maxLen)
         == Outcome(Judge(c[0], c[1], c[2..], ck, maxLen), rest)
  {
    hide Hunt;
    hide Judge;
    hide ReadHeader;
    hide Bytes;
    hide Words;
    hide Plain;
    var tail, s := Bytes(c) + (Bytes(ck) + rest), text + ([0, 0xaa, 0x55] + (Bytes(c) + (Bytes(ck) + rest)));
    TextThenStart(text, tail);
    HuntFinds(s, |text|);
    assert s[|text| + 3..] == tail;
    HeaderReads(c, Bytes(ck) + rest);
    assert Bytes(c) + (Bytes(ck) + rest) == tail;
    BodyReads(c[2..], ck, rest);
  }

  lemma BodyReads(payload: seq<Half>, ck: seq<Half>, rest: seq<Byte>)
    requires |ck| == 2
    ensures var s := Bytes(payload) + (Bytes(ck) + rest);
      && |s| >= 2 * |payload| + 4 && Words(s, |payload|) == payload
      && Words(s[2 * |payload|..], 2) == ck && s[2 * |payload| + 4..] == rest
  {
    hide Bytes;
    hide Words;
    var s := Bytes(payload) + (Bytes(ck) + rest);
    WordsRead(payload, Bytes(ck) + rest);
    WordsRead(ck, rest);
    assert s[2 * |payload| + 4..] == s[2 * |payload|..][4..];
  }

  lemma HeaderReads(c: seq<Half>, more: seq<Byte>)
    requires |c| >= 2 && c[1] <= MAX_LEN
    ensures ReadHeader(Bytes(c) + more) == Begun(c[0], c[1], Bytes(c[2..]) + more, 0)
  {
    assert c[1..][1..] == c[2..];
    assert Bytes(c) == WordBytes(c[0]) + (WordBytes(c[1]) + Bytes(c[2..]));
    var s := Bytes(c) + more;
    assert s[4..] == Bytes(c[2..]) + more;
    assert WordOf(s[0], s[1]) == c[0] && WordOf(s[2], s[3]) == c[1];
  }

  // A sent frame is received, behind any text and before anything else; one that is longer than
  // the caller's buffer is drained. Either way the reader is left at the frame's end.
  lemma FrameReads(text: seq<Byte>, f: Frame, rest: seq<Byte>, maxLen: nat)
    requires Plain(text) && |f.payload| <= MAX_LEN
    ensures Receive(text + (FrameBytes(f) + rest), maxLen)
         == Outcome(if |f.payload| <= maxLen then Received(f) else TooLong, rest)
  {
    var c, ck := Covered(f), Split32(Finish(Sum(FRESH, Covered(f))));
    CoveredReads(text, c, ck, rest, maxLen);
    assert c[2..] == f.payload;
    assert FrameBytes(f) + rest == [0, 0xaa, 0x55] + (Bytes(c) + (Bytes(ck) + rest));
  }

  // Console text and a frame behind it.
  datatype Item = Item(text: seq<Byte>, f: Frame)

  predicate Sendable(i: Item) {
    |i.f.payload| <= MAX_LEN
  }

  function Stream(items: seq<Item>, tail: seq<Byte>): seq<Byte>
    requires forall i :: i in items ==> Sendable(i)
    decreases |items|
  {
    if items == [] then tail
    else (
      assert Sendable(items[0]);
      items[0].text + (FrameBytes(items[0].f) + Stream(items[1..], tail)))
  }

  function Answers(items: seq<Item>, maxLen: nat): (r: seq<Received>)
    decreases |items|
  {
    if items == [] then []
    else [if |items[0].f.payload| <= maxLen then Received(items[0].f) else TooLong] + Answers(items[1..], maxLen)
  }

  // Whatever frames are sent and whatever plain text lies between them, receiving over and over
  // gives exactly those frames, in order.
  lemma {:induction false} StreamReads(items: seq<Item>, tail: seq<Byte>, maxLen: nat)
    requires forall i :: i in items ==> Sendable(i) && Plain(i.text)
    requires Plain(tail)
    ensures ReceiveAll(Stream(items, tail), maxLen) == Answers(items, maxLen)
    decreases |items|
  {
    if items == [] {
      HuntBlocks(tail);
    } else {
      StreamReads(items[1..], tail, maxLen);
      FrameReads(items[0].text, items[0].f, Stream(items[1..], tail), maxLen);
    }
  }

  // --- damage ---------------------------------------------------------------------------------------------------

  // A frame whose TYPE or one payload word arrives as w.
  function Damaged(f: Frame, k: nat, w: Half): seq<Byte>
    requires |f.payload| < 0x1_0000 && k < |f.payload| + 2
  {
    [0, 0xaa, 0x55] + (Bytes(Covered(f)[k := w]) + Bytes(Split32(Finish(Sum(FRESH, Covered(f))))))
  }

  lemma Split32Injective(a: Word, b: Word)
    ensures Split32(a) == Split32(b) <==> a == b
  {
    if Split32(a) == Split32(b) {
      assert Split32(a)[0] == Split32(b)[0] && Split32(a)[1] == Split32(b)[1];
    }
  }

  // What the receiver makes of a damaged frame: the reader is left at its end all the same.
  lemma DamagedReads(text: seq<Byte>, f: Frame, k: nat, w: Half, rest: seq<Byte>, maxLen: nat)
    requires Plain(text) && |f.payload| <= MAX_LEN && |f.payload| <= maxLen && k < |f.payload| + 2 && k != 1
    ensures var o := Receive(text + (Damaged(f, k, w) + rest), maxLen);
      o.Outcome? && o.rest == rest
      && (o.r == BadSum <==> Finish(Sum(FRESH, Covered(f)[k := w])) != Finish(Sum(FRESH, Covered(f))))
  {
    var c, ck := Covered(f)[k := w], Split32(Finish(Sum(FRESH, Covered(f))));
    CoveredReads(text, c, ck, rest, maxLen);
    assert Damaged(f, k, w) + rest == [0, 0xaa, 0x55] + (Bytes(c) + (Bytes(ck) + rest));
    assert [c[0], c[1]] + c[2..] == c;
    Split32Injective(Finish(Sum(FRESH, c)), Finish(Sum(FRESH, Covered(f))));
  }

  // A word changed to one that is not congruent modulo 65535 is always caught.
  lemma DamageShows(text: seq<Byte>, f: Frame, k: nat, w: Half, rest: seq<Byte>, maxLen: nat)
    requires Plain(text) && |f.payload| <= MAX_LEN && |f.payload| <= maxLen && k < |f.payload| + 2 && k != 1
    requires w % M != Covered(f)[k] % M
    ensures Receive(text + (Damaged(f, k, w) + rest), maxLen) == Outcome(BadSum, rest)
  {
    DamagedReads(text, f, k, w, rest, maxLen);
    ChangeShows(Covered(f), k, w);
  }

  // In a frame too short to wrap the second sum, nothing else is: 0 for FFFF passes.
  lemma DamageShowsIff(text: seq<Byte>, f: Frame, k: nat, w: Half, rest: seq<Byte>, maxLen: nat)
    requires Plain(text) && |f.payload| + 2 <= 361 && |f.payload| <= maxLen && k < |f.payload| + 2 && k != 1
    ensures Receive(text + (Damaged(f, k, w) + rest), maxLen).Outcome?
    ensures Receive(text + (Damaged(f, k, w) + rest), maxLen).r == BadSum <==> w % M != Covered(f)[k] % M
  {
    DamagedReads(text, f, k, w, rest, maxLen);
    if w % M != Covered(f)[k] % M {
      ChangeShows(Covered(f), k, w);
    } else {
      CongruentPasses(Covered(f), k, w);
    }
  }
}
