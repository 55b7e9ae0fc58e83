/** The monitor's READ_MEM and WRITE_MEM on top of the transport: chunks out, bytes in. */
module MonitorMemory {
  import opened Bits
  import opened Fletcher
  import opened Frames
  import T = Transport

  const MON_DATA: Half := 0x41
  const CHUNK: nat := 8192

  // A DATA frame: how many bytes it carries, and the bytes.
  function DataFrame(chunk: seq<Byte>): (f: Frame)
    requires |chunk| <= CHUNK
    ensures |f.payload| == 2 + (|chunk| + 1) / 2
  {
    Frame(MON_DATA, Split32(|chunk|) + PackedWords(chunk))
  }

  // What is sent for a READ_MEM of `data`: at least one frame, each of at most a chunk.
  function DataFrames(data: seq<Byte>): (fs: seq<Frame>)
    ensures |fs| > 0 && forall f :: f in fs ==> |f.payload| <= 2 + CHUNK / 2
    decreases |data|
  {
    if |data| <= CHUNK then [DataFrame(data)] else [DataFrame(data[..CHUNK])] + DataFrames(data[CHUNK..])
  }

  // The bytes a host takes from a DATA frame, and from a run of them.
  function CarriedBytes(f: Frame): seq<Byte> {
    if |f.payload| < 2 || Join32(f.payload[0], f.payload[1]) > 2 * (|f.payload| - 2) then []
    else FirstBytes(f.payload[2..], Join32(f.payload[0], f.payload[1]))
  }

  function AllCarried(rs: seq<Received>): seq<Byte> {
    if rs == [] then []
    else (if rs[0].Received? then CarriedBytes(rs[0].f) else []) + AllCarried(rs[1..])
  }

  lemma DataFrameCarries(chunk: seq<Byte>)
    requires |chunk| <= CHUNK
    ensures CarriedBytes(DataFrame(chunk)) == chunk
  {
    var p := DataFrame(chunk).payload;
    assert p[2..] == PackedWords(chunk);
    PackedBytes(chunk);
  }

  // A DATA frame of one byte, and how many frames a read takes.
  lemma OneByteFrame()
    ensures DataFrame([7]) == Frame(0x41, [1, 0, 7])
  {
    assert Split32(1) == [1, 0];
    assert PackedWords([7]) == [7];
  }

  lemma {:induction false} FrameCount(data: seq<Byte>)
    ensures |DataFrames(data)| == if data == [] then 1 else (|data| + 8191) / 8192
    decreases |data|
  {
    if |data| > CHUNK { FrameCount(data[CHUNK..]); }
  }

  function SentFrames(fs: seq<Frame>): seq<Byte>
    requires forall f :: f in fs ==> |f.payload| < 0x1_0000
  {
    if fs == [] then [] else FrameBytes(fs[0]) + SentFrames(fs[1..])
  }

  function AsItems(fs: seq<Frame>): (items: seq<Item>)
    ensures |items| == |fs| && forall i :: 0 <= i < |fs| ==> items[i] == Item([], fs[i])
  {
    seq(|fs|, i requires 0 <= i < |fs| => Item([], fs[i]))
  }

  lemma {:induction false} SentIsStream(fs: seq<Frame>)
    requires forall f :: f in fs ==> |f.payload| <= MAX_LEN
    ensures (forall i :: i in AsItems(fs) ==> Sendable(i)) && SentFrames(fs) == Stream(AsItems(fs), [])
    decreases |fs|
  {
    if fs != [] {
      SentIsStream(fs[1..]);
      assert AsItems(fs)[1..] == AsItems(fs[1..]);
      assert [] + (FrameBytes(fs[0]) + SentFrames(fs[1..])) == FrameBytes(fs[0]) + SentFrames(fs[1..]);
    }
  }

  lemma {:induction false} AnswersCarry(data: seq<Byte>)
    ensures AllCarried(Answers(AsItems(DataFrames(data)), MAX_LEN)) == data
    decreases |data|
  {
    var fs := DataFrames(data);
    var items := AsItems(fs);
    var rs := Answers(items, MAX_LEN);
    assert rs[0] == Received(fs[0]);
    if |data| <= CHUNK {
      DataFrameCarries(data);
      assert AllCarried(rs[1..]) == [];
    } else {
      DataFrameCarries(data[..CHUNK]);
      AnswersCarry(data[CHUNK..]);
      assert items[1..] == AsItems(fs[1..]);
      assert rs[1..] == Answers(items[1..], MAX_LEN);
    }
  }

  // However much is read, receiving what was sent and putting the frames' bytes together gives
  // the memory that was read.
  lemma ReadBack(data: seq<Byte>)
    ensures AllCarried(ReceiveAll(SentFrames(DataFrames(data)), MAX_LEN)) == data
  {
    var fs := DataFrames(data);
    SentIsStream(fs);
    StreamReads(AsItems(fs), [], MAX_LEN);
    AnswersCarry(data);
  }

  // READ_MEM of `data`, the memory from addr on.
  method ReadMem(link: T.Transport, data: seq<Byte>)
    requires |data| < TWO32
    modifies link
    ensures link.tx == old(link.tx) + SentFrames(DataFrames(data))
  {
    hide SentFrames;
    hide DataFrames;
    hide FrameBytes;
    var off, more := 0, true;
    ghost var fs: seq<Frame> := [];
    NothingSent(data);
    while more
      invariant 0 <= off <= |data|
      invariant forall f :: f in fs ==> |f.payload| <= 2 + CHUNK / 2
      invariant link.tx == old(link.tx) + SentFrames(fs)
      invariant if more then fs + DataFrames(data[off..]) == DataFrames(data) else fs == DataFrames(data)
      decreases more, |data| - off
    {
      var chunk := |data| - off;
      if chunk > CHUNK { chunk := CHUNK; }
      SendData(link, data[off..off + chunk]);
      NextChunk(data, off, chunk, fs);
      fs := fs + [DataFrame(data[off..off + chunk])];
      off := off + chunk;
      more := off < |data|;
    }
  }

  method SendData(link: T.Transport, chunk: seq<Byte>)
    requires |chunk| <= CHUNK
    modifies link
    ensures link.tx == old(link.tx) + FrameBytes(DataFrame(chunk))
  {
    hide Sum;
    hide Bytes;
    hide Covered;
    hide Split32;
    hide Finish;
    hide Add;
    var words := (|chunk| + 1) / 2;
    link.SendBegin(MON_DATA, 2 + words);
    link.SendWord(|chunk| % 0x1_0000);
    link.SendWord(|chunk| / 0x1_0000);
    link.SendBytes(chunk);
    link.SendEnd();
    DataSent(chunk);
  }

  lemma DataSent(chunk: seq<Byte>)
    requires |chunk| <= CHUNK
    ensures var n, w := |chunk|, PackedWords(chunk);
      var head := [MON_DATA, 2 + (n + 1) / 2];
      && Covered(DataFrame(chunk)) == head + Split32(n) + w
      && Sum(FRESH, Covered(DataFrame(chunk))) == Sum(Add(Add(Sum(FRESH, head), n % 0x1_0000), n / 0x1_0000), w)
      && Bytes(Covered(DataFrame(chunk))) == Bytes(head) + WordBytes(n % 0x1_0000) + WordBytes(n / 0x1_0000) + Bytes(w)
  {
    var n, w := |chunk|, PackedWords(chunk);
    var head: seq<Half> := [MON_DATA, 2 + (n + 1) / 2];
    var c := head + Split32(n);
    assert Covered(DataFrame(chunk)) == c + w;
    SumAppends(FRESH, c, w);
    SumAppends(FRESH, head, Split32(n));
    TwoWords(Sum(FRESH, head), n % 0x1_0000, n / 0x1_0000);
    BytesAppend(c, w);
    BytesAppend(head, Split32(n));
  }

  lemma NothingSent(data: seq<Byte>)
    ensures SentFrames([]) == [] && [] + DataFrames(data[0..]) == DataFrames(data)
  {
    assert data[0..] == data;
  }

  lemma NextChunk(data: seq<Byte>, off: nat, chunk: nat, fs: seq<Frame>)
    requires off + chunk <= |data| && chunk == if |data| - off > CHUNK then CHUNK else |data| - off
    requires fs + DataFrames(data[off..]) == DataFrames(data)
    requires forall f :: f in fs ==> |f.payload| <= 2 + CHUNK / 2
    ensures var next := fs + [DataFrame(data[off..off + chunk])];
      && SentFrames(next) == SentFrames(fs) + FrameBytes(DataFrame(data[off..off + chunk]))
      && if off + chunk < |data| then next + DataFrames(data[off + chunk..]) == DataFrames(data)
         else next == DataFrames(data)
  {
    hide FrameBytes;
    hide DataFrame;
    SentSnoc(fs, DataFrame(data[off..off + chunk]));
    var rest := data[off..];
    assert rest[..chunk] == data[off..off + chunk];
    if |rest| > CHUNK {
      assert rest[CHUNK..] == data[off + chunk..];
    } else {
      assert rest == data[off..off + chunk];
    }
  }

  lemma {:induction false} SentSnoc(fs: seq<Frame>, f: Frame)
    requires (forall g :: g in fs ==> |g.payload| < 0x1_0000) && |f.payload| < 0x1_0000
    ensures SentFrames(fs + [f]) == SentFrames(fs) + FrameBytes(f)
    decreases |fs|
  {
    if fs == [] {
      assert [f][1..] == [];
    } else {
      assert (fs + [f])[1..] == fs[1..] + [f];
      SentSnoc(fs[1..], f);
    }
  }

  datatype WriteReply = Acked | BadLen | BadSumReply

  // WRITE_MEM, called with TYPE and LEN consumed: the bytes go straight to memory as they arrive,
  // so a bad checksum is found when they are already there.
  method StreamWriteMem(link: T.Transport, mem: array<Byte>, frameWords: nat) returns (r: WriteReply)
    requires |link.rx| >= 2 * frameWords + 4
    requires frameWords >= 4 ==>
      var h := Words(link.rx, 4);
      Join32(h[0], h[1]) + Least(Join32(h[2], h[3]), 2 * (frameWords - 4)) <= mem.Length
    modifies link, mem
    ensures link.rx == old(link.rx)[2 * frameWords + 4..]
    ensures frameWords < 4 ==> r == BadLen && mem[..] == old(mem[..])
    ensures frameWords >= 4 ==>
      var s := old(link.rx);
      var h := Words(s, 4);
      var addr, n := Join32(h[0], h[1]), Least(Join32(h[2], h[3]), 2 * (frameWords - 4));
      && T.Stored(mem[..], old(mem[..]), s[8..], addr, n)
      && r == if Words(s[2 * frameWords..], 2) == Split32(Finish(Sum(old(link.Seen()), Words(s, frameWords))))
              then Acked else BadSumReply
  {
    hide Split32;
    hide Finish;
    hide Add;
    hide Sum;
    ghost var s, seen := link.rx, link.Seen();
    if frameWords < 4 {
      link.DrainWords(frameWords);
      var ignored := link.RecvEnd();
      assert s[2 * frameWords..][4..] == s[2 * frameWords + 4..];
      return BadLen;
    }
    var addr, nbytes := RecvTwo(link);
    assert s[8..][..2 * (frameWords - 4)] == s[8..2 * frameWords];
    link.RecvBytes(mem, addr, nbytes, frameWords - 4);
    WordsSplit(s, 4, frameWords);
    SumAppends(seen, Words(s, 4), Words(s[8..], frameWords - 4));
    assert s[8..][2 * (frameWords - 4)..] == s[2 * frameWords..];
    var rc := link.RecvEnd();
    assert s[2 * frameWords..][4..] == s[2 * frameWords + 4..];
    r := if rc == T.OkStatus then Acked else BadSumReply;
  }

  // Two 32-bit words off the payload, low half first.
  method RecvTwo(link: T.Transport) returns (a: Word, b: Word)
    requires |link.rx| >= 8
    modifies link
    ensures link.rx == old(link.rx)[8..]
    ensures var h := Words(old(link.rx), 4); a == Join32(h[0], h[1]) && b == Join32(h[2], h[3])
    ensures link.Seen() == Sum(old(link.Seen()), Words(old(link.rx), 4))
  {
    hide Add;
    ghost var s, seen := link.rx, link.Seen();
    var w0 := link.RecvWord();
    var w1 := link.RecvWord();
    var w2 := link.RecvWord();
    var w3 := link.RecvWord();
    FourWords(s, seen, w0, w1, w2, w3);
    a, b := Join32(w0, w1), Join32(w2, w3);
  }

  lemma FourWords(s: seq<Byte>, seen: Sums, w0: Half, w1: Half, w2: Half, w3: Half)
    requires |s| >= 8 && w0 == WordOf(s[0], s[1]) && w1 == WordOf(s[2], s[3])
    requires w2 == WordOf(s[4], s[5]) && w3 == WordOf(s[6], s[7])
    ensures Words(s, 4) == [w0, w1, w2, w3]
    ensures Sum(seen, Words(s, 4)) == Add(Add(Add(Add(seen, w0), w1), w2), w3)
    ensures s[2..][2..][2..][2..] == s[8..]
  {
    hide Add;
    T.WordsSnoc(s, 0);
    T.WordsSnoc(s, 1);
    T.WordsSnoc(s, 2);
    T.WordsSnoc(s, 3);
    SumAppends(seen, [w0, w1], [w2, w3]);
    TwoWords(seen, w0, w1);
    TwoWords(Sum(seen, [w0, w1]), w2, w3);
    assert [w0, w1, w2, w3] == [w0, w1] + [w2, w3];
  }

  lemma {:induction false} WordsSplit(s: seq<Byte>, i: nat, n: nat)
    requires i <= n && 2 * n <= |s|
    ensures Words(s, n) == Words(s, i) + Words(s[2 * i..], n - i)
    decreases n, i
  {
    if i > 0 {
      WordsSplit(s[2..], i - 1, n - 1);
      assert s[2..][2 * (i - 1)..] == s[2 * i..];
    }
  }
}
