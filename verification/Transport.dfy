/** The monitor's transport over a byte link: both accumulator pairs, the streaming calls, the resync. */
module Transport {
  import opened Bits
  import opened Fletcher
  import opened Frames

  datatype Status = OkStatus | BadLength | BadChecksum

  // A count of dropped bytes on top of what a hunt drops.
  function Plus(b: Begun, d: nat): Begun {
    if b.Begun? then b.(dropped := b.dropped + d) else b
  }

  class Transport {
    var txS1: Word
    var txS2: Word
    var rxS1: Word
    var rxS2: Word
    // What went out on the link, and what is still to come in.
    var tx: seq<Byte>
    var rx: seq<Byte>
    var consoleDropped: Word

    constructor (incoming: seq<Byte>)
      ensures tx == [] && rx == incoming && consoleDropped == 0
    {
      txS1, txS2, rxS1, rxS2 := 0, 0, 0, 0;
      tx, rx, consoleDropped := [], incoming, 0;
    }

    function Sent(): Sums
      reads this
    {
      Sums(txS1, txS2)
    }

    function Seen(): Sums
      reads this
    {
      Sums(rxS1, rxS2)
    }

    // --- sending ----------------------------------------------------------------------------------

    method SendWord(w: Half)
      modifies `tx, `txS1, `txS2
      ensures tx == old(tx) + WordBytes(w) && Sent() == Add(old(Sent()), w)
    {
      tx := tx + [w % 256];
      tx := tx + [w / 256];
      txS1 := (txS1 + w) % TWO32;
      txS2 := (txS2 + txS1) % TWO32;
    }

    method SendBegin(kind: Half, len: Half)
      modifies `tx, `txS1, `txS2
      ensures tx == old(tx) + ([0, 0xaa, 0x55] + Bytes([kind, len])) && Sent() == Sum(FRESH, [kind, len])
    {
      txS1, txS2 := 0, 0;
      tx := tx + [0];
      tx := tx + [0x55aa % 256];
      tx := tx + [0x55aa / 256];
      SendWord(kind);
      SendWord(len);
      TwoWords(FRESH, kind, len);
    }

    // The bytes as words, low byte first, the last one padded.
    method SendBytes(src: seq<Byte>)
      modifies `tx, `txS1, `txS2
      ensures tx == old(tx) + Bytes(PackedWords(src)) && Sent() == Sum(old(Sent()), PackedWords(src))
    {
      hide Bytes;
      hide Sum;
      hide Add;
      ghost var words, seen, sent := PackedWords(src), Sent(), tx;
      NoWords(seen, []);
      assert words[..0] == [] && sent + [] == sent;
      var i, full := 0, |src| / 2;
      while i < full
        invariant 0 <= i <= full
        invariant tx == sent + Bytes(words[..i]) && Sent() == Sum(seen, words[..i])
      {
        var w := WordOf(src[2 * i], src[2 * i + 1]);
        OneMore(seen, words[..i], w);
        assert words[..i + 1] == words[..i] + [w];
        SendWord(w);
        i := i + 1;
      }
      if |src| % 2 == 1 {
        OneMore(seen, words[..i], src[2 * i]);
        assert words == words[..i] + [src[2 * i] as Half];
        SendWord(src[2 * i]);
      } else {
        assert words[..i] == words;
      }
    }

    method SendEnd()
      modifies `tx
      ensures tx == old(tx) + Bytes(Split32(Finish(Sent())))
    {
      var ck := Finish(Sent());
      tx := tx + [ck % 0x1_0000 % 256] + [ck % 0x1_0000 / 256];
      tx := tx + [ck / 0x1_0000 % 256] + [ck / 0x1_0000 / 256];
      assert Split32(ck)[1..] == [ck / 0x1_0000];
    }

    method SendFrame(kind: Half, payload: seq<Half>)
      requires |payload| < 0x1_0000
      modifies `tx, `txS1, `txS2
      ensures tx == old(tx) + FrameBytes(Frame(kind, payload))
    {
      hide Finish;
      hide Add;
      hide Sum;
      hide Bytes;
      NoWords(FRESH, []);
      SendBegin(kind, |payload|);
      ghost var head := tx;
      assert [kind, |payload|] + payload[..0] == [kind, |payload|] && payload[..0] == [];
      var i := 0;
      while i < |payload|
        invariant 0 <= i <= |payload|
        invariant tx == head + Bytes(payload[..i])
        invariant Sent() == Sum(FRESH, [kind, |payload|] + payload[..i])
      {
        PayloadStep([kind, |payload|], payload, i);
        SendWord(payload[i]);
        i := i + 1;
      }
      assert payload[..i] == payload;
      BytesAppend([kind, |payload|], payload);
      SendEnd();
    }

    // --- receiving --------------------------------------------------------------------------------

    // The link blocks while nothing comes, so a call is made only where something will.
    method GetByte() returns (b: Byte)
      requires rx != []
      modifies `rx
      ensures [b] + rx == old(rx)
    {
      b := rx[0];
      rx := rx[1..];
    }

    method GetWord() returns (w: Half)
      requires |rx| >= 2
      modifies `rx
      ensures w == WordOf(old(rx)[0], old(rx)[1]) && rx == old(rx)[2..]
    {
      var lo := GetByte();
      var hi := GetByte();
      w := WordOf(lo, hi);
    }

    method RecvWord() returns (w: Half)
      requires |rx| >= 2
      modifies `rx, `rxS1, `rxS2
      ensures w == WordOf(old(rx)[0], old(rx)[1]) && rx == old(rx)[2..]
      ensures Seen() == Add(old(Seen()), w)
    {
      hide WordOf;
      w := GetWord();
      rxS1 := (rxS1 + w) % TWO32;
      rxS2 := (rxS2 + rxS1) % TWO32;
    }

    // Behind a 0: the header of a frame, or the byte that turned out to be something else.
    method TryStart() returns (found: bool, kind: Half, len: Half, b: Byte)
      requires AfterZero(rx).Begun?
      modifies `rx
      ensures found ==> AfterZero(old(rx)) == Begun(kind, len, rx, 0)
      ensures !found ==> Hunt([b] + rx) == AfterZero(old(rx)) && |rx| < |old(rx)|
    {
      hide Hunt;
      hide AfterZero;
      ghost var goal := AfterZero(rx);
      found, kind, len := false, 0, 0;
      AfterZeroEmpty(rx);
      b := GetByte();
      while b == 0
        invariant AfterZero([b] + rx) == goal && |rx| < |old(rx)|
        decreases |rx|
      {
        AfterZeroStep(b, rx);
        AfterZeroEmpty(rx);
        b := GetByte();
      }
      AfterZeroStep(b, rx);
      if b != 0xaa { return; }
      b := GetByte();
      if b != 0x55 { return; }
      kind := GetWord();
      len := GetWord();
      if len <= MAX_LEN { return true, kind, len, b; }
      HuntEmpty(rx);
      b := GetByte();
    }

    // Hunts for a frame start, dropping and counting what is console text.
    method RecvBegin() returns (kind: Half, len: Half)
      requires Hunt(rx).Begun?
      modifies `rx, `rxS1, `rxS2, `consoleDropped
      ensures Hunt(old(rx)) == Begun(kind, len, rx, Hunt(old(rx)).dropped)
      ensures consoleDropped == (old(consoleDropped) + Hunt(old(rx)).dropped) % TWO32
      ensures Seen() == Sum(FRESH, [kind, len])
    {
      hide Hunt;
      hide AfterZero;
      ghost var goal, d: nat, start: nat := Hunt(rx), 0, consoleDropped;
      HuntEmpty(rx);
      var b := GetByte();
      var found := false;
      kind, len := 0, 0;
      while !found
        invariant consoleDropped == (start + d) % TWO32
        invariant !found ==> Plus(Hunt([b] + rx), d) == goal
        invariant found ==> goal == Begun(kind, len, rx, d)
        decreases !found, |rx|
      {
        HuntStep(b, rx);
        if b != 0 {
          HuntEmpty(rx);
          AddMod(consoleDropped, start + d, 1);
          consoleDropped := (consoleDropped + 1) % TWO32;
          d := d + 1;
          b := GetByte();
        } else {
          found, kind, len, b := TryStart();
        }
      }
      rxS1, rxS2 := 0, 0;
      rxS1 := (rxS1 + kind) % TWO32;
      rxS2 := (rxS2 + rxS1) % TWO32;
      rxS1 := (rxS1 + len) % TWO32;
      rxS2 := (rxS2 + rxS1) % TWO32;
      TwoWords(FRESH, kind, len);
    }

    method RecvEnd() returns (rc: Status)
      requires |rx| >= 4
      modifies `rx
      ensures rx == old(rx)[4..]
      ensures rc == if Words(old(rx), 2) == Split32(Finish(Seen())) then OkStatus else BadChecksum
    {
      hide WordOf;
      hide Words;
      hide Finish;
      ghost var s := rx;
      var lo := GetWord();
      var hi := GetWord();
      var rxck := lo as int + 0x1_0000 * hi as int;
      rc := if rxck == Finish(Seen()) then OkStatus else BadChecksum;
      TwoWordsRead(s);
      assert Split32(rxck) == [lo, hi];
      Split32Injective(rxck, Finish(Seen()));
    }

    // The next n payload words, into `payload`.
    method TakeWords(payload: array<Half>, n: nat)
      requires n <= payload.Length && |rx| >= 2 * n
      modifies payload, `rx, `rxS1, `rxS2
      ensures rx == old(rx)[2 * n..] && payload[..n] == Words(old(rx), n)
      ensures Seen() == Sum(old(Seen()), Words(old(rx), n))
    {
      hide Add;
      hide Words;
      hide Sum;
      ghost var s, seen := rx, Seen();
      NoWords(seen, s);
      var i := 0;
      while i < n
        invariant 0 <= i <= n && rx == s[2 * i..]
        invariant payload[..i] == Words(s, i) && Seen() == Sum(seen, Words(s, i))
      {
        WordsSnoc(s, i);
        var w := NextWord(s, seen, i);
        payload[i] := w;
        i := i + 1;
        assert payload[..i] == payload[..i - 1] + [payload[i - 1]];
      }
    }

    // The same without keeping them, so that the reader stays aligned.
    method DrainWords(n: nat)
      requires |rx| >= 2 * n
      modifies `rx, `rxS1, `rxS2
      ensures rx == old(rx)[2 * n..]
    {
      ghost var s := rx;
      var i := 0;
      while i < n
        invariant 0 <= i <= n && rx == s[2 * i..]
      {
        var w := RecvWord();
        assert s[2 * i..][2..] == s[2 * (i + 1)..];
        i := i + 1;
      }
    }

    // `words` words into dst, low byte first, keeping the first nbytes.
    method RecvBytes(dst: array<Byte>, at: nat, nbytes: nat, words: nat)
      requires |rx| >= 2 * words && at + Least(nbytes, 2 * words) <= dst.Length
      modifies dst, `rx, `rxS1, `rxS2
      ensures rx == old(rx)[2 * words..] && Seen() == Sum(old(Seen()), Words(old(rx), words))
      ensures Stored(dst[..], old(dst[..]), old(rx), at, Least(nbytes, 2 * words))
    {
      hide WordOf;
      hide Add;
      hide Words;
      hide Sum;
      hide Stored;
      ghost var s, seen, d := rx, Seen(), dst[..];
      NoWords(seen, s);
      StoreNone(d, s, at);
      var full := Least(nbytes / 2, words);
      var i := 0;
      while i < full
        invariant 0 <= i <= full && rx == s[2 * i..] && Seen() == Sum(seen, Words(s, i))
        invariant Stored(dst[..], d, s, at, 2 * i)
      {
        var w := NextWord(s, seen, i);
        StoreWord(dst, at, i, w, s, d);
        i := i + 1;
      }
      RecvRest(dst, at, nbytes, words, full, s, seen, d);
    }

    method StoreWord(dst: array<Byte>, at: nat, i: nat, w: Half, ghost s: seq<Byte>, ghost d: seq<Byte>)
      requires 2 * i + 2 <= |s| && at + 2 * i + 2 <= dst.Length == |d|
      requires Stored(dst[..], d, s, at, 2 * i) && w % 256 == s[2 * i] && w / 256 == s[2 * i + 1]
      modifies dst
      ensures Stored(dst[..], d, s, at, 2 * (i + 1))
    {
      hide Stored;
      StoreOne(dst[..], d, s, at, 2 * i);
      dst[at + 2 * i] := w % 256;
      StoreOne(dst[..], d, s, at, 2 * i + 1);
      dst[at + 2 * i + 1] := w / 256;
    }

    // The words that are not stored whole: one byte of the first, if a byte is missing.
    method RecvRest(dst: array<Byte>, at: nat, nbytes: nat, words: nat, full: nat,
                    ghost s: seq<Byte>, ghost seen: Sums, ghost d: seq<Byte>)
      requires full == Least(nbytes / 2, words) && |s| >= 2 * words
      requires at + Least(nbytes, 2 * words) <= dst.Length == |d|
      requires rx == s[2 * full..] && Seen() == Sum(seen, Words(s, full))
      requires Stored(dst[..], d, s, at, 2 * full)
      modifies dst, `rx, `rxS1, `rxS2
      ensures rx == s[2 * words..] && Seen() == Sum(seen, Words(s, words))
      ensures Stored(dst[..], d, s, at, Least(nbytes, 2 * words))
    {
      hide Words;
      hide Sum;
      hide Stored;
      var i := full;
      while i < words
        invariant full <= i <= words && rx == s[2 * i..] && Seen() == Sum(seen, Words(s, i))
        invariant Stored(dst[..], d, s, at, Least(nbytes, 2 * i))
      {
        var w := NextWord(s, seen, i);
        if i * 2 < nbytes {
          StoreOne(dst[..], d, s, at, 2 * i);
          dst[at + 2 * i] := w % 256;
        }
        i := i + 1;
      }
    }

    // Word i of the bytes s that the receive started on.
    method NextWord(ghost s: seq<Byte>, ghost seen: Sums, ghost i: nat) returns (w: Half)
      requires 2 * i + 2 <= |s| && rx == s[2 * i..] && Seen() == Sum(seen, Words(s, i))
      modifies `rx, `rxS1, `rxS2
      ensures w == WordOf(s[2 * i], s[2 * i + 1]) && w % 256 == s[2 * i] && w / 256 == s[2 * i + 1]
      ensures rx == s[2 * (i + 1)..] && Seen() == Sum(seen, Words(s, i + 1))
    {
      hide Add;
      hide Words;
      hide Sum;
      WordsSnoc(s, i);
      OneMore(seen, Words(s, i), WordOf(s[2 * i], s[2 * i + 1]));
      w := RecvWord();
      assert s[2 * i..][2..] == s[2 * (i + 1)..];
    }

    // One frame into `payload`, or why not. However it ends, the reader is left at the frame's end.
    method RecvFrame(payload: array<Half>, maxLen: nat) returns (rc: Status, kind: Half, len: Half)
      requires maxLen <= payload.Length && Receive(rx, maxLen).Outcome?
      modifies payload, `rx, `rxS1, `rxS2, `consoleDropped
      ensures rx == Receive(old(rx), maxLen).rest
      ensures match Receive(old(rx), maxLen).r
        case Received(f) => rc == OkStatus && f.kind == kind && len <= payload.Length && f.payload == payload[..len]
        case TooLong => rc == BadLength
        case BadSum => rc == BadChecksum
    {
      hide Hunt;
      hide Sum;
      hide Words;
      ghost var o := Receive(rx, maxLen);
      kind, len := RecvBegin();
      ghost var s := rx;
      if len > maxLen {
        DrainWords(len);
        var ignored := RecvEnd();
        rc := BadLength;
      } else {
        TakeWords(payload, len);
        SumAppends(FRESH, [kind, len], payload[..len]);
        rc := RecvEnd();
      }
      assert s[2 * len..][4..] == s[2 * len + 4..];
    }
  }

  lemma {:induction false} WordsSnoc(s: seq<Byte>, i: nat)
    requires 2 * i + 2 <= |s|
    ensures Words(s, i + 1) == Words(s, i) + [WordOf(s[2 * i], s[2 * i + 1])]
    decreases i, s
  {
    if i > 0 {
      WordsSnoc(s[2..], i - 1);
      assert s[2..][2 * (i - 1)] == s[2 * i] && s[2..][2 * (i - 1) + 1] == s[2 * i + 1];
    }
  }

  lemma OneMore(s: Sums, done: seq<Half>, w: Half)
    ensures Bytes(done + [w]) == Bytes(done) + WordBytes(w) && Sum(s, done + [w]) == Add(Sum(s, done), w)
  {
    BytesAppend(done, [w]);
    SumAppends(s, done, [w]);
    assert Bytes([w]) == WordBytes(w);
  }

  // The first k bytes of s stored at `at` over d, and nothing else changed.
  ghost predicate Stored(cur: seq<Byte>, d: seq<Byte>, s: seq<Byte>, at: nat, k: nat) {
    k <= |s| && at + k <= |d| && cur == d[..at] + s[..k] + d[at + k..]
  }

  lemma StoreNone(d: seq<Byte>, s: seq<Byte>, at: nat)
    requires at <= |d|
    ensures Stored(d, d, s, at, 0)
  {
  }

  lemma StoreOne(cur: seq<Byte>, d: seq<Byte>, s: seq<Byte>, at: nat, k: nat)
    requires Stored(cur, d, s, at, k) && k < |s| && at + k < |d|
    ensures |cur| == |d| && Stored(cur[at + k := s[k]], d, s, at, k + 1)
  {
  }

  lemma PayloadStep(head: seq<Half>, payload: seq<Half>, i: nat)
    requires i < |payload|
    ensures Bytes(payload[..i + 1]) == Bytes(payload[..i]) + WordBytes(payload[i])
    ensures Sum(FRESH, head + payload[..i + 1]) == Add(Sum(FRESH, head + payload[..i]), payload[i])
  {
    OneMore(FRESH, head + payload[..i], payload[i]);
    OneMore(FRESH, payload[..i], payload[i]);
    assert payload[..i] + [payload[i]] == payload[..i + 1];
    assert head + payload[..i] + [payload[i]] == head + payload[..i + 1];
  }

  lemma TwoWordsRead(s: seq<Byte>)
    requires |s| >= 4
    ensures Words(s, 2) == [WordOf(s[0], s[1]), WordOf(s[2], s[3])]
  {
    WordsSnoc(s, 0);
    WordsSnoc(s, 1);
  }

  lemma NoWords(seen: Sums, s: seq<Byte>)
    ensures Sum(seen, []) == seen && Bytes([]) == [] && Words(s, 0) == []
  {
  }

  lemma HuntEmpty(rx: seq<Byte>)
    ensures Hunt(rx).Begun? ==> rx != []
  {
  }

  lemma AfterZeroEmpty(rx: seq<Byte>)
    ensures AfterZero(rx).Begun? ==> rx != []
  {
  }

  lemma HuntStep(b: Byte, rx: seq<Byte>)
    ensures Hunt([b] + rx) == if b != 0 then Drop(Hunt(rx)) else AfterZero(rx)
  {
    assert ([b] + rx)[1..] == rx;
  }

  lemma AfterZeroStep(b: Byte, rx: seq<Byte>)
    ensures AfterZero([b] + rx) ==
      if b == 0 then AfterZero(rx)
      else if b != 0xaa then Hunt([b] + rx)
      else if rx == [] then Blocked
      else if rx[0] != 0x55 then Hunt(rx)
      else ReadHeader(rx[1..])
  {
    assert ([b] + rx)[1..] == rx;
    if rx != [] { assert ([b] + rx)[2..] == rx[1..]; }
  }
}
