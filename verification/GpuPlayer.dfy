/**
 * The GPU dump player: words out of a reader that delivers bytes as it likes, the tracker that
 * knows where GP0 commands end, and the FIFO it must not overflow.
 */
module GpuPlayer {
  import opened Bits

  // --- words out of chunks ------------------------------------------------------------------------

  const BUFFER_WORDS: nat := 256

  function WordAt(s: seq<Byte>, i: nat): Word
    requires i + 4 <= |s|
  {
    s[i] as int + 0x100 * s[i + 1] as int + 0x1_0000 * s[i + 2] as int + 0x100_0000 * s[i + 3] as int
  }

  // The whole words of a byte stream, low byte first.
  function Words(s: seq<Byte>): (w: seq<Word>)
    ensures |w| == |s| / 4
    decreases |s|
  {
    if |s| < 4 then [] else [WordAt(s, 0)] + Words(s[4..])
  }

  // The bytes of the k-th word are those of the stream from 4 k on.
  lemma {:induction false} WordsSpell(s: seq<Byte>, k: nat, j: nat)
    requires k < |s| / 4 && j < 4
    ensures ByteOfWord(Words(s)[k], j) == s[4 * k + j]
    decreases |s|
  {
    if k == 0 {
      WordSpells(s[0], s[1], s[2], s[3]);
    } else {
      hide WordAt;
      WordsSpell(s[4..], k - 1, j);
    }
  }

  // These words are the first of the stream.
  ghost predicate Spell(words: seq<Word>, s: seq<Byte>) {
    && 4 * |words| <= |s|
    && forall k, j {:trigger ByteOfWord(words[k], j)} :: 0 <= k < |words| && 0 <= j < 4 ==>
         ByteOfWord(words[k], j) == s[4 * k + j]
  }

  lemma FirstWords(s: seq<Byte>, n: nat)
    requires n <= |s| / 4
    ensures Spell(Words(s)[..n], s) && Words(s)[n..] == Words(s[4 * n..])
  {
    hide *;
    FirstSpell(s, n);
    assert s == s[..4 * n] + s[4 * n..];
    WordsAppend(s[..4 * n], s[4 * n..]);
  }

  lemma FirstSpell(s: seq<Byte>, n: nat)
    requires n <= |s| / 4
    ensures Spell(Words(s)[..n], s)
  {
    hide ByteOfWord;
    hide Words;
    forall k: nat, j: nat {:trigger ByteOfWord(Words(s)[..n][k], j)} | k < n && j < 4
      ensures ByteOfWord(Words(s)[..n][k], j) == s[4 * k + j]
    {
      WordsSpell(s, k, j);
    }
  }

  lemma {:induction false} WordsAppend(a: seq<Byte>, b: seq<Byte>)
    requires |a| % 4 == 0
    ensures Words(a + b) == Words(a) + Words(b)
    decreases |a|
  {
    if a == [] {
      assert a + b == b;
    } else {
      hide WordAt;
      assert (a + b)[4..] == a[4..] + b;
      WordsAppend(a[4..], b);
    }
  }

  class WordReader {
    // What the read callback has still to deliver.
    var left: seq<Byte>
    var buffer: seq<Word>
    var pos: nat
    // The bytes of the words still to be read, and at most three that make none.
    ghost var unread: seq<Byte>

    ghost predicate Valid()
      reads this
    {
      pos <= |buffer| && buffer[pos..] + Words(left) == Words(unread)
    }

    // The words still to be read.
    function Rest(): seq<Word>
      reads this
      requires Valid()
    {
      buffer[pos..] + Words(left)
    }

    constructor (data: seq<Byte>)
      ensures Valid() && Rest() == Words(data) && unread == data
    {
      left, buffer, pos, unread := data, [], 0, data;
      new;
      assert buffer[pos..] == [];
    }

    // The callback: some bytes, as many as it likes up to max, or none when there are no more.
    method Read(max: nat) returns (chunk: seq<Byte>)
      requires max > 0
      modifies `left
      ensures chunk + left == old(left) && |chunk| <= max && (chunk == [] ==> left == [])
    {
      if left == [] { return []; }
      var n: nat :| 0 < n <= max && n <= |left|;
      chunk := left[..n];
      left := left[n..];
    }

    // The next word, whatever chunks the callback cuts the stream into.
    method ReadWord() returns (ok: bool, word: Word)
      requires Valid()
      modifies this
      ensures Valid() && ok == (old(Rest()) != [])
      ensures ok ==> [word] + Rest() == old(Rest())
      ensures !ok ==> Rest() == []
      ensures ok == (|old(unread)| >= 4)
      ensures ok ==> Spell([word], old(unread)) && unread == old(unread)[4..]
      ensures !ok ==> unread == old(unread)
    {
      hide WordAt;
      hide ByteOfWord;
      word := 0;
      if pos >= |buffer| {
        Refill();
        if |buffer| == 0 { return false, 0; }
      }
      word := buffer[pos];
      ok := true;
      assert buffer[pos..] == [word] + buffer[pos + 1..];
      assert ([word] + buffer[pos + 1..] + Words(left))[0] == word;
      FirstWords(unread, 1);
      assert Words(unread)[..1] == [word];
      assert Words(unread)[1..] == buffer[pos + 1..] + Words(left);
      pos, unread := pos + 1, unread[4..];
    }

    method Refill()
      requires Valid() && pos == |buffer|
      modifies this
      ensures Valid() && pos == 0 && Rest() == old(Rest()) && unread == old(unread)
      ensures buffer == [] ==> old(Rest()) == []
    {
      hide WordAt;
      ghost var all := left;
      var bytes: seq<Byte> := [];
      var more := true;
      while more && |bytes| < 4 * BUFFER_WORDS
        invariant bytes + left == all && |bytes| <= 4 * BUFFER_WORDS && unread == old(unread)
        invariant !more ==> left == []
        decreases more, 4 * BUFFER_WORDS - |bytes|
      {
        var chunk := Read(4 * BUFFER_WORDS - |bytes|);
        more := chunk != [];
        bytes := bytes + chunk;
      }
      pos := 0;
      buffer := Words(bytes);
      if more {
        WordsAppend(bytes, left);
      } else {
        assert bytes == all;
      }
      assert old(buffer[pos..]) == [];
    }
  }

  // --- the tracker ------------------------------------------------------------------------------------

  // Between commands, or inside one with so many words to go.
  datatype Mode = Command | Params(cmd: Word, left: nat) | Upload(left: nat) | Polyline(cmd: Word, count: nat)

  // Bit n of a command word.
  function Bit(w: Word, n: nat): bool
    requires n < 32
  {
    w / Pow2(n) % 2 == 1
  }

  function Op(w: Word): nat {
    w / 0x2000_0000
  }

  // The parameter words after a command word, all but polylines and pixel data.
  function ParamCount(w: Word): (n: nat)
    ensures n <= 11
  {
    match Op(w)
    case 0 => if w / 0x100_0000 == 2 then 2 else 0
    case 1 =>
      var vertices := if Bit(w, 27) then 4 else 3;
      vertices * (if Bit(w, 26) then 2 else 1) + if Bit(w, 28) then vertices - 1 else 0
    case 2 => if Bit(w, 28) then 3 else 2
    case 3 => 1 + (if Bit(w, 26) then 1 else 0) + if !Bit(w, 27) && !Bit(w, 28) then 1 else 0
    case 4 => 3
    case 5 => 2
    case 6 => 2
    case _ => 0
  }

  // A line command with the poly bit set.
  function IsPolyline(w: Word): bool {
    Op(w) == 2 && Bit(w, 27)
  }

  // The words of a transfer of this size, where 0 means the largest.
  function TransferWords(size: Word): (n: nat)
    ensures 1 <= n <= 0x4_0000
  {
    var w, h := (size % 0x1_0000 - 1) % 0x400 + 1, (size / 0x1_0000 - 1) % 0x200 + 1;
    SizeBounds(w, h);
    (w * h + 1) / 2
  }

  lemma SizeBounds(w: int, h: int)
    requires 1 <= w <= 0x400 && 1 <= h <= 0x200
    ensures 1 <= w * h <= 0x8_0000
  {
    MulMono(1, w, h);
    MulMono(w, 0x400, h);
  }

  // A terminator looks like 5xxx5xxx.
  predicate LooksTerminal(w: Word) {
    w / 0x1000_0000 == 5 && w / 0x1000 % 0x10 == 5
  }

  // Only behind two vertices, and only where a vertex starts.
  predicate CanEnd(cmd: Word, index: nat) {
    if Bit(cmd, 28) then index >= 3 && index % 2 == 1 else index >= 2
  }

  function AfterParams(cmd: Word, last: Word): Mode {
    if Op(cmd) == 5 then Upload(TransferWords(last)) else Command
  }

  predicate Sound(m: Mode) {
    m.Params? || m.Upload? ==> m.left > 0
  }

  // One GP0 word.
  function Step(m: Mode, w: Word): (r: Mode)
    requires Sound(m)
    ensures Sound(r)
  {
    match m
    case Command =>
      if IsPolyline(w) then Polyline(w, 0)
      else if ParamCount(w) != 0 then Params(w, ParamCount(w)) else Command
    case Params(cmd, left) => if left > 1 then Params(cmd, left - 1) else AfterParams(cmd, w)
    case Upload(left) => if left > 1 then Upload(left - 1) else Command
    case Polyline(cmd, count) =>
      if CanEnd(cmd, count) && LooksTerminal(w) then Command else Polyline(cmd, count + 1)
  }

  function Run(m: Mode, words: seq<Word>): (r: Mode)
    requires Sound(m)
    ensures Sound(r)
    decreases |words|
  {
    if words == [] then m else Run(Step(m, words[0]), words[1..])
  }

  lemma {:induction false} RunAppends(m: Mode, a: seq<Word>, b: seq<Word>)
    requires Sound(m)
    ensures Run(m, a + b) == Run(Run(m, a), b)
    decreases |a|
  {
    hide Step;
    if a == [] {
      assert a + b == b;
    } else {
      assert (a + b)[1..] == a[1..] + b;
      RunAppends(Step(m, a[0]), a[1..], b);
    }
  }

  // The state the source keeps, one variable per part of a mode.
  datatype Gp0State = GP0_COMMAND | GP0_PARAMS | GP0_UPLOAD | GP0_POLYLINE

  class Tracker {
    var state: Gp0State
    var command: Word
    var remaining: nat
    var polylineWords: Word
    // VRAM reads the dump has asked for and not yet discarded.
    var pendingReads: nat
    // What was written to the GPU's data port.
    var sent: seq<Word>
    // The GPU's DMA direction, and the one to go back to behind a polyline.
    var dmaDir: nat
    var polylineDMADir: nat

    // Inside a polyline the direction is the FIFO state, outside it is what the dump asked for.
    predicate Directed(asked: nat)
      reads this
    {
      if state == GP0_POLYLINE then dmaDir == 1 && polylineDMADir == asked else dmaDir == asked
    }

    function View(): Mode
      reads this
    {
      match state
      case GP0_COMMAND => Command
      case GP0_PARAMS => Params(command, remaining)
      case GP0_UPLOAD => Upload(remaining)
      case GP0_POLYLINE => Polyline(command, polylineWords)
    }

    constructor ()
      ensures View() == Command && sent == [] && pendingReads == 0 && Directed(0)
    {
      state, command, remaining, polylineWords, pendingReads, sent := GP0_COMMAND, 0, 0, 0, 0, [];
      dmaDir, polylineDMADir := 0, 0;
    }

    // A polyline of 2^32 words would wrap its count; no dump holds one.
    method PushGP0(word: Word)
      requires Sound(View()) && (state == GP0_POLYLINE ==> polylineWords < TWO32 - 1)
      modifies this
      ensures View() == Step(old(View()), word) && sent == old(sent) + [word]
      ensures state == GP0_POLYLINE ==>
        polylineWords <= if old(state) == GP0_POLYLINE then old(polylineWords) + 1 else 0
      ensures forall asked {:trigger Directed(asked)} :: old(Directed(asked)) ==> Directed(asked)
    {
      sent := sent + [word];
      match state {
        case GP0_COMMAND =>
          command := word;
          if IsPolyline(word) {
            polylineDMADir := dmaDir;
            dmaDir := 1;
            polylineWords := 0;
            state := GP0_POLYLINE;
          } else {
            remaining := ParamCount(word);
            if remaining != 0 { state := GP0_PARAMS; }
          }
        case GP0_PARAMS =>
          remaining := remaining - 1;
          if remaining == 0 {
            state := GP0_COMMAND;
            if Op(command) == 5 {
              remaining := TransferWords(word);
              state := GP0_UPLOAD;
            } else if Op(command) == 6 {
              pendingReads := TransferWords(word);
            }
          }
        case GP0_UPLOAD =>
          remaining := remaining - 1;
          if remaining == 0 { state := GP0_COMMAND; }
        case GP0_POLYLINE =>
          var index := polylineWords;
          polylineWords := polylineWords + 1;
          if CanEnd(command, index) && LooksTerminal(word) {
            dmaDir := polylineDMADir;
            state := GP0_COMMAND;
          }
      }
    }

    // One GP0 packet: its words go to the GPU as they come, and only the tracker remembers between
    // packets, so where a list is cut into packets makes no difference.
    method PushPacket(reader: WordReader, length: nat) returns (ok: bool)
      requires reader.Valid() && Sound(View())
      requires state == GP0_POLYLINE ==> polylineWords + length < TWO32
      requires length < TWO32
      modifies this, reader
      ensures reader.Valid() && ok == (length <= |old(reader.Rest())|)
      ensures ok ==> var words := old(reader.Rest())[..length];
        sent == old(sent) + words && View() == Run(old(View()), words)
        && reader.Rest() == old(reader.Rest())[length..]
      ensures ok ==> 4 * length <= |old(reader.unread)| && reader.unread == old(reader.unread)[4 * length..]
      ensures ok ==> |sent| == |old(sent)| + length && Spell(sent[|old(sent)|..], old(reader.unread))
      ensures forall asked {:trigger Directed(asked)} :: old(Directed(asked)) ==> Directed(asked)
    {
      hide Step;
      hide Words;
      hide WordAt;
      hide ByteOfWord;
      hide Directed;
      hide Run;
      hide Spell;
      ghost var all, m, was, bytes := reader.Rest(), View(), sent, reader.unread;
      assert all == Words(bytes);
      assert Run(m, []) == m by { Nothing(m); }
      hide WordReader.Valid;
      hide WordReader.Rest;
      var i := 0;
      assert all[..0] == [];
      while i < length
        invariant 0 <= i <= length && i <= |all| && reader.Valid() && reader.Rest() == all[i..]
        invariant 4 * i <= |bytes| && reader.unread == bytes[4 * i..]
        invariant sent == was + all[..i] && Sound(View()) && View() == Run(m, all[..i])
        invariant state == GP0_POLYLINE ==> polylineWords <= i + if m.Polyline? then m.count else 0
        invariant forall asked {:trigger Directed(asked)} :: old(Directed(asked)) ==> Directed(asked)
      {
        var word;
        ok, word := reader.ReadWord();
        if !ok { return; }
        assert all[i..][1..] == all[i + 1..] && bytes[4 * i..][4..] == bytes[4 * (i + 1)..];
        assert all[..i + 1] == all[..i] + [all[i]];
        RunAppends(m, all[..i], [word]);
        OneWord(View(), word);
        PushGP0(word);
        i := i + 1;
      }
      ok := true;
      assert sent[|was|..] == all[..length];
      FirstWords(bytes, length);
    }

    // Reset and command buffer reset abort whatever command is in progress. The direction asked
    // for stays in force, or waits for the polyline to end, but for one case: a command buffer
    // reset inside a polyline forgets it and leaves the FIFO state behind.
    method PushGP1(word: Word)
      modifies this
      ensures View() == if Gp1Op(word) <= 1 then Command else old(View())
      ensures sent == old(sent)
      ensures forall asked {:trigger old(Directed(asked))} :: old(Directed(asked)) ==>
        (Directed(AskedBy(word, asked)) <==> !(Gp1Op(word) == 1 && old(state) == GP0_POLYLINE && asked != 1))
    {
      // The GPU itself: a reset turns DMA off, and GP1 04h sets its direction.
      dmaDir := AskedBy(word, dmaDir);
      if Gp1Op(word) <= 1 {
        state := GP0_COMMAND;
        remaining := 0;
        pendingReads := 0;
      } else if Gp1Op(word) == 4 && state == GP0_POLYLINE {
        polylineDMADir := word % 4;
        dmaDir := 1;
      }
    }
  }

  function Gp1Op(word: Word): nat {
    word / 0x100_0000 % 0x40
  }

  // The direction in force once the dump has sent this GP1 word.
  function AskedBy(word: Word, asked: nat): nat {
    if Gp1Op(word) == 0 then 0 else if Gp1Op(word) == 4 then word % 4 else asked
  }

  // --- command lists ---------------------------------------------------------------------------------

  // What the words behind a command word are for.
  datatype Part = Colour | Corner | Texture | Extent

  // n vertices: the first one's colour is in the command word, and every one has a texture
  // coordinate or none has.
  function Vertices(n: nat, shaded: bool, textured: bool, first: bool := true): seq<Part> {
    if n == 0 then []
    else
      (if shaded && !first then [Colour] else []) + [Corner] + (if textured then [Texture] else [])
      + Vertices(n - 1, shaded, textured, false)
  }

  // Every command's parameters, all but polylines.
  function Layout(cmd: Word): seq<Part> {
    match Op(cmd)
    case 0 => if cmd / 0x100_0000 == 2 then [Corner, Extent] else []
    case 1 => Vertices(if Bit(cmd, 27) then 4 else 3, Bit(cmd, 28), Bit(cmd, 26))
    case 2 => Vertices(2, Bit(cmd, 28), false)
    case 3 =>
      // A rectangle's size is in bits 27 and 28, or variable.
      [Corner] + (if Bit(cmd, 26) then [Texture] else []) + if Bit(cmd, 27) || Bit(cmd, 28) then [] else [Extent]
    case 4 => [Corner, Corner, Extent]
    case 5 => [Corner, Extent]
    case 6 => [Corner, Extent]
    case _ => []
  }

  lemma {:induction false} VerticesCount(n: nat, shaded: bool, textured: bool, first: bool)
    ensures |Vertices(n, shaded, textured, first)|
         == n + (if textured then n else 0) + (if !shaded then 0 else if first && n > 0 then n - 1 else n)
  {
    if n > 0 { VerticesCount(n - 1, shaded, textured, false); }
  }

  lemma LayoutCounted(cmd: Word)
    ensures ParamCount(cmd) == |Layout(cmd)|
  {
    hide Bit;
    VerticesCount(if Bit(cmd, 27) then 4 else 3, Bit(cmd, 28), Bit(cmd, 26), true);
    VerticesCount(2, Bit(cmd, 28), false, true);
  }

  // The commands by their first bytes, as GPU documentation lists them.
  lemma KnownPolygons()
    ensures ParamCount(0x2000_0000) == 3 && ParamCount(0x2400_0000) == 6 && ParamCount(0x2800_0000) == 4
    ensures ParamCount(0x2c00_0000) == 8 && ParamCount(0x3000_0000) == 5 && ParamCount(0x3400_0000) == 8
    ensures ParamCount(0x3800_0000) == 7 && ParamCount(0x3c00_0000) == 11
  {
    CommandBits();
    hide Pow2;
  }

  lemma KnownOthers()
    ensures ParamCount(0x0200_0000) == 2 && ParamCount(0x0100_0000) == 0 && ParamCount(0xe100_0000) == 0
    ensures ParamCount(0x4000_0000) == 2 && ParamCount(0x5000_0000) == 3
    ensures ParamCount(0x6000_0000) == 2 && ParamCount(0x6400_0000) == 3 && ParamCount(0x6800_0000) == 1
    ensures ParamCount(0x7400_0000) == 2 && ParamCount(0x7c00_0000) == 2
    ensures ParamCount(0x8000_0000) == 3 && ParamCount(0xa000_0000) == 2 && ParamCount(0xc000_0000) == 2
  {
    CommandBits();
    hide Pow2;
  }

  lemma KnownPolylines()
    ensures IsPolyline(0x4800_0000) && IsPolyline(0x5800_0000) && !IsPolyline(0x4000_0000) && !IsPolyline(0x6800_0000)
    ensures LooksTerminal(0x5555_5555) && LooksTerminal(0x5000_5000) && !LooksTerminal(0x5555_4555)
  {
    hide *;
    KnownStarts();
    KnownEnds();
  }

  lemma KnownStarts()
    ensures IsPolyline(0x4800_0000) && IsPolyline(0x5800_0000) && !IsPolyline(0x4000_0000) && !IsPolyline(0x6800_0000)
  {
    hide Pow2;
    CommandBits();
  }

  lemma KnownEnds()
    ensures LooksTerminal(0x5555_5555) && LooksTerminal(0x5000_5000) && !LooksTerminal(0x5555_4555)
  {
  }

  lemma CommandBits()
    ensures Pow2(26) == 0x400_0000 && Pow2(27) == 0x800_0000 && Pow2(28) == 0x1000_0000
  {
    Pow2Values();
    Pow2Add(16, 10);
    assert Pow2(27) == 2 * Pow2(26) && Pow2(28) == 2 * Pow2(27);
  }

  // A width or height, where 0 stands for the largest and higher bits are ignored.
  function Side(v: nat, max: nat): nat
    requires max > 0
  {
    if v % max == 0 then max else v % max
  }

  // The words of that many pixels, two to a word.
  function PixelWords(size: Word): nat {
    (Side(size % 0x1_0000, 0x400) * Side(size / 0x1_0000, 0x200) + 1) / 2
  }

  lemma PixelsCounted(size: Word)
    ensures TransferWords(size) == PixelWords(size)
  {
    SideIs(size % 0x1_0000, 0x400);
    SideIs(size / 0x1_0000, 0x200);
  }

  lemma SideIs(v: nat, max: nat)
    requires max == 0x400 || max == 0x200
    ensures (v - 1) % max + 1 == Side(v, max)
  {
  }

  // The first word of a polyline's k-th vertex: from the second one on its colour, if it has any.
  function VertexStart(shaded: bool, k: nat): nat {
    if !shaded then k else if k == 0 then 0 else 2 * k - 1
  }

  // Where a third or later vertex would start.
  ghost predicate StartsVertex(cmd: Word, i: nat) {
    exists k: nat {:trigger VertexStart(Bit(cmd, 28), k)} :: k >= 2 && VertexStart(Bit(cmd, 28), k) == i
  }

  lemma EndsWhereVertexStarts(cmd: Word, i: nat)
    ensures CanEnd(cmd, i) <==> StartsVertex(cmd, i)
  {
    hide Bit;
    if CanEnd(cmd, i) {
      assert VertexStart(Bit(cmd, 28), if Bit(cmd, 28) then (i + 1) / 2 else i) == i;
    }
  }

  // A whole command: its fixed parameters, with the pixels of an upload; or a polyline's words, the
  // last of which is the first that may end it and does.
  datatype Cmd = Fixed(cmd: Word, params: seq<Word>, pixels: seq<Word>) | Poly(cmd: Word, words: seq<Word>)

  ghost predicate Whole(c: Cmd) {
    match c
    case Fixed(cmd, params, pixels) =>
      && !IsPolyline(cmd) && |params| == |Layout(cmd)|
      && |pixels| == if Op(cmd) == 5 then PixelWords(params[1]) else 0
    case Poly(cmd, words) =>
      && IsPolyline(cmd) && words != []
      && forall i {:trigger words[i]} :: 0 <= i < |words| ==>
           (StartsVertex(cmd, i) && LooksTerminal(words[i]) <==> i == |words| - 1)
  }

  function Printed(c: Cmd): seq<Word> {
    match c
    case Fixed(cmd, params, pixels) => [cmd] + params + pixels
    case Poly(cmd, words) => [cmd] + words
  }

  lemma {:induction false} ParamsRun(cmd: Word, words: seq<Word>, n: nat)
    requires words != [] && n <= |words|
    ensures Run(Params(cmd, |words|), words[..n]) ==
      if n < |words| then Params(cmd, |words| - n) else AfterParams(cmd, words[|words| - 1])
    decreases n
  {
    if n == 0 {
      assert words[..0] == [];
    } else {
      assert words[..n] == words[..n - 1] + [words[n - 1]];
      RunAppends(Params(cmd, |words|), words[..n - 1], [words[n - 1]]);
      ParamsRun(cmd, words, n - 1);
      OneWord(Run(Params(cmd, |words|), words[..n - 1]), words[n - 1]);
    }
  }

  lemma Nothing(m: Mode)
    requires Sound(m)
    ensures Run(m, []) == m
  {
  }

  lemma OneWord(m: Mode, w: Word)
    requires Sound(m)
    ensures Run(m, [w]) == Step(m, w)
  {
    assert [w][1..] == [];
  }

  lemma {:induction false} UploadRun(words: seq<Word>, n: nat)
    requires words != [] && n <= |words|
    ensures Run(Upload(|words|), words[..n]) == if n < |words| then Upload(|words| - n) else Command
    decreases n
  {
    if n == 0 {
      assert words[..0] == [];
    } else {
      assert words[..n] == words[..n - 1] + [words[n - 1]];
      RunAppends(Upload(|words|), words[..n - 1], [words[n - 1]]);
      UploadRun(words, n - 1);
      OneWord(Run(Upload(|words|), words[..n - 1]), words[n - 1]);
    }
  }

  lemma {:induction false} PolyRun(c: Cmd, n: nat)
    requires c.Poly? && Whole(c) && n <= |c.words|
    ensures Run(Polyline(c.cmd, 0), c.words[..n]) == if n < |c.words| then Polyline(c.cmd, n) else Command
    decreases n
  {
    if n == 0 {
      assert c.words[..0] == [];
    } else {
      assert c.words[..n] == c.words[..n - 1] + [c.words[n - 1]];
      RunAppends(Polyline(c.cmd, 0), c.words[..n - 1], [c.words[n - 1]]);
      PolyRun(c, n - 1);
      EndsWhereVertexStarts(c.cmd, n - 1);
      OneWord(Run(Polyline(c.cmd, 0), c.words[..n - 1]), c.words[n - 1]);
    }
  }

  // n words into a command the tracker is between commands exactly when n is 0 or all of them.
  lemma CommandTracked(c: Cmd, n: nat)
    requires Whole(c) && n <= |Printed(c)|
    ensures Run(Command, Printed(c)[..n]).Command? <==> n == 0 || n == |Printed(c)|
  {
    var words := Printed(c);
    if n == 0 {
      assert words[..0] == [];
    } else {
      assert words[..n] == [c.cmd] + words[1..n];
      RunAppends(Command, [c.cmd], words[1..n]);
      OneWord(Command, c.cmd);
      match c
      case Poly(cmd, ws) =>
        assert words[1..n] == ws[..n - 1];
        PolyRun(c, n - 1);
      case Fixed(cmd, params, pixels) =>
        FixedTracked(c, n);
    }
  }

  lemma FirstStep(cmd: Word)
    requires !IsPolyline(cmd)
    ensures Step(Command, cmd) == if ParamCount(cmd) == 0 then Command else Params(cmd, ParamCount(cmd))
    ensures Op(cmd) == 5 ==> ParamCount(cmd) == 2
    ensures ParamCount(cmd) == |Layout(cmd)|
  {
    hide Bit;
    LayoutCounted(cmd);
  }

  lemma FixedTracked(c: Cmd, n: nat)
    requires c.Fixed? && Whole(c) && 1 <= n <= |Printed(c)|
    ensures Run(Step(Command, c.cmd), Printed(c)[1..n]).Command? <==> n == |Printed(c)|
  {
    hide Step;
    hide ParamCount;
    hide Op;
    hide IsPolyline;
    hide TransferWords;
    hide PixelWords;
    hide Layout;
    FirstStep(c.cmd);
    if Op(c.cmd) == 5 { PixelsCounted(c.params[1]); }
    var words, p := Printed(c), |c.params|;
    if p == 0 {
      assert words[1..n] == [];
    } else if n <= 1 + p {
      assert words[1..n] == c.params[..n - 1];
      ParamsRun(c.cmd, c.params, n - 1);
    } else {
      assert words[1..n] == c.params[..p] + c.pixels[..n - 1 - p];
      RunAppends(Params(c.cmd, p), c.params[..p], c.pixels[..n - 1 - p]);
      ParamsRun(c.cmd, c.params, p);
      UploadRun(c.pixels, n - 1 - p);
    }
  }

  function Listing(cs: seq<Cmd>): seq<Word> {
    if cs == [] then [] else Printed(cs[0]) + Listing(cs[1..])
  }

  // After any whole commands the tracker is between commands, and after n more words of the next
  // one it is not: the boundaries it finds are the list's own.
  lemma {:induction false} ListTracked(cs: seq<Cmd>, c: Cmd, n: nat)
    requires (forall x {:trigger Whole(x)} :: x in cs ==> Whole(x)) && Whole(c) && n <= |Printed(c)|
    ensures Run(Command, Listing(cs) + Printed(c)[..n]).Command? <==> n == 0 || n == |Printed(c)|
    decreases |cs|
  {
    if cs == [] {
      assert Listing(cs) + Printed(c)[..n] == Printed(c)[..n];
      CommandTracked(c, n);
    } else {
      var rest := Listing(cs[1..]) + Printed(c)[..n];
      assert Listing(cs) + Printed(c)[..n] == Printed(cs[0]) + rest;
      RunAppends(Command, Printed(cs[0]), rest);
      assert Whole(cs[0]);
      CommandTracked(cs[0], |Printed(cs[0])|);
      assert Printed(cs[0])[..|Printed(cs[0])|] == Printed(cs[0]);
      ListTracked(cs[1..], c, n);
    }
  }

  // --- the FIFO --------------------------------------------------------------------------------------------

  const FIFO: nat := 16

  // How full the FIFO is when a word goes in: a command and a pixel wait for it to be empty, a
  // polyline's word for it not to be full, and a parameter for nothing.
  function BeforeWrite(m: Mode, level: nat): nat {
    if m.Command? || m.Upload? then 0
    else if m.Polyline? then Least(level, FIFO - 1)
    else level
  }

  // The level after each word, when the GPU takes drains[i] words out behind word i.
  function Levels(m: Mode, level: nat, words: seq<Word>, drains: seq<nat>): (l: seq<nat>)
    requires Sound(m) && |drains| == |words|
    ensures |l| == |words|
    decreases |words|
  {
    if words == [] then []
    else
      var full := BeforeWrite(m, level) + 1;
      [full] + Levels(Step(m, words[0]), full - Least(drains[0], full), words[1..], drains[1..])
  }

  // What the level can be in each mode: parameters never find more than the words before them.
  predicate Bounded(m: Mode, level: nat) {
    match m
    case Params(cmd, left) => level + left <= 12
    case _ => level <= FIFO
  }

  // Whatever words come and however slowly the GPU takes them, the FIFO never overflows.
  lemma {:induction false} NeverOverflows(m: Mode, level: nat, words: seq<Word>, drains: seq<nat>, i: nat)
    requires Sound(m) && Bounded(m, level) && |drains| == |words| && i < |words|
    ensures Levels(m, level, words, drains)[i] <= 16
    decreases |words|
  {
    var full := BeforeWrite(m, level) + 1;
    if i > 0 {
      NeverOverflows(Step(m, words[0]), full - Least(drains[0], full), words[1..], drains[1..], i - 1);
    }
  }
}
