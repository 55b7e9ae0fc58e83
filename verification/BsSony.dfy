/** The decoder as it is built: Sony's book, the tables generated from it, one frame. */
module BsSony {
  import opened Bits
  import opened CodeBook
  import opened BsFrame
  import opened BsTruncation
  import BsRoundTrip
  import BsWriter
  import Bsdec
  import GenTable
  import SonyBook
  import VlcTable
  import BsWords

  // Generate the tables and decode. Nothing is asked of the input.
  method DecodeFrame(input: seq<Byte>, out: array<Half>, outHalfwords: nat) returns (r: BsdecResult)
    requires |input| < TWO32 && outHalfwords <= out.Length
    modifies out
    ensures var from := if Refusal(input, outHalfwords) == OK then RlHalfwords(input) else 0;
            out[from..] == old(out[from..])
    ensures Refusal(input, outHalfwords) == OK ==> out[..RlHalfwords(input)] == FrameWords(SonyBook.Book(), input)
    ensures r == FrameResult(SonyBook.Book(), input, outHalfwords)
  {
    hide SonyBook.Groups;
    hide FrameResult;
    hide FrameWords;
    var book := SonyBook.Book();
    ghost var esc, eob := SonyBook.BookIsGood();
    var t := GenTable.BuildTables(book);
    r := Bsdec.BsdecFrame(input, out, outHalfwords, t, book);
  }

  // Frames can be written for Sony's book, so the round trip is about something.
  lemma SonyWriter() returns (w: BsWriter.Writer)
    ensures BsWriter.Able(w) && Good(w.book) && w.book == SonyBook.Book()
    ensures w.esc < |w.book| && w.eob < |w.book|
    ensures w.book[w.esc].code == [0, 0, 0, 0, 0, 1] && w.book[w.eob].code == [1, 0]
  {
    hide SonyBook.Groups;
    var esc, eob := SonyBook.BookIsGood();
    w := BsWriter.Writer(SonyBook.Book(), esc, eob);
  }

  // Word i holds the run and the level of a code.
  ghost predicate ReadsAsCoded(book: seq<CodeBook.Sym>, code: BsWriter.Code, words: seq<Half>, i: nat) {
    && code.Plain? && code.k < |book| && i < |words|
    && BsWords.RunOf(words[i]) == book[code.k].run && BsWords.LevelOf(words[i]) == book[code.k].level
  }

  // Sony's codes written and decoded: each comes back as a word that reads as the code's own run
  // and level.
  lemma SonyRoundTrip(w: BsWriter.Writer, version: nat, q: Half, blocks: seq<BsWriter.BlockData>, outHalfwords: nat,
                      target: nat, input: seq<Byte>, k: nat, j: nat)
    requires BsWriter.Able(w) && BsWriter.LegalBlocks(w, version, blocks) && 1 <= version <= 3 && k < |blocks|
    requires target == BsRoundTrip.RoundUp64(|Flatten(BsWriter.BlocksWords(w, version, q, DC_START, blocks))|)
    requires target < 0x2_0000 && target <= outHalfwords && input == BsRoundTrip.WriteFrame(w, version, q, blocks)
    requires j < |blocks[k].codes| && blocks[k].codes[j].Plain? && w.book == SonyBook.Book()
    ensures var words := FrameBlocks(w.book, input).words;
            |words| == |blocks| && ReadsAsCoded(w.book, blocks[k].codes[j], words[k], j + 1)
  {
    hide *;
    BsWords.RoundTripMeans(w, version, q, blocks, outHalfwords, target, input, k);
    BsWords.CodeDescribed(w, version, q, blocks, k, FrameBlocks(w.book, input).words[k], j);
    var c := blocks[k].codes[j].k;
    VlcTable.BookFits(c);
    assert VlcTable.Fits(w.book[c].run, w.book[c].level);
    FitsIs(w.book[c].run, w.book[c].level);
    CodeReads(w.book, blocks[k].codes[j], FrameBlocks(w.book, input).words[k], j + 1);
  }

  lemma CodeReads(book: seq<CodeBook.Sym>, code: BsWriter.Code, words: seq<Half>, i: nat)
    requires code.Plain? && code.k < |book| && i < |words|
    requires BsWords.RunOf(words[i]) == book[code.k].run && BsWords.LevelOf(words[i]) == book[code.k].level
    ensures ReadsAsCoded(book, code, words, i)
  {
  }

  // Such a frame: one block of Sony's book in front of half a gigabyte of zeros.
  lemma CutCanGain() returns (input: seq<Byte>, n: nat)
    ensures 8 <= n <= |input| && |Payload(input)| == 0x2000_0000 && Refusal(input, 64) == OK
    ensures |FrameBlocks(SonyBook.Book(), input).words| == 0 && |FrameBlocks(SonyBook.Book(), input[..n]).words| == 1
  {
    hide *;
    var w := SonyWriter();
    var blocks := [BsWriter.BlockData(0, [])];
    OneBlock(w, blocks);
    var words := BsWriter.BlocksWords(w, 1, 1, DC_START, blocks);
    var frame := BsRoundTrip.WriteFrame(w, 1, 1, blocks);
    BsRoundTrip.FrameLength(w, 1, 1, blocks);
    input := frame + seq<Byte>(0x2000_0008 - |frame|, _ => 0);
    n := |frame|;
    CountsNothing(input);
    BsRoundTrip.CutIsPrefix(w, 1, 1, blocks, 64, words, 64, frame, input);
    NothingCounted(w.book, input);
    assert input[..n] == frame;
  }

  lemma OneBlock(w: BsWriter.Writer, blocks: seq<BsWriter.BlockData>)
    requires BsWriter.Able(w) && blocks == [BsWriter.BlockData(0, [])]
    ensures DcReady(DC_START) && BsWriter.LegalBlocks(w, 1, blocks)
    ensures var words := BsWriter.BlocksWords(w, 1, 1, DC_START, blocks);
            |words| == 1 && BsRoundTrip.RoundUp64(|Flatten(words)|) == 64
  {
    var words := BsWriter.BlocksWords(w, 1, 1, DC_START, blocks);
    assert |words[0]| == 2 && Flatten(words) == words[0] + Flatten([]);
  }

  lemma CountsNothing(input: seq<Byte>)
    requires |input| == 0x2000_0008
    ensures |Payload(input)| == 0x2000_0000 && Counted(input) == 0
  {
  }

  lemma FitsIs(run: nat, level: int)
    requires VlcTable.Fits(run, level)
    ensures run < 64 && -512 <= level < 512
  {
  }
}
