/** A song as it plays: which event comes next, and in which poll. */
module PsmSong {
  import opened Bits

  const NOTE_ON: Byte := 0x00
  const NOTE_OFF: Byte := 0x01
  const CC_SUSTAIN: Byte := 0x06
  const LOOP_POINT: Byte := 0x0B
  const END: Byte := 0x0C
  const LONG_WAIT: Byte := 0xFF

  datatype Event = Event(deltaTick: Half, kind: Byte, channel: Byte, data: Word)

  // --- which event comes next ---------------------------------------------------------------------

  // Where END goes back to once everything before event c has fired.
  function LoopTarget(song: seq<Event>, c: nat): (l: nat)
    requires c <= |song|
    ensures l <= c
    decreases c, song
  {
    if c == 0 then 0 else if song[c - 1].kind == LOOP_POINT then c else LoopTarget(song, c - 1)
  }

  // The first END, or the end of the song.
  function FirstEnd(song: seq<Event>, from: nat): (e: nat)
    requires from <= |song|
    ensures from <= e <= |song|
    decreases |song| - from
  {
    if from == |song| || song[from].kind == END then from else FirstEnd(song, from + 1)
  }

  lemma {:induction false} FirstEndIs(song: seq<Event>, from: nat)
    requires from <= |song|
    ensures var e := FirstEnd(song, from);
      && (e < |song| ==> song[e].kind == END)
      && forall i {:trigger song[i]} :: from <= i < e ==> song[i].kind != END
    decreases |song| - from
  {
    if from < |song| && song[from].kind != END { FirstEndIs(song, from + 1); }
  }

  // Right behind the last LOOP_POINT, or the start of the song where there is none.
  lemma {:induction false} LoopTargetIs(song: seq<Event>, c: nat)
    requires c <= |song|
    ensures var l := LoopTarget(song, c);
      && (l == 0 || song[l - 1].kind == LOOP_POINT)
      && forall i {:trigger song[i]} :: l <= i < c ==> song[i].kind != LOOP_POINT
    decreases c, song
  {
    if c > 0 && song[c - 1].kind != LOOP_POINT { LoopTargetIs(song, c - 1); }
  }

  lemma {:induction false} LoopTargetStays(song: seq<Event>, c: nat)
    requires c <= |song|
    ensures LoopTarget(song, LoopTarget(song, c)) == LoopTarget(song, c)
    decreases c, song
  {
    if c > 0 && song[c - 1].kind != LOOP_POINT { LoopTargetStays(song, c - 1); }
  }

  function Successor(song: seq<Event>, c: nat): (next: nat)
    requires c < |song|
    ensures next <= |song|
  {
    if song[c].kind == END then LoopTarget(song, c) else c + 1
  }

  // The k-th event of the song with its loops unrolled, or the end of the song.
  function Index(song: seq<Event>, k: nat): (i: nat)
    ensures i <= |song|
    decreases k, song
  {
    if k == 0 then 0
    else var i := Index(song, k - 1); if i == |song| then i else Successor(song, i)
  }

  // Only the first END is ever reached, and before it everything has fired once.
  lemma {:induction false} IndexBeforeEnd(song: seq<Event>, k: nat)
    ensures Index(song, k) <= FirstEnd(song, 0)
    decreases k, song
  {
    if k > 0 {
      IndexBeforeEnd(song, k - 1);
      FirstEndIs(song, 0);
    }
  }

  // --- when it fires ----------------------------------------------------------------------------------

  function LongWait(e: Event): nat {
    if e.kind == LONG_WAIT then e.data else 0
  }

  function DeltaOf(song: seq<Event>, i: nat): nat {
    if i < |song| then song[i].deltaTick else 0
  }

  function WaitOf(song: seq<Event>, i: nat): nat {
    if i < |song| then LongWait(song[i]) else 0
  }

  // The poll in which the k-th event is first looked at, and the one in which it fires.
  function Visit(song: seq<Event>, k: nat): nat
    decreases k, 0, song
  {
    if k == 0 then 1 else Fire(song, k - 1) + WaitOf(song, Index(song, k - 1))
  }

  function Fire(song: seq<Event>, k: nat): nat
    decreases k, 1, song
  {
    Visit(song, k) + DeltaOf(song, Index(song, k))
  }

  function DeltaSum(song: seq<Event>, k: nat): nat
    decreases k, song
  {
    if k == 0 then 0 else DeltaSum(song, k - 1) + DeltaOf(song, Index(song, k - 1))
  }

  function WaitSum(song: seq<Event>, k: nat): nat
    decreases k, song
  {
    if k == 0 then 0 else WaitSum(song, k - 1) + WaitOf(song, Index(song, k - 1))
  }

  // The k-th event fires in the first poll plus all deltas up to its own and all long waits before.
  lemma {:induction false} FireIsSum(song: seq<Event>, k: nat)
    ensures Fire(song, k) == 1 + DeltaSum(song, k + 1) + WaitSum(song, k)
    decreases k, song
  {
    if k > 0 { FireIsSum(song, k - 1); }
  }

  lemma {:induction false} FireGrows(song: seq<Event>, j: nat, k: nat)
    requires j <= k
    ensures Fire(song, j) <= Fire(song, k)
    decreases k, song
  {
    if j < k { FireGrows(song, j, k - 1); }
  }

  // --- does every poll end? -------------------------------------------------------------------------------

  predicate Waits(e: Event) {
    e.deltaTick > 0 || LongWait(e) > 0
  }

  // The one loop body that is ever repeated holds an event that waits.
  ghost predicate LoopWaits(song: seq<Event>) {
    var e := FirstEnd(song, 0);
    e < |song| ==> exists i {:trigger song[i]} :: LoopTarget(song, e) <= i <= e && Waits(song[i])
  }

  // How many events can still fire before one waits, with `last` a waiting event of the body.
  function Measure(song: seq<Event>, last: nat, c: nat): nat
    requires c <= |song|
  {
    var e := FirstEnd(song, 0);
    if e == |song| then |song| - c
    else if c <= last then last - c
    else e + 1 - Least(c, e) + last
  }

  // The measure drops with every event that fires without waiting.
  lemma MeasureDrops(song: seq<Event>, last: nat, c: nat)
    requires c < |song| && c <= FirstEnd(song, 0) && !Waits(song[c])
    requires var e := FirstEnd(song, 0);
      e < |song| ==> LoopTarget(song, e) <= last <= e && (Waits(song[last]) || c < last == e)
    ensures Measure(song, last, Successor(song, c)) < Measure(song, last, c)
  {
    FirstEndIs(song, 0);
  }

  // The first pass goes straight to the first END.
  lemma {:induction false} FirstPass(song: seq<Event>, k: nat)
    requires k <= FirstEnd(song, 0)
    ensures Index(song, k) == k
    decreases k, song
  {
    if k > 0 {
      FirstPass(song, k - 1);
      FirstEndIs(song, 0);
    }
  }

  // Where the body holds none, the song stands still: however many events are counted from the
  // first END on, all of them are due in one poll, and there is always another.
  lemma {:induction false} StandsStill(song: seq<Event>, n: nat)
    requires !LoopWaits(song)
    ensures var e := FirstEnd(song, 0);
      && e < |song| && Fire(song, e + 1 + n) == Fire(song, e + 1)
      && LoopTarget(song, e) <= Index(song, e + 1 + n) <= e
    decreases n, song
  {
    var e := FirstEnd(song, 0);
    FirstEndIs(song, 0);
    FirstPass(song, e);
    BodyStep(song, e);
    if n > 0 {
      StandsStill(song, n - 1);
      BodyStep(song, Index(song, e + n));
    }
    hide Successor;
    hide LoopTarget;
    hide FirstEnd;
    hide LoopWaits;
    BodyStep(song, Index(song, e + 1 + n));
  }

  lemma BodyStep(song: seq<Event>, i: nat)
    requires !LoopWaits(song) && LoopTarget(song, FirstEnd(song, 0)) <= i <= FirstEnd(song, 0)
    ensures i < |song| && DeltaOf(song, i) == 0 && WaitOf(song, i) == 0
    ensures LoopTarget(song, FirstEnd(song, 0)) <= Successor(song, i) <= FirstEnd(song, 0)
  {
    FirstEndIs(song, 0);
    assert !Waits(song[i]);
  }

  // What follows the first END fires with it.
  lemma FirstTurn(song: seq<Event>)
    requires !LoopWaits(song)
    ensures var e := FirstEnd(song, 0);
      e < |song| && Index(song, e) == e && Fire(song, e + 1) == Fire(song, e)
  {
    var e := FirstEnd(song, 0);
    FirstEndIs(song, 0);
    FirstPass(song, e);
    BodyStep(song, e);
    BodyStep(song, Index(song, e + 1));
  }

  // A song for which it happens, in its first poll: nothing but an END.
  lemma NothingButEnd(song: seq<Event>)
    requires song == [Event(0, END, 0, 0)]
    ensures !LoopWaits(song) && Fire(song, FirstEnd(song, 0)) == 1
  {
    assert FirstEnd(song, 0) == 0;
  }
}
