/** The player: one poll a tick, firing the events that are due. */
module PsmPlayer {
  import opened Bits
  import opened PsmSong
  import opened PsmSound
  import V = PsmVoices

  class Player {
    const song: seq<Event>
    const voices: V.Voices
    const bank: Bank
    var current: nat
    var loopIndex: nat
    var wait: Word
    var deltaConsumed: bool
    var globalTick: Word
    var playing: bool
    // How many polls there were, which event fired in which, and what was heard from the start on
    // and after each of them.
    ghost var polls: nat
    ghost var log: seq<(nat, nat)>
    ghost var heard: seq<Sound>

    // What was heard is what the events that fired make of silence, and it is what sounds now.
    ghost predicate Heard()
      reads this, voices, voices.voices, voices.sustain
    {
      && Past(song, bank, voices.count, log, heard) && globalTick == polls % TWO32
      && voices.View() == Latest(log, heard, polls)
    }

    ghost predicate Valid()
      reads this, voices, voices.voices, voices.sustain
    {
      && voices.Valid() && voices.Settled()
      && |song| < TWO32
      && (forall e {:trigger e in song} :: e in song ==> e.channel < 16)
      && Timed(song, log) && current == Index(song, |log|) && loopIndex == LoopTarget(song, current)
      && Heard() && LastBy(log, polls)
      && (!playing ==> current == |song|)
      && (playing ==> polls + 1 + wait == if deltaConsumed then Fire(song, |log|) else Visit(song, |log|))
    }

    // Valid but for the keys, which this poll has yet to gather.
    ghost predicate Ready()
      reads this, voices, voices.voices, voices.sustain
    {
      && voices.Valid()
      && |song| < TWO32
      && (forall e {:trigger e in song} :: e in song ==> e.channel < 16)
      && Timed(song, log) && current == Index(song, |log|) && loopIndex == LoopTarget(song, current)
      && Past(song, bank, voices.count, log, heard) && globalTick == polls % TWO32
      && voices.View() == Latest(log, heard, polls + 1) && LastBy(log, polls)
      && (!playing ==> current == |song|)
      && (playing ==> polls + 1 + wait == if deltaConsumed then Fire(song, |log|) else Visit(song, |log|))
    }

    // A song freshly loaded, on `count` voices.
    constructor (song: seq<Event>, count: nat, bank: Bank)
      requires 1 <= count <= V.MAX_VOICES && |song| < TWO32
      requires forall e {:trigger e in song} :: e in song ==> e.channel < 16
      ensures Valid() && this.song == song && this.bank == bank && playing && polls == 0 && log == []
      ensures fresh(voices) && voices.count == count && voices.keyed == {}
    {
      this.song, this.bank := song, bank;
      voices := new V.Voices(count);
      current, loopIndex, wait, deltaConsumed, globalTick, playing := 0, 0, 0, false, 0, true;
      polls, log, heard := 0, [], [Silence(V.MAX_VOICES)];
    }

    // What an event does to the voices and to the schedule; `current` is already past it.
    method ProcessEvent(ev: Event)
      requires voices.Valid() && ev.channel < 16
      modifies `current, `loopIndex, `wait, `playing, voices, voices.voices, voices.sustain
      ensures voices.Valid() && voices.keyed == old(voices.keyed)
      ensures Plays(old(voices.View()), ev, globalTick, bank, voices.count, voices.View())
      ensures loopIndex == if ev.kind == LOOP_POINT then old(current) else old(loopIndex)
      ensures var back := ev.kind == END && old(loopIndex) < |song|;
        && current == (if back then old(loopIndex) else old(current))
        && wait == (if back then 0 else (old(wait) + LongWait(ev)) % TWO32)
        && playing == (old(playing) && (ev.kind == END ==> back))
      ensures forall i {:trigger voices.voices[i]} :: voices.count <= i < V.MAX_VOICES ==>
        voices.voices[i] == old(voices.voices[i])
    {
      hide Chosen;
      hide Ended;
      hide V.KeyedRight;
      hide V.HeldRight;
      hide V.Apart;
      hide LetUpOne;
      var ch := ev.channel;
      if ev.kind == NOTE_ON {
        var program, tone := ev.data / 0x1_0000 % 0x100, ev.data / 0x100_0000;
        if program < bank.programs && bank.vagOf(program * 16 + tone) >= 0 {
          var v := voices.NoteOn(ch, ev.data % 0x100, ev.data / 0x100 % 0x100, program, tone, globalTick);
        }
      } else if ev.kind == NOTE_OFF {
        voices.NoteOff(ch, ev.data % 0x100);
      } else if ev.kind == CC_SUSTAIN {
        voices.Sustain(ch, ev.data);
      } else if ev.kind == LOOP_POINT {
        loopIndex := current;
      } else if ev.kind == END {
        if loopIndex < |song| {
          current := loopIndex;
          wait := 0;
        } else {
          playing := false;
        }
      } else if ev.kind == LONG_WAIT {
        wait := (wait + ev.data) % TWO32;
      }
    }

    // At the top of the loop over events: the next one is looked at, or due, in this very poll.
    ghost predicate Due()
      reads this, voices, voices.voices, voices.sustain
    {
      && voices.Valid()
      && |song| < TWO32
      && (forall e {:trigger e in song} :: e in song ==> e.channel < 16)
      && Timed(song, log) && current == Index(song, |log|) && loopIndex == LoopTarget(song, current)
      && Heard() && LastBy(log, polls)
      && wait == 0 && playing
      && polls == if deltaConsumed then Fire(song, |log|) else Visit(song, |log|)
    }

    // Fires the event that is due. Nothing else of the schedule moves.
    method FireEvent()
      requires Due() && current < |song|
      requires deltaConsumed || song[current].deltaTick == 0
      modifies `current, `loopIndex, `wait, `playing, `deltaConsumed, `log, `heard,
               voices, voices.voices, voices.sustain
      ensures log == old(log) + [(old(current), polls)]
      ensures voices.Valid() && voices.keyed == old(voices.keyed)
      ensures Timed(song, log) && current == Index(song, |log|) == Successor(song, old(current))
      ensures Heard() && LastBy(log, polls) && old(heard) <= heard
      ensures loopIndex == LoopTarget(song, current) && playing && !deltaConsumed
      ensures wait == LongWait(song[old(current)]) && polls + wait == Visit(song, |log|)
      ensures forall i {:trigger voices.voices[i]} :: voices.count <= i < V.MAX_VOICES ==>
        voices.voices[i] == old(voices.voices[i])
    {
      hide Past;
      hide Latest;
      hide Plays;
      hide Index;
      hide Visit;
      hide Fire;
      hide LoopTarget;
      hide Successor;
      hide Timed;
      hide LastBy;
      var ev := song[current];
      assert ev in song;
      ghost var fired, was := log, heard;
      EventFires(song, log, deltaConsumed, polls);
      deltaConsumed := false;
      log := log + [(current, polls)];
      current := current + 1;
      ProcessEvent(ev);
      heard := heard + [voices.View()];
      PastGrows(song, bank, voices.count, fired, was, old(current), polls, voices.View());
    }

    // Whether the poll of this number returns: the only part of the song that repeats holds an
    // event that waits, or the song has not come to its end.
    ghost predicate Returns(poll: nat) {
      LoopWaits(song) || poll < Fire(song, FirstEnd(song, 0))
    }

    // One tick. Where it is asked to return it does.
    method PollEvents()
      requires Ready() && playing && Returns(polls + 1)
      modifies this, voices, voices.voices, voices.sustain
      ensures voices.Valid() && voices.keyed == old(voices.keyed) && polls == old(polls) + 1 && old(log) <= log
      ensures Timed(song, log) && current == Index(song, |log|) && loopIndex == LoopTarget(song, current)
      ensures Heard() && LastBy(log, polls) && old(heard) <= heard
      ensures !playing ==> current == |song|
      ensures playing ==> polls + 1 + wait == if deltaConsumed then Fire(song, |log|) else Visit(song, |log|)
      ensures forall i {:trigger voices.voices[i]} :: voices.count <= i < V.MAX_VOICES ==>
        voices.voices[i] == old(voices.voices[i])
    {
      hide Measure;
      hide LoopWaits;
      hide BodyMark;
      hide FirstEnd;
      hide Successor;
      hide LoopTarget;
      hide Index;
      hide Visit;
      hide Fire;
      hide Timed;
      hide Past;
      hide Latest;
      hide LastBy;
      LastLater(log, polls);
      globalTick := (globalTick + 1) % TWO32;
      polls := polls + 1;
      if wait > 0 {
        wait := wait - 1;
        return;
      }
      FireAllDue();
    }

    // The loop over events, until one has to be waited for.
    method FireAllDue()
      requires Due() && Returns(polls)
      modifies `current, `loopIndex, `wait, `playing, `deltaConsumed, `log, `heard,
               voices, voices.voices, voices.sustain
      ensures voices.Valid() && voices.keyed == old(voices.keyed) && old(log) <= log
      ensures Timed(song, log) && current == Index(song, |log|) && loopIndex == LoopTarget(song, current)
      ensures Heard() && LastBy(log, polls) && old(heard) <= heard
      ensures !playing ==> current == |song|
      ensures playing ==> polls + 1 + wait == if deltaConsumed then Fire(song, |log|) else Visit(song, |log|)
      ensures forall i {:trigger voices.voices[i]} :: voices.count <= i < V.MAX_VOICES ==>
        voices.voices[i] == old(voices.voices[i])
    {
      hide Measure;
      hide LoopWaits;
      hide BodyMark;
      hide FirstEnd;
      hide Successor;
      hide LoopTarget;
      hide Index;
      hide Visit;
      hide Fire;
      hide Timed;
      hide Past;
      hide Latest;
      hide LastBy;
      ghost var last := Waiting(song);
      while current < |song|
        invariant Due() && old(log) <= log && old(heard) <= heard
        invariant voices.keyed == old(voices.keyed)
        invariant forall i {:trigger voices.voices[i]} :: voices.count <= i < V.MAX_VOICES ==>
          voices.voices[i] == old(voices.voices[i])
        decreases deltaConsumed, Measure(song, last, current)
      {
        var ev := song[current];
        if ev.deltaTick > 0 && !deltaConsumed {
          FireIs(song, |log|);
          wait := ev.deltaTick - 1;
          deltaConsumed := true;
          return;
        }
        if !Waits(ev) { EventFalls(song, last, |log|, polls, deltaConsumed); }
        FireEvent();
        if ev.kind == END && playing { continue; }
        if wait > 0 {
          wait := wait - 1;
          return;
        }
      }
      playing := false;
    }

    // One poll, on any song: afterwards the voices keyed on at the SPU are exactly the active ones,
    // and every event fired so far fired in the poll its place in the unrolled song says. The only
    // polls left out are those that never return; see NeverReturns.
    method Poll()
      requires Valid() && (playing ==> Returns(polls + 1))
      modifies this, voices, voices.voices, voices.sustain
      ensures Valid() && old(log) <= log && old(heard) <= heard && polls == old(polls) + if old(playing) then 1 else 0
      ensures voices.keyed == if old(playing) then (old(voices.keyed) - voices.pendingOff) + voices.pendingOn
                              else old(voices.keyed)
      ensures forall i {:trigger voices.voices[i]} :: voices.count <= i < V.MAX_VOICES ==>
        voices.voices[i] == old(voices.voices[i])
    {
      if !playing { return; }
      NewPoll(log, heard, polls);
      voices.Gather();
      PollEvents();
      voices.Flush();
    }

    // In a poll that is not to return, every event from the first END on is due, and there is no
    // last one.
    lemma NeverReturns(poll: nat, n: nat)
      requires !Returns(poll) && n >= FirstEnd(song, 0)
      ensures Index(song, n) < |song| && Fire(song, n) <= poll
    {
      FirstTurn(song);
      if n > FirstEnd(song, 0) { StandsStill(song, n - (FirstEnd(song, 0) + 1)); }
    }

    // What has not fired by a poll is due in a later one, so the log is all that was due.
    lemma NothingMissed(k: nat)
      requires Valid() && |log| <= k && Index(song, |log|) < |song|
      ensures Fire(song, k) > polls
    {
      FireGrows(song, |log|, k);
    }
  }

  // A waiting event of the loop body, when there is a body; its END when none of it waits.
  ghost predicate BodyMark(song: seq<Event>, last: nat) {
    var e := FirstEnd(song, 0);
    e < |song| ==> LoopTarget(song, e) <= last <= e && if LoopWaits(song) then Waits(song[last]) else last == e
  }

  lemma Waiting(song: seq<Event>) returns (last: nat)
    ensures BodyMark(song, last)
  {
    var e := FirstEnd(song, 0);
    last := e;
    if e < |song| && LoopWaits(song) {
      var i :| LoopTarget(song, e) <= i <= e && Waits(song[i]);
      last := i;
    }
  }

  // Firing an event that does not wait brings the end of the poll closer, if there is one.
  lemma EventFalls(song: seq<Event>, last: nat, k: nat, poll: nat, consumed: bool)
    requires BodyMark(song, last) && (LoopWaits(song) || poll < Fire(song, FirstEnd(song, 0)))
    requires var i := Index(song, k); i < |song| && !Waits(song[i])
    requires poll == if consumed then Fire(song, k) else Visit(song, k)
    ensures var i := Index(song, k); Measure(song, last, Successor(song, i)) < Measure(song, last, i)
  {
    hide Measure;
    hide Successor;
    hide FirstEnd;
    hide LoopTarget;
    hide LoopWaits;
    IndexBeforeEnd(song, k);
    if !LoopWaits(song) { BeforeEnd(song, k, poll); }
    MeasureDrops(song, last, Index(song, k));
  }

  // An event that is due before the song comes to its end is before that end.
  lemma BeforeEnd(song: seq<Event>, k: nat, poll: nat)
    requires Fire(song, k) <= poll < Fire(song, FirstEnd(song, 0))
    ensures Index(song, k) < FirstEnd(song, 0)
  {
    if k >= FirstEnd(song, 0) { FireGrows(song, FirstEnd(song, 0), k); }
    FirstPass(song, k);
  }

  // --- what has fired ---------------------------------------------------------------------------

  // What was fired is the start of the unrolled song, each event in its poll.
  ghost predicate Timed(song: seq<Event>, log: seq<(nat, nat)>) {
    forall k {:trigger log[k]} :: 0 <= k < |log| ==> log[k] == (Index(song, k), Fire(song, k))
  }

  lemma FireIs(song: seq<Event>, k: nat)
    requires Index(song, k) < |song|
    ensures Fire(song, k) == Visit(song, k) + song[Index(song, k)].deltaTick
  {
  }

  // The next event of the song fires in the poll in which it is due, and what follows it is due
  // when its own wait is over. END goes back to the last loop point, which stays where it is.
  lemma EventFires(song: seq<Event>, log: seq<(nat, nat)>, consumed: bool, poll: nat)
    requires Timed(song, log) && Index(song, |log|) < |song|
    requires poll == if consumed then Fire(song, |log|) else Visit(song, |log|)
    requires consumed || song[Index(song, |log|)].deltaTick == 0
    ensures var i := Index(song, |log|);
      && Timed(song, log + [(i, poll)]) && LastBy(log + [(i, poll)], poll)
      && Index(song, |log + [(i, poll)]|) == Successor(song, i)
      && Visit(song, |log + [(i, poll)]|) == poll + LongWait(song[i])
      && Successor(song, i) == (if song[i].kind == END then LoopTarget(song, i) else i + 1)
      && LoopTarget(song, Successor(song, i)) == (if song[i].kind == LOOP_POINT then i + 1 else LoopTarget(song, i))
      && LoopTarget(song, i) < |song|
  {
    LoopTargetStays(song, Index(song, |log|));
  }

  // --- what has been heard ------------------------------------------------------------------------

  // What the k-th event found: the keys gathered so far in its own poll, none of an earlier one.
  function Found(log: seq<(nat, nat)>, heard: seq<Sound>, k: nat): Sound
    requires k < |log| && k < |heard|
  {
    if k > 0 && log[k - 1].1 == log[k].1 then heard[k] else Emptied(heard[k])
  }

  // What sounds in this poll after all of them.
  function Latest(log: seq<(nat, nat)>, heard: seq<Sound>, poll: nat): Sound
    requires |heard| == |log| + 1
  {
    if |log| > 0 && log[|log| - 1].1 == poll then heard[|log|] else Emptied(heard[|log|])
  }

  // From silence on, every event that fired made of the sound what it says, at its own tick.
  ghost predicate Past(song: seq<Event>, bank: Bank, count: nat, log: seq<(nat, nat)>, heard: seq<Sound>) {
    && |heard| == |log| + 1 && heard[0] == Silence(V.MAX_VOICES)
    && (forall k {:trigger heard[k]} :: 0 <= k < |heard| ==> |heard[k].pedals| == 16)
    && (forall k: nat {:trigger Played(song, bank, count, log, heard, k)} :: k < |log| ==>
          Played(song, bank, count, log, heard, k))
  }

  ghost predicate Played(song: seq<Event>, bank: Bank, count: nat, log: seq<(nat, nat)>, heard: seq<Sound>, k: nat) {
    && k < |log| && k + 1 < |heard| && |heard[k].pedals| == 16
    && log[k].0 < |song| && song[log[k].0].channel < 16
    && Plays(Found(log, heard, k), song[log[k].0], log[k].1 % TWO32, bank, count, heard[k + 1])
  }

  ghost predicate LastBy(log: seq<(nat, nat)>, poll: nat) {
    |log| > 0 ==> log[|log| - 1].1 <= poll
  }

  lemma LastLater(log: seq<(nat, nat)>, poll: nat)
    requires LastBy(log, poll)
    ensures LastBy(log, poll + 1)
  {
  }

  lemma PastGrows(song: seq<Event>, bank: Bank, count: nat, log: seq<(nat, nat)>, heard: seq<Sound>,
                  i: nat, poll: nat, b: Sound)
    requires Past(song, bank, count, log, heard) && i < |song| && song[i].channel < 16 && |b.pedals| == 16
    requires |Latest(log, heard, poll).pedals| == 16
    requires Plays(Latest(log, heard, poll), song[i], poll % TWO32, bank, count, b)
    ensures Past(song, bank, count, log + [(i, poll)], heard + [b])
    ensures Latest(log + [(i, poll)], heard + [b], poll) == b
  {
    hide Plays;
    var log', heard' := log + [(i, poll)], heard + [b];
    forall k: nat {:trigger Played(song, bank, count, log', heard', k)} | k < |log'|
      ensures Played(song, bank, count, log', heard', k)
    {
      if k < |log| {
        assert Played(song, bank, count, log, heard, k);
        assert Found(log', heard', k) == Found(log, heard, k);
      } else {
        assert Found(log', heard', k) == Latest(log, heard, poll);
      }
    }
  }

  // A new poll gathers its keys anew.
  lemma NewPoll(log: seq<(nat, nat)>, heard: seq<Sound>, poll: nat)
    requires |heard| == |log| + 1 && LastBy(log, poll)
    ensures Latest(log, heard, poll + 1) == Emptied(Latest(log, heard, poll))
  {
  }
}
