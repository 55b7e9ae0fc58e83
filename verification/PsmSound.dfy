/** What is heard: the voices, the pedals and the keys gathered in a poll, and what an event makes of them. */
module PsmSound {
  import opened Bits
  import opened PsmSong

  datatype Voice = Voice(active: bool, held: bool, channel: Byte, note: Byte, velocity: Byte,
                         program: Byte, tone: Byte, startTick: Word)

  // C's int of the 32-bit difference of two ticks.
  function Age(now: Word, start: Word): int {
    var d := (now - start) % TWO32;
    if d < 0x8000_0000 then d else d - TWO32
  }

  function Score(v: Voice, now: Word): int {
    (if v.held then 10000 else 0) + (127 - v.velocity as int) * 10 + Age(now, v.startTick)
  }

  // --- which voice a note takes -------------------------------------------------------------------

  // The lowest free voice. If there is none, the lowest of those with the highest score, or the
  // first when velocities above 127 bring every score below zero.
  ghost predicate Chosen(voices: seq<Voice>, count: nat, now: Word, best: nat) {
    && best < count <= |voices|
    && if exists i {:trigger voices[i]} :: 0 <= i < count && !voices[i].active then
         !voices[best].active && forall i {:trigger voices[i]} :: 0 <= i < best ==> voices[i].active
       else if Score(voices[best], now) < 0 then
         best == 0 && forall i {:trigger voices[i]} :: 0 <= i < count ==> Score(voices[i], now) < 0
       else
         forall i {:trigger voices[i]} :: 0 <= i < count ==>
           Score(voices[i], now) <= Score(voices[best], now)
           && (i < best ==> Score(voices[i], now) < Score(voices[best], now))
  }

  lemma ChosenOnce(voices: seq<Voice>, count: nat, now: Word, a: nat, b: nat)
    requires Chosen(voices, count, now, a) && Chosen(voices, count, now, b)
    ensures a == b
  {
    assert voices[a] == voices[a] && voices[b] == voices[b];
  }

  // Of two sounding voices that differ in one respect only, and neither of them older than 2^31
  // ticks, stealing spares the one whose note still lasts, the louder one, or the younger one.
  lemma StealsHeld(a: Voice, b: Voice, now: Word)
    requires a.held && !b.held && a.velocity == b.velocity && a.startTick == b.startTick
    ensures Score(a, now) > Score(b, now)
  {
  }

  lemma StealsQuiet(a: Voice, b: Voice, now: Word)
    requires a.held == b.held && a.velocity < b.velocity && a.startTick == b.startTick
    ensures Score(a, now) > Score(b, now)
  {
  }

  lemma StealsOld(a: Voice, b: Voice, now: Word)
    requires a.held == b.held && a.velocity == b.velocity
    requires a.startTick < b.startTick <= now < a.startTick + 0x8000_0000
    ensures Score(a, now) > Score(b, now)
  {
  }

  // How the three weigh against each other, for voices that started up to now: being held is
  // worth 1000 steps of velocity, and each of those ten ticks.
  lemma ScoreWeighs(v: Voice, now: Word)
    requires v.startTick <= now < v.startTick + 0x8000_0000
    ensures Score(v, now) == 10 * (127 - v.velocity as int) + (now - v.startTick) + if v.held then 10 * 1000 else 0
  {
  }

  // The voice taken when none is free, told by what it is worth.
  lemma StealsWorst(voices: seq<Voice>, count: nat, now: Word, best: nat, i: nat)
    requires Chosen(voices, count, now, best) && i < count && Score(voices[i], now) > Score(voices[best], now) >= 0
    ensures exists j {:trigger voices[j]} :: 0 <= j < count && !voices[j].active
  {
    assert voices[i] == voices[i];
  }

  // --- notes and pedals -------------------------------------------------------------------------------

  // What a NOTE_OFF does to one voice.
  function StopNote(v: Voice, channel: Byte, note: Byte, pedal: Byte): Voice {
    if !(v.active && v.channel == channel && v.note == note) then v
    else if pedal >= 64 then v.(held := true)
    else v.(active := false)
  }

  function StopNotes(voices: seq<Voice>, count: nat, channel: Byte, note: Byte, pedal: Byte): (r: seq<Voice>)
    ensures |r| == |voices|
  {
    seq(|voices|, i requires 0 <= i < |voices| =>
      if i < count then StopNote(voices[i], channel, note, pedal) else voices[i])
  }

  // What letting the pedal up does to one voice.
  function LetUpOne(v: Voice, channel: Byte): Voice {
    if v.active && v.held && v.channel == channel then v.(active := false, held := false) else v
  }

  function LetUp(voices: seq<Voice>, count: nat, channel: Byte, val: Byte): (r: seq<Voice>)
    ensures |r| == |voices|
  {
    seq(|voices|, i requires 0 <= i < |voices| =>
      if i < count && val < 64 then LetUpOne(voices[i], channel) else voices[i])
  }

  function Ended(was: seq<Voice>, now: seq<Voice>): set<nat>
    requires |was| == |now|
  {
    set i: nat | i < |was| && was[i].active && !now[i].active
  }

  // --- events -----------------------------------------------------------------------------------------

  // `on` and `off` are the voices to be keyed on and off when the poll ends.
  datatype Sound = Sound(voices: seq<Voice>, pedals: seq<Byte>, on: set<nat>, off: set<nat>)

  function Silence(count: nat): Sound {
    Sound(seq(count, _ => Voice(false, false, 0, 0, 0, 0, 0, 0)), seq(16, _ => 0), {}, {})
  }

  function Emptied(s: Sound): Sound {
    s.(on := {}, off := {})
  }

  // The bank's programs, and the sample of each tone in its table, negative for none.
  datatype Bank = Bank(programs: nat, vagOf: nat -> int)

  predicate Sampled(bank: Bank, program: Byte, tone: Byte) {
    program < bank.programs && bank.vagOf(program as nat * 16 + tone as nat) >= 0
  }

  // A note that starts takes one voice and keys it on, and a key off still to come is taken back.
  ghost predicate Starts(a: Sound, count: nat, note: Voice, now: Word, b: Sound) {
    exists v: nat :: Chosen(a.voices, count, now, v)
                && b == Sound(a.voices[v := note], a.pedals, a.on + {v}, a.off - {v})
  }

  // Voices that end are keyed off, and a key on still to come is taken back.
  function Ending(a: Sound, voices: seq<Voice>, pedals: seq<Byte>): Sound
    requires |voices| == |a.voices|
  {
    var off := Ended(a.voices, voices);
    Sound(voices, pedals, a.on - off, a.off + off)
  }

  // What an event makes of the sound: notes and the pedal change it, nothing else does.
  ghost predicate Plays(a: Sound, ev: Event, now: Word, bank: Bank, count: nat, b: Sound)
    requires |a.pedals| == 16 && ev.channel < 16
  {
    var ch, data := ev.channel, ev.data;
    if ev.kind == NOTE_ON then
      var note, velocity := ByteOfWord(data, 0), ByteOfWord(data, 1);
      var program, tone := ByteOfWord(data, 2), ByteOfWord(data, 3);
      if Sampled(bank, program, tone)
      then Starts(a, count, Voice(true, false, ch, note, velocity, program, tone, now), now, b)
      else b == a
    else if ev.kind == NOTE_OFF then
      b == Ending(a, StopNotes(a.voices, count, ch, ByteOfWord(data, 0), a.pedals[ch]), a.pedals)
    else if ev.kind == CC_SUSTAIN then
      b == Ending(a, LetUp(a.voices, count, ch, data % 128), a.pedals[ch := data % 128])
    else b == a
  }

  // --- what that means --------------------------------------------------------------------------------

  // A NOTE_ON of these four bytes sounds on one voice, the chosen one, which is keyed on; without
  // a sample nothing happens.
  lemma NoteOnPlays(a: Sound, ev: Event, now: Word, bank: Bank, count: nat, b: Sound,
                    note: Byte, velocity: Byte, program: Byte, tone: Byte) returns (v: nat)
    requires |a.pedals| == 16 && ev.channel < 16 && Plays(a, ev, now, bank, count, b) && ev.kind == NOTE_ON
    requires ev.data == note + 0x100 * velocity + 0x1_0000 * program + 0x100_0000 * tone
    ensures !(program < bank.programs && bank.vagOf(16 * program as nat + tone as nat) >= 0) ==> b == a
    ensures program < bank.programs && bank.vagOf(16 * program as nat + tone as nat) >= 0 ==>
      && Chosen(a.voices, count, now, v) && |b.voices| == |a.voices| && v in b.on && v !in b.off
      && b.voices[v].active && !b.voices[v].held && b.voices[v].channel == ev.channel
      && b.voices[v].note == note && b.voices[v].velocity == velocity
      && b.voices[v].program == program && b.voices[v].tone == tone && b.voices[v].startTick == now
      && (forall i {:trigger b.voices[i]} :: 0 <= i < |b.voices| && i != v ==> b.voices[i] == a.voices[i])
      && (forall i: nat :: i != v ==> (i in b.on <==> i in a.on) && (i in b.off <==> i in a.off))
      && b.pedals == a.pedals
  {
    WordSpells(note, velocity, program, tone);
    v := 0;
    if Sampled(bank, program, tone) {
      v :| Chosen(a.voices, count, now, v)
           && b == Sound(a.voices[v := Voice(true, false, ev.channel, note, velocity, program, tone, now)],
                         a.pedals, a.on + {v}, a.off - {v});
    }
  }

  // A NOTE_OFF ends the sounding voices of its channel and note, or holds them while the pedal is
  // down; no other voice changes, and those that end are keyed off.
  lemma NoteOffPlays(a: Sound, ev: Event, now: Word, bank: Bank, count: nat, b: Sound, i: nat)
    requires |a.pedals| == 16 && ev.channel < 16 && Plays(a, ev, now, bank, count, b) && ev.kind == NOTE_OFF
    requires i < |a.voices| && count <= |a.voices|
    ensures |b.voices| == |a.voices| && b.pedals == a.pedals
    ensures var was, got, down := a.voices[i], b.voices[i], a.pedals[ev.channel] >= 64;
            if i < count && was.active && was.channel == ev.channel && was.note == ev.data % 0x100 then
              && got.active == down && got.held == (was.held || down)
              && got == was.(active := got.active, held := got.held)
              && (!down ==> i in b.off && i !in b.on)
            else got == was
    ensures b.voices[i].active == a.voices[i].active ==>
      (i in b.on <==> i in a.on) && (i in b.off <==> i in a.off)
  {
  }

  // The pedal: let up, it ends exactly the sounding voices of its channel that it held.
  lemma PedalPlays(a: Sound, ev: Event, now: Word, bank: Bank, count: nat, b: Sound, i: nat)
    requires |a.pedals| == 16 && ev.channel < 16 && Plays(a, ev, now, bank, count, b) && ev.kind == CC_SUSTAIN
    requires i < |a.voices| && count <= |a.voices|
    ensures |b.voices| == |a.voices| && b.pedals == a.pedals[ev.channel := ev.data % 0x80]
    ensures var was, got := a.voices[i], b.voices[i];
            if i < count && ev.data % 0x80 < 64 && was.active && was.held && was.channel == ev.channel then
              !got.active && !got.held && got == was.(active := false, held := false) && i in b.off && i !in b.on
            else got == was
    ensures b.voices[i].active == a.voices[i].active ==>
      (i in b.on <==> i in a.on) && (i in b.off <==> i in a.off)
  {
  }

  // The first note of a song: middle C at velocity 100 sounds on the first voice.
  lemma FirstNote(bank: Bank, count: nat, b: Sound)
    requires count > 0 && bank.programs > 0 && bank.vagOf(0) >= 0
    requires Plays(Silence(count), Event(0, 0, 0, 0x643C), 1, bank, count, b)
    ensures b.voices[0] == Voice(true, false, 0, 60, 100, 0, 0, 1) && b.on == {0} && b.off == {}
  {
    var a := Silence(count);
    assert !a.voices[0].active;
    var v := NoteOnPlays(a, Event(0, 0, 0, 0x643C), 1, bank, count, b, 60, 100, 0, 0);
    assert v == 0;
  }
}
