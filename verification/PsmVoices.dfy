/** The player's voices: allocation and stealing, the sustain pedal, and key on and off in batches. */
module PsmVoices {
  import opened Bits
  import opened PsmSound

  const MAX_VOICES: nat := 24

  ghost predicate KeyedRight(voices: seq<Voice>, count: nat, keys: set<nat>) {
    forall i: nat {:trigger i in keys} :: i in keys <==> (i < count && i < |voices| && voices[i].active)
  }

  ghost predicate Apart(on: set<nat>, off: set<nat>) {
    forall i: nat {:trigger i in on} {:trigger i in off} :: !(i in on && i in off)
  }

  // Keying more voices off, all of them just ended, keeps the keys right.
  lemma KeyedOff(was: seq<Voice>, now: seq<Voice>, count: nat, keyed: set<nat>, on: set<nat>, off: set<nat>,
                 bits: set<nat>)
    requires |was| == |now| && KeyedRight(was, count, (keyed - off) + on) && Apart(on, off)
    requires bits == Ended(was, now)
    requires forall i {:trigger now[i]} :: 0 <= i < |now| && now[i].active ==> was[i].active
    ensures KeyedRight(now, count, (keyed - (off + bits)) + (on - bits)) && Apart(on - bits, off + bits)
  {
    var keys, more := (keyed - off) + on, (keyed - (off + bits)) + (on - bits);
    forall i: nat {:trigger i in more}
      ensures i in more <==> (i < count && i < |now| && now[i].active)
    {
      assert i in keys <==> (i < count && i < |was| && was[i].active);
      if i < |now| { assert now[i].active ==> was[i].active; }
    }
  }

  lemma KeyedOn(was: seq<Voice>, now: seq<Voice>, count: nat, keyed: set<nat>, on: set<nat>, off: set<nat>, v: nat)
    requires v < count <= |was| && KeyedRight(was, count, (keyed - off) + on) && Apart(on, off)
    requires |now| == |was| && now == was[v := now[v]] && now[v].active
    ensures KeyedRight(now, count, (keyed - (off - {v})) + (on + {v})) && Apart(on + {v}, off - {v})
  {
    var keys, more := (keyed - off) + on, (keyed - (off - {v})) + (on + {v});
    forall i: nat {:trigger i in more}
      ensures i in more <==> (i < count && i < |now| && now[i].active)
    {
      assert i in keys <==> (i < count && i < |was| && was[i].active);
    }
  }

  // A held voice is active, and its channel's pedal is down.
  ghost predicate HeldRight(voices: seq<Voice>, sustain: seq<Byte>) {
    forall i {:trigger voices[i]} :: 0 <= i < |voices| && voices[i].held ==>
      voices[i].active && voices[i].channel < |sustain| && sustain[voices[i].channel] >= 64
  }

  class Voices {
    const count: nat
    const voices: array<Voice>
    // Controller 64 of each channel.
    const sustain: array<Byte>
    var pendingOn: set<nat>
    var pendingOff: set<nat>
    // What the SPU has been told: the voices keyed on and not keyed off since.
    var keyed: set<nat>

    // Everything an event may change.
    ghost function View(): Sound
      reads this, voices, sustain
    {
      Sound(voices[..], sustain[..], pendingOn, pendingOff)
    }

    // Batches that are not empty and disjoint, over the voices in use only.
    ghost predicate Valid()
      reads this, voices, sustain
    {
      && 1 <= count <= MAX_VOICES && voices.Length == MAX_VOICES && sustain.Length == 16
      && Apart(pendingOn, pendingOff)
      && KeyedRight(voices[..], count, (keyed - pendingOff) + pendingOn)
      && HeldRight(voices[..], sustain[..])
      && (forall i: nat {:trigger i in pendingOff} :: i in pendingOff ==> i < count)
      && (forall i {:trigger voices[i]} :: count <= i < MAX_VOICES ==> !voices[i].active)
    }

    // As after loading a bank and a song: nothing sounds.
    constructor (count: nat)
      requires 1 <= count <= MAX_VOICES
      ensures Valid() && Settled() && this.count == count && keyed == pendingOn == pendingOff == {}
      ensures fresh(voices) && fresh(sustain)
      ensures View() == Silence(MAX_VOICES)
    {
      this.count := count;
      voices := new Voice[MAX_VOICES](_ => Voice(false, false, 0, 0, 0, 0, 0, 0));
      sustain := new Byte[16](_ => 0);
      pendingOn, pendingOff, keyed := {}, {}, {};
      new;
      assert voices[..] == Silence(MAX_VOICES).voices && sustain[..] == Silence(MAX_VOICES).pedals;
    }

    method Allocate(now: Word) returns (best: nat)
      requires Valid()
      ensures best < count && Chosen(voices[..], count, now, best)
    {
      var i := 0;
      while i < count
        invariant 0 <= i <= count
        invariant forall j {:trigger voices[j]} :: 0 <= j < i ==> voices[j].active
      {
        if !voices[i].active { return i; }
        i := i + 1;
      }
      best := 0;
      var bestScore := -1;
      i := 0;
      while i < count
        invariant 0 <= i <= count && best < count
        invariant bestScore >= -1 && if bestScore == -1 then best == 0 else bestScore == Score(voices[best], now)
        invariant forall j {:trigger voices[j]} :: 0 <= j < i ==> Score(voices[j], now) <= bestScore
        invariant bestScore >= 0 ==>
                    best < i && forall j {:trigger voices[j]} :: 0 <= j < best ==> Score(voices[j], now) < bestScore
      {
        var score := 0;
        if voices[i].held { score := score + 10000; }
        score := score + (127 - voices[i].velocity as int) * 10;
        score := score + Age(now, voices[i].startTick);
        if score > bestScore {
          bestScore := score;
          best := i;
        }
        i := i + 1;
      }
    }

    // A note starts on the voice allocated for it. A stolen voice is not keyed off first, and a
    // key off pending for it is taken back.
    method NoteOn(channel: Byte, note: Byte, velocity: Byte, program: Byte, tone: Byte, now: Word) returns (v: nat)
      requires Valid()
      modifies this, voices
      ensures Valid() && keyed == old(keyed) && v < count
      ensures voices[..] == old(voices[..])[v := Voice(true, false, channel, note, velocity, program, tone, now)]
      ensures pendingOff == old(pendingOff) - {v} && pendingOn == old(pendingOn) + {v}
      ensures Chosen(old(voices[..]), count, now, v)
    {
      v := Allocate(now);
      ghost var was := voices[..];
      voices[v] := Voice(true, false, channel, note, velocity, program, tone, now);
      assert voices[..] == was[v := voices[v]];
      KeyedOn(was, voices[..], count, keyed, pendingOn, pendingOff, v);
      pendingOff := pendingOff - {v};
      pendingOn := pendingOn + {v};
    }

    // The voices sounding a note: held while the pedal is down, otherwise keyed off.
    method NoteOff(channel: Byte, note: Byte)
      requires Valid() && channel < 16
      modifies this, voices
      ensures Valid() && keyed == old(keyed)
      ensures voices[..] == StopNotes(old(voices[..]), count, channel, note, sustain[channel])
      ensures var off := Ended(old(voices[..]), voices[..]);
        pendingOff == old(pendingOff) + off && pendingOn == old(pendingOn) - off
    {
      ghost var was, down := voices[..], sustain[channel];
      var keyOffBits: set<nat> := {};
      for v := 0 to count
        modifies voices
        invariant forall i {:trigger voices[i]} :: 0 <= i < v ==> voices[i] == StopNote(was[i], channel, note, down)
        invariant forall i {:trigger voices[i]} :: v <= i < MAX_VOICES ==> voices[i] == was[i]
        invariant forall i: nat {:trigger i in keyOffBits} ::
                    i in keyOffBits <==> (i < v && was[i].active && !voices[i].active)
      {
        if voices[v].active && voices[v].channel == channel && voices[v].note == note {
          if sustain[channel] >= 64 {
            voices[v] := voices[v].(held := true);
          } else {
            voices[v] := voices[v].(active := false);
            keyOffBits := keyOffBits + {v};
          }
        }
      }
      assert keyOffBits == Ended(was, voices[..]);
      KeyedOff(was, voices[..], count, keyed, pendingOn, pendingOff, keyOffBits);
      pendingOn := pendingOn - keyOffBits;
      pendingOff := pendingOff + keyOffBits;
    }

    // The pedal: letting it up ends every voice it held on the channel.
    method Sustain(channel: Byte, data: Word)
      requires Valid() && channel < 16
      modifies this, voices, sustain
      ensures Valid() && keyed == old(keyed)
      ensures sustain[..] == old(sustain[..])[channel := data % 128]
      ensures voices[..] == LetUp(old(voices[..]), count, channel, data % 128)
      ensures var off := Ended(old(voices[..]), voices[..]);
        pendingOff == old(pendingOff) + off && pendingOn == old(pendingOn) - off
    {
      ghost var was := voices[..];
      var val := data % 128;
      sustain[channel] := val;
      if val < 64 {
        var keyOffBits: set<nat> := {};
        for v := 0 to count
          modifies voices
          invariant forall i {:trigger voices[i]} :: 0 <= i < v ==> voices[i] == LetUpOne(was[i], channel)
          invariant forall i {:trigger voices[i]} :: v <= i < MAX_VOICES ==> voices[i] == was[i]
          invariant forall i: nat {:trigger i in keyOffBits} ::
                      i in keyOffBits <==> (i < v && was[i].active && !voices[i].active)
        {
          if voices[v].active && voices[v].held && voices[v].channel == channel {
            voices[v] := voices[v].(active := false, held := false);
            keyOffBits := keyOffBits + {v};
          }
        }
        assert keyOffBits == Ended(was, voices[..]);
        KeyedOff(was, voices[..], count, keyed, pendingOn, pendingOff, keyOffBits);
        pendingOn := pendingOn - keyOffBits;
        pendingOff := pendingOff + keyOffBits;
      } else {
        assert pendingOn - {} == pendingOn && pendingOff + {} == pendingOff;
      }
    }

    // Between polls the voices keyed on are exactly the active ones.
    ghost predicate Settled()
      reads this, voices
    {
      KeyedRight(voices[..], count, keyed)
    }

    // A poll starts with empty batches.
    method Gather()
      requires Valid() && Settled()
      modifies this
      ensures Valid() && Settled() && View() == Emptied(old(View())) && keyed == old(keyed)
    {
      pendingOn, pendingOff := {}, {};
      assert (keyed - {}) + {} == keyed;
    }

    // And ends with at most one write of each, off before on.
    method Flush()
      requires Valid()
      modifies this`keyed
      ensures Valid() && Settled()
      ensures keyed == (old(keyed) - pendingOff) + pendingOn
    {
      ghost var keys := (keyed - pendingOff) + pendingOn;
      if pendingOff != {} { keyed := keyed - pendingOff; }
      if pendingOn != {} { keyed := keyed + pendingOn; }
      assert keyed == keys && (keyed - pendingOff) + pendingOn == keys;
    }
  }
}
