/**
 * The player's notification ring, one writer and one reader, as the machine its loads and
 * stores make when the two are interleaved in any way. Each step is one load or store of
 * shared memory, in program order.
 */
module PsmQueue {
  import opened Bits

  const SIZE: nat := 64

  datatype Notify = Notify(kind: Byte, tag: Byte, data: Word)

  // Where the writer is inside pushNotify: it has loaded the head, then seen a tail that leaves
  // room, then stored the fields one by one.
  datatype Writer = WIdle | WLoaded(item: Notify, head: nat) | WRoom(item: Notify, head: nat)
                  | WKind(item: Notify, head: nat) | WTag(item: Notify, head: nat) | WFull(item: Notify, head: nat)

  // Where the reader is inside PSM_PopNotify: it has loaded the tail, then seen a head that differs,
  // then copied the fields one by one.
  datatype Reader = RIdle | RLoaded(tail: nat) | RFound(tail: nat)
                  | RKind(tail: nat, kind: Byte)
                  | RTag(tail: nat, kind: Byte, tag: Byte) | RDone(tail: nat, out: Notify)

  // Shared memory and both threads, with what they have done so far.
  datatype State = State(slots: seq<Notify>, head: nat, tail: nat, w: Writer, r: Reader, dropCount: Word,
                         accepted: seq<Notify>, popped: seq<Notify>, drops: nat, pushes: nat)

  // The ring as it is before anything is pushed; what its slots hold does not matter.
  predicate Starts(s: State) {
    && |s.slots| == SIZE && s.head == 0 && s.tail == 0 && s.w.WIdle? && s.r.RIdle? && s.dropCount == 0
    && s.accepted == [] && s.popped == [] && s.drops == 0 && s.pushes == 0
  }

  function WriterStep(s: State): State
    requires |s.slots| == SIZE && !s.w.WIdle? && s.w.head < SIZE
  {
    var h := s.w.head;
    match s.w
    case WLoaded(item, _) =>
      if (h + 1) % SIZE == s.tail
      then s.(w := WIdle, dropCount := (s.dropCount + 1) % TWO32, drops := s.drops + 1)
      else s.(w := WRoom(item, h))
    case WRoom(item, _) => s.(w := WKind(item, h), slots := s.slots[h := s.slots[h].(kind := item.kind)])
    case WKind(item, _) => s.(w := WTag(item, h), slots := s.slots[h := s.slots[h].(tag := item.tag)])
    case WTag(item, _) => s.(w := WFull(item, h), slots := s.slots[h := s.slots[h].(data := item.data)])
    case WFull(item, _) => s.(w := WIdle, head := (h + 1) % SIZE, accepted := s.accepted + [item])
  }

  function ReaderStep(s: State): State
    requires |s.slots| == SIZE && !s.r.RIdle? && s.r.tail < SIZE
  {
    var t := s.r.tail;
    match s.r
    case RLoaded(_) => if t == s.head then s.(r := RIdle) else s.(r := RFound(t))
    case RFound(_) => s.(r := RKind(t, s.slots[t].kind))
    case RKind(_, kind) => s.(r := RTag(t, kind, s.slots[t].tag))
    case RTag(_, kind, tag) => s.(r := RDone(t, Notify(kind, tag, s.slots[t].data)))
    case RDone(_, out) => s.(r := RIdle, tail := (t + 1) % SIZE, popped := s.popped + [out])
  }

  // The scheduler's choice: the writer starts a push or goes on, the reader starts a pop or goes on.
  datatype Act = Push(item: Notify) | Write | Pop | Read

  function Next(s: State, a: Act): State
    requires Inv(s)
  {
    match a
    case Push(item) =>
      if s.w.WIdle? then s.(w := WLoaded(item, s.head), pushes := s.pushes + 1) else s
    case Write => if s.w.WIdle? then s else WriterStep(s)
    case Pop => if s.r.RIdle? then s.(r := RLoaded(s.tail)) else s
    case Read => if s.r.RIdle? then s else ReaderStep(s)
  }

  function Held(s: State): int {
    |s.accepted| - |s.popped|
  }

  // The writer is between seeing room and storing the head.
  predicate Writing(s: State) {
    s.w.WRoom? || s.w.WKind? || s.w.WTag? || s.w.WFull?
  }

  // The reader is between seeing an item and storing the tail.
  predicate Reading(s: State) {
    s.r.RFound? || s.r.RKind? || s.r.RTag? || s.r.RDone?
  }

  // What the writer has stored of its item, and the reader copied of the oldest one.
  predicate Stored(s: State)
    requires |s.slots| == SIZE && (!s.w.WIdle? ==> s.w.head < SIZE)
  {
    && ((s.w.WKind? || s.w.WTag? || s.w.WFull?) ==> s.slots[s.w.head].kind == s.w.item.kind)
    && ((s.w.WTag? || s.w.WFull?) ==> s.slots[s.w.head].tag == s.w.item.tag)
    && (s.w.WFull? ==> s.slots[s.w.head].data == s.w.item.data)
  }

  predicate Copied(s: State)
    requires |s.popped| < |s.accepted|
  {
    var oldest := s.accepted[|s.popped|];
    && (s.r.RKind? ==> s.r.kind == oldest.kind)
    && (s.r.RTag? ==> s.r.kind == oldest.kind && s.r.tag == oldest.tag)
    && (s.r.RDone? ==> s.r.out == oldest)
  }

  // The slots between tail and head hold the items not yet popped, oldest first.
  ghost predicate Queued(s: State)
    requires |s.slots| == SIZE
  {
    forall i {:trigger s.accepted[i]} :: |s.popped| <= i < |s.accepted| ==> s.slots[i % SIZE] == s.accepted[i]
  }

  ghost predicate Inv(s: State) {
    && |s.slots| == SIZE && 0 <= Held(s) < SIZE
    && s.head == |s.accepted| % SIZE && s.tail == |s.popped| % SIZE
    && s.popped == s.accepted[..|s.popped|] && Queued(s)
    && (!s.w.WIdle? ==> s.w.head == s.head) && (!s.r.RIdle? ==> s.r.tail == s.tail)
    && (Writing(s) ==> Held(s) < SIZE - 1) && Stored(s)
    && (Reading(s) ==> Held(s) > 0 && Copied(s))
    && s.dropCount == s.drops % TWO32
    && s.pushes == |s.accepted| + s.drops + if s.w.WIdle? then 0 else 1
  }

  // --- the ring's arithmetic -------------------------------------------------------------------------

  lemma RingApart(a: nat, b: nat)
    requires a <= b <= a + SIZE
    ensures a % SIZE == b % SIZE <==> a == b || b == a + SIZE
  {
  }

  lemma RingNext(a: nat)
    ensures (a % SIZE + 1) % SIZE == (a + 1) % SIZE
  {
  }

  // --- every step keeps the invariant ----------------------------------------------------------------

  lemma StartsInv(s: State)
    requires Starts(s)
    ensures Inv(s)
  {
  }

  // A store into the slot at the head touches none that is queued.
  lemma HeadSlotFree(s: State, slot: Notify, t: State)
    requires Inv(s) && Writing(s) && t.slots == s.slots[s.head := slot]
    requires t.accepted == s.accepted && t.popped == s.popped
    ensures Queued(t)
  {
    forall i {:trigger t.accepted[i]} | |t.popped| <= i < |t.accepted|
      ensures t.slots[i % SIZE] == t.accepted[i]
    {
      RingApart(i, |s.accepted|);
      assert s.slots[i % SIZE] == s.accepted[i];
    }
  }

  lemma WriteKeeps(s: State)
    requires Inv(s) && !s.w.WIdle?
    ensures Inv(WriterStep(s))
  {
    var t := WriterStep(s);
    RingNext(|s.accepted|);
    match s.w
    case WLoaded(item, h) =>
      RingApart(|s.popped|, |s.accepted| + 1);
    case WRoom(item, h) =>
      HeadSlotFree(s, t.slots[h], t);
    case WKind(item, h) =>
      HeadSlotFree(s, t.slots[h], t);
    case WTag(item, h) =>
      HeadSlotFree(s, t.slots[h], t);
    case WFull(item, h) =>
      PublishKeeps(s);
  }

  // The slot at the head is complete when the head moves past it.
  lemma PublishKeeps(s: State)
    requires Inv(s) && s.w.WFull?
    ensures Inv(WriterStep(s))
  {
    var t := WriterStep(s);
    RingNext(|s.accepted|);
    assert t.accepted[..|t.popped|] == s.accepted[..|s.popped|];
    assert s.slots[s.head] == s.w.item;
  }

  lemma ReadKeeps(s: State)
    requires Inv(s) && !s.r.RIdle?
    ensures Inv(ReaderStep(s))
  {
    var t := ReaderStep(s);
    RingNext(|s.popped|);
    if s.r.RLoaded? { RingApart(|s.popped|, |s.accepted|); }
    if Reading(s) { assert s.slots[|s.popped| % SIZE] == s.accepted[|s.popped|]; }
    if s.r.RDone? {
      assert s.accepted[..|s.popped| + 1] == s.accepted[..|s.popped|] + [s.accepted[|s.popped|]];
    }
  }

  lemma NextKeeps(s: State, a: Act)
    requires Inv(s)
    ensures Inv(Next(s, a))
  {
    match a
    case Push(_) =>
    case Write => if !s.w.WIdle? { WriteKeeps(s); }
    case Pop =>
    case Read => if !s.r.RIdle? { ReadKeeps(s); }
  }

  function Run(start: State, acts: seq<Act>): (s: State)
    requires Starts(start)
    ensures Inv(s)
    decreases |acts|
  {
    if acts == [] then
      StartsInv(start);
      start
    else
      var s := Run(start, acts[..|acts| - 1]);
      NextKeeps(s, acts[|acts| - 1]);
      Next(s, acts[|acts| - 1])
  }

  // --- what that says ------------------------------------------------------------------------------------

  // However the two are interleaved: what was popped and what is held are the accepted items in
  // order, at most 63 are held, and every finished push was accepted or counted as dropped.
  lemma NothingLost(start: State, acts: seq<Act>)
    requires Starts(start)
    ensures var s := Run(start, acts);
      && s.popped == s.accepted[..|s.popped|] && |s.accepted| - |s.popped| <= 63
      && (s.w.WIdle? ==> |s.accepted| + s.drops == s.pushes) && s.dropCount == s.drops % TWO32
  {
    hide Next;
    var s := Run(start, acts);
    assert Inv(s);
  }

  // The slot the writer is filling is never the one the reader is copying.
  lemma NeverTorn(start: State, acts: seq<Act>)
    requires Starts(start)
    ensures var s := Run(start, acts); Writing(s) && Reading(s) ==> s.w.head != s.r.tail
  {
    hide Next;
    var s := Run(start, acts);
    if Writing(s) && Reading(s) { RingApart(|s.popped|, |s.accepted|); }
  }

  // A push is dropped only while 63 items are held, and a pop comes back empty only while none is.
  lemma DropsOnlyWhenFull(start: State, acts: seq<Act>)
    requires Starts(start)
    ensures var s := Run(start, acts);
      && (s.w.WLoaded? ==> (WriterStep(s).drops > s.drops <==> |s.accepted| - |s.popped| == 63))
      && (s.r.RLoaded? ==> (ReaderStep(s).r.RIdle? <==> Held(s) == 0))
  {
    hide Next;
    var s := Run(start, acts);
    RingNext(|s.accepted|);
    RingApart(|s.popped|, |s.accepted|);
    RingApart(|s.popped|, |s.accepted| + 1);
  }
}
