/** The invariant of the command ring, and its preservation by every event. */
module RingSafety {
  import opened Bits
  import opened Errors
  import opened RingProtocol

  /** Between passing `wait_for_empty` and storing EMPTY, or stuck in between. */
  predicate Holds(st: Stage) {
    match st
    case AwaitCapacity => false
    case AwaitEmpty => false
    case Released => false
    case Retiring(_) => false
    case Done => false
    case Failed(held, _) => held != Empty
    case _ => true
  }

  /** The slot state a holder's slot is in. */
  function SlotValue(st: Stage): SlotState {
    match st
    case Filling(_) => Writing
    case AwaitTurn => Ready
    case MyTurn => Ready
    case TailWritten => Ready
    case Marked => Published
    case AwaitConsumed => Published
    case Consumed => Published
    case Releasing => Published
    case Failed(held, _) => held
    case _ => Empty
  }

  predicate PassedCapacity(st: Stage) {
    !st.AwaitCapacity? && !(st.Failed? && st.held == Empty)
  }

  /** The whole descriptor has been written. */
  predicate Filled(st: Stage) {
    Holds(st) && !st.SawEmpty? && !st.Filling?
  }

  predicate TailDone(st: Stage) {
    st.TailWritten? || st.Marked? || Committed(st)
  }

  predicate Committed(st: Stage) {
    match st
    case AwaitConsumed => true
    case Consumed => true
    case Releasing => true
    case Released => true
    case Retiring(_) => true
    case Done => true
    case Failed(held, _) => held == Published
    case _ => false
  }

  /** The call has seen the head register leave its slot. */
  predicate PassedWait(st: Stage) {
    st.Consumed? || st.Releasing? || st.Released? || st.Retiring? || st.Done?
  }

  predicate Prefix(a: seq<Byte>, b: seq<Byte>, n: nat) {
    n <= |a| && n <= |b| && forall i :: 0 <= i < n ==> a[i] == b[i]
  }

  function ExpectedTail(c: Ring, k: nat): nat
    requires c.Valid()
  {
    ((k + 1) % c.entries) * c.entryBytes
  }

  /** Counters and registers; the consumer never overtakes the published entries. */
  predicate Global(c: Ring, s: State) {
    && WellShaped(c, s)
    && s.retired <= s.committed <= |s.tailWrites| <= s.claim
    && |s.tailWrites| <= s.committed + 1
    && |s.consumed| <= |s.tailWrites|
    && s.head == Slot(c, |s.consumed|) * c.entryBytes
    && s.tail == Slot(c, |s.tailWrites|) * c.entryBytes
  }

  /** Where ticket `t` stands relative to the three counters. */
  predicate Counted(c: Ring, s: State, t: nat)
    requires WellShaped(c, s) && t < s.claim
  {
    var st := s.subs[t].stage;
    && (Committed(st) <==> t < s.committed)
    && (TailDone(st) <==> t < |s.tailWrites|)
    && (PassedCapacity(st) ==> t < s.retired + c.entries)
    && (st.MyTurn? || st.TailWritten? || st.Marked? ==> t == s.committed)
    && (st.Retiring? ==> st.current <= s.retired)
    && (st.Done? ==> t < s.retired)
    && (st.Failed? ==> st.held != Writing)
    && (st.Failed? && st.held != Published ==> st.error == ControllerUnavailable)
  }

  /** A holder's slot carries its state and what it has written so far. */
  predicate InSlot(c: Ring, s: State, t: nat)
    requires WellShaped(c, s) && t < s.claim
  {
    var st := s.subs[t].stage;
    var padded := Pad(s.subs[t].bytes, c.entryBytes);
    && (Holds(st) ==> s.slots[Slot(c, t)] == SlotValue(st))
    && (st.Filling? ==> st.next <= c.entryBytes && Prefix(s.mem[Slot(c, t)], padded, st.next))
    && (Filled(st) ==> s.mem[Slot(c, t)] == padded)
  }

  /** Ticket `t` made tail write number `t`, over its complete descriptor. If the ring
      was drained at that moment, the call passes its wait for consumption only after
      the consumer has read that very descriptor. */
  predicate Logged(c: Ring, s: State, t: nat)
    requires WellShaped(c, s) && t < s.claim
  {
    var padded := Pad(s.subs[t].bytes, c.entryBytes);
    t < |s.tailWrites| ==>
      && s.tailWrites[t].ticket == t
      && s.tailWrites[t].value == ExpectedTail(c, t)
      && s.tailWrites[t].content == padded
      && (s.tailWrites[t].consumedBefore == t ==>
            && |s.consumed| >= t
            && (|s.consumed| > t ==> s.consumed[t] == padded)
            && (PassedWait(s.subs[t].stage) ==> |s.consumed| > t))
  }

  predicate Local(c: Ring, s: State, t: nat)
    requires WellShaped(c, s) && t < s.claim
  {
    Counted(c, s, t) && InSlot(c, s, t) && Logged(c, s, t)
  }

  /** Tickets `t` and `u` do not hold one slot at once. */
  predicate Apart(c: Ring, s: State, t: nat, u: nat)
    requires WellShaped(c, s) && t < s.claim && u < s.claim
  {
    t != u && Holds(s.subs[t].stage) && Holds(s.subs[u].stage) ==> Slot(c, t) != Slot(c, u)
  }

  ghost predicate HasOwner(c: Ring, s: State, i: nat)
    requires WellShaped(c, s)
  {
    exists t :: 0 <= t < s.claim && Slot(c, t) == i && Holds(s.subs[t].stage)
  }

  ghost predicate AllLocal(c: Ring, s: State) requires WellShaped(c, s) {
    forall t :: 0 <= t < s.claim ==> Local(c, s, t)
  }

  ghost predicate AllApart(c: Ring, s: State) requires WellShaped(c, s) {
    forall t, u :: 0 <= t < s.claim && 0 <= u < s.claim ==> Apart(c, s, t, u)
  }

  ghost predicate AllOwned(c: Ring, s: State) requires WellShaped(c, s) {
    forall i :: 0 <= i < c.entries && s.slots[i] != Empty ==> HasOwner(c, s, i)
  }

  ghost predicate Inv(c: Ring, s: State) {
    Global(c, s) && AllLocal(c, s) && AllApart(c, s) && AllOwned(c, s)
  }

  lemma InitInv(c: Ring, mem: Memory)
    requires IsMemory(c, mem)
    ensures Inv(c, Init(c, mem))
  {
  }

  // One call advances: its own facts, those of another call, and the pair.

  lemma OffsetSlot(slot: nat, entryBytes: nat)
    requires entryBytes > 0
    ensures (slot * entryBytes) / entryBytes == slot
  {
    DivModUnique(slot * entryBytes, entryBytes, slot, 0);
  }

  /** The head register names the slot of the next unread entry. */
  lemma HeadSlot(c: Ring, s: State)
    requires Global(c, s)
    ensures s.head / c.entryBytes == Slot(c, |s.consumed|)
  {
    OffsetSlot(|s.consumed| % c.entries, c.entryBytes);
  }

  lemma AdvanceGlobal(c: Ring, s: State, t: nat)
    requires Global(c, s) && t < s.claim && Local(c, s, t) && CanAdvance(c, s, t)
    ensures Global(c, AdvanceStep(c, s, t))
  {
    NextResidue(t, c.entries);
  }

  lemma AdvanceCounted(c: Ring, s: State, t: nat)
    requires Global(c, s) && t < s.claim && Counted(c, s, t) && CanAdvance(c, s, t)
    ensures WellShaped(c, AdvanceStep(c, s, t)) && Counted(c, AdvanceStep(c, s, t), t)
  {
  }

  lemma FillInSlot(c: Ring, s: State, t: nat)
    requires WellShaped(c, s) && t < s.claim && InSlot(c, s, t) && s.subs[t].stage.Filling?
    ensures WellShaped(c, AdvanceStep(c, s, t)) && InSlot(c, AdvanceStep(c, s, t), t)
  {
    if s.subs[t].stage.next == c.entryBytes {
      assert s.mem[Slot(c, t)] == Pad(s.subs[t].bytes, c.entryBytes);
    }
  }

  lemma AdvanceInSlot(c: Ring, s: State, t: nat)
    requires Global(c, s) && t < s.claim && InSlot(c, s, t) && CanAdvance(c, s, t)
    ensures WellShaped(c, AdvanceStep(c, s, t)) && InSlot(c, AdvanceStep(c, s, t), t)
  {
    assert WellShaped(c, s);
    hide Global;
    if s.subs[t].stage.Filling? {
      FillInSlot(c, s, t);
    } else {
      hide Pad, Prefix;
    }
  }

  lemma AdvanceLogged(c: Ring, s: State, t: nat)
    requires Global(c, s) && t < s.claim && Local(c, s, t) && CanAdvance(c, s, t)
    ensures WellShaped(c, AdvanceStep(c, s, t)) && Logged(c, AdvanceStep(c, s, t), t)
  {
    var st := s.subs[t].stage;
    if st.MyTurn? {
      NextResidue(t, c.entries);
    } else if st.AwaitConsumed? {
      HeadSlot(c, s);
    }
  }

  lemma OtherCounted(c: Ring, s: State, t: nat, u: nat)
    requires Global(c, s) && t < s.claim && u < s.claim && t != u
    requires Counted(c, s, t) && Counted(c, s, u) && CanAdvance(c, s, t)
    ensures WellShaped(c, AdvanceStep(c, s, t)) && Counted(c, AdvanceStep(c, s, t), u)
  {
    CountersMove(c, s, t);
    hide AdvanceStep;
  }

  /** How the counters move when call `t` advances; other calls stay where they are. */
  lemma CountersMove(c: Ring, s: State, t: nat)
    requires Global(c, s) && t < s.claim && Counted(c, s, t) && CanAdvance(c, s, t)
    ensures var s' := AdvanceStep(c, s, t);
            && WellShaped(c, s') && s'.claim == s.claim && s'.retired >= s.retired
            && (forall u :: 0 <= u < s.claim && u != t ==> s'.subs[u] == s.subs[u])
            && (s'.committed == s.committed || (s.committed == t && s'.committed == t + 1))
            && (|s'.tailWrites| == |s.tailWrites| || (|s.tailWrites| == t && |s'.tailWrites| == t + 1))
  {
  }

  lemma OtherInSlot(c: Ring, s: State, t: nat, u: nat)
    requires Global(c, s) && t < s.claim && u < s.claim && t != u
    requires InSlot(c, s, u) && Apart(c, s, t, u) && CanAdvance(c, s, t)
    ensures WellShaped(c, AdvanceStep(c, s, t)) && InSlot(c, AdvanceStep(c, s, t), u)
  {
  }

  lemma OtherLogged(c: Ring, s: State, t: nat, u: nat)
    requires Global(c, s) && t < s.claim && u < s.claim && t != u
    requires Counted(c, s, t) && Logged(c, s, u) && CanAdvance(c, s, t)
    ensures WellShaped(c, AdvanceStep(c, s, t)) && Logged(c, AdvanceStep(c, s, t), u)
  {
  }

  /** Check-then-act on the slot is safe. If `u` holds the slot that `t` sees EMPTY, then
      `u` has only seen it EMPTY itself; capacity puts two such tickets less than one
      ring apart, so they cannot share a slot. */
  lemma AdvanceApart(c: Ring, s: State, t: nat, u: nat)
    requires Global(c, s) && t < s.claim && u < s.claim && t != u
    requires Local(c, s, t) && Local(c, s, u) && Apart(c, s, t, u) && CanAdvance(c, s, t)
    ensures WellShaped(c, AdvanceStep(c, s, t))
    ensures Apart(c, AdvanceStep(c, s, t), t, u) && Apart(c, AdvanceStep(c, s, t), u, t)
  {
    if s.subs[t].stage.AwaitEmpty? && Slot(c, t) == Slot(c, u) && Holds(s.subs[u].stage) {
      assert s.subs[u].stage.SawEmpty?;
      CongruentApart(if t < u then t else u, if t < u then u else t, c.entries);
    }
  }

  lemma AdvanceOwned(c: Ring, s: State, t: nat)
    requires Global(c, s) && t < s.claim && CanAdvance(c, s, t)
    requires AllOwned(c, s)
    ensures WellShaped(c, AdvanceStep(c, s, t)) && AllOwned(c, AdvanceStep(c, s, t))
  {
    var s' := AdvanceStep(c, s, t);
    forall i | 0 <= i < c.entries && s'.slots[i] != Empty
      ensures HasOwner(c, s', i)
    {
      if i == Slot(c, t) && Holds(s'.subs[t].stage) {
      } else {
        var u :| 0 <= u < s.claim && Slot(c, u) == i && Holds(s.subs[u].stage);
        assert Holds(s'.subs[u].stage);
      }
    }
  }

  lemma AdvanceLocal(c: Ring, s: State, t: nat, u: nat)
    requires Global(c, s) && t < s.claim && u < s.claim
    requires Local(c, s, t) && Local(c, s, u) && Apart(c, s, t, u) && CanAdvance(c, s, t)
    ensures WellShaped(c, AdvanceStep(c, s, t)) && Local(c, AdvanceStep(c, s, t), u)
  {
    if u == t {
      AdvanceCounted(c, s, t);
      AdvanceInSlot(c, s, t);
      AdvanceLogged(c, s, t);
    } else {
      OtherCounted(c, s, t, u);
      OtherInSlot(c, s, t, u);
      OtherLogged(c, s, t, u);
    }
  }

  lemma AdvanceAllLocal(c: Ring, s: State, t: nat)
    requires Inv(c, s) && t < s.claim && CanAdvance(c, s, t)
    ensures WellShaped(c, AdvanceStep(c, s, t)) && AllLocal(c, AdvanceStep(c, s, t))
  {
    var s' := AdvanceStep(c, s, t);
    AdvanceGlobal(c, s, t);
    forall u | 0 <= u < s'.claim
      ensures Local(c, s', u)
    {
      AdvanceLocal(c, s, t, u);
    }
  }

  lemma AdvanceAllApart(c: Ring, s: State, t: nat)
    requires Inv(c, s) && t < s.claim && CanAdvance(c, s, t)
    ensures WellShaped(c, AdvanceStep(c, s, t)) && AllApart(c, AdvanceStep(c, s, t))
  {
    var s' := AdvanceStep(c, s, t);
    AdvanceGlobal(c, s, t);
    forall u, v | 0 <= u < s'.claim && 0 <= v < s'.claim
      ensures Apart(c, s', u, v)
    {
      assert Apart(c, s, u, v);
      if u == t && v != t {
        AdvanceApart(c, s, t, v);
      } else if v == t && u != t {
        AdvanceApart(c, s, t, u);
      }
    }
  }

  lemma AdvanceInv(c: Ring, s: State, t: nat)
    requires Inv(c, s) && t < s.claim && CanAdvance(c, s, t)
    ensures Inv(c, AdvanceStep(c, s, t))
  {
    AdvanceGlobal(c, s, t);
    AdvanceAllLocal(c, s, t);
    AdvanceAllApart(c, s, t);
    AdvanceOwned(c, s, t);
  }

  // Giving up and losing the compare-exchange change one program counter only.

  lemma MoveInv(c: Ring, s: State, t: nat, stage: Stage)
    requires Inv(c, s) && t < s.claim
    requires var before := s.subs[t].stage;
             || (before.Retiring? && stage == Retiring(s.retired))
             || (stage.Failed? && stage.held == HeldAt(before) && CanGiveUp(before, stage.error))
    ensures Inv(c, Move(s, t, stage))
  {
    var s' := Move(s, t, stage);
    assert Local(c, s, t);
    assert Holds(stage) == Holds(s.subs[t].stage);
    forall u | 0 <= u < s.claim
      ensures Local(c, s', u)
    {
      assert Local(c, s, u);
    }
    forall u, v | 0 <= u < s.claim && 0 <= v < s.claim
      ensures Apart(c, s', u, v)
    {
      assert Apart(c, s, u, v);
    }
    forall i | 0 <= i < c.entries && s'.slots[i] != Empty
      ensures HasOwner(c, s', i)
    {
      var u :| 0 <= u < s.claim && Slot(c, u) == i && Holds(s.subs[u].stage);
      assert Holds(s'.subs[u].stage);
    }
  }

  lemma ClaimInv(c: Ring, s: State, e: Event)
    requires Inv(c, s) && e.Claim? && Enabled(c, s, e)
    ensures Inv(c, Apply(c, s, e))
  {
    var s' := Apply(c, s, e);
    forall u | 0 <= u < s'.claim
      ensures Local(c, s', u)
    {
      assert u < s.claim ==> Local(c, s, u);
    }
    forall u, v | 0 <= u < s'.claim && 0 <= v < s'.claim
      ensures Apart(c, s', u, v)
    {
      assert u < s.claim && v < s.claim ==> Apart(c, s, u, v);
    }
    forall i | 0 <= i < c.entries && s'.slots[i] != Empty
      ensures HasOwner(c, s', i)
    {
      var u :| 0 <= u < s.claim && Slot(c, u) == i && Holds(s.subs[u].stage);
      assert Holds(s'.subs[u].stage);
    }
  }

  /** The consumer reads the slot of entry `|consumed|`; a drained publisher still
      holds that slot, so what is read is its own descriptor. */
  lemma ConsumeLocal(c: Ring, s: State, t: nat)
    requires Global(c, s) && Enabled(c, s, Consume) && t < s.claim && Local(c, s, t)
    ensures WellShaped(c, Apply(c, s, Consume)) && Local(c, Apply(c, s, Consume), t)
  {
    HeadSlot(c, s);
  }

  lemma ConsumeGlobal(c: Ring, s: State)
    requires Global(c, s) && Enabled(c, s, Consume)
    ensures Global(c, Apply(c, s, Consume))
  {
    HeadSlot(c, s);
    NextResidue(|s.consumed|, c.entries);
  }

  /** Reading an entry changes no slot and no call. */
  lemma SameCalls(c: Ring, s: State, s': State)
    requires WellShaped(c, s) && WellShaped(c, s') && AllApart(c, s) && AllOwned(c, s)
    requires s'.slots == s.slots && s'.subs == s.subs
    ensures AllApart(c, s') && AllOwned(c, s')
  {
    forall u, v | 0 <= u < s.claim && 0 <= v < s.claim
      ensures Apart(c, s', u, v)
    {
      assert Apart(c, s, u, v);
    }
    forall i | 0 <= i < c.entries && s'.slots[i] != Empty
      ensures HasOwner(c, s', i)
    {
      assert HasOwner(c, s, i);
    }
  }

  lemma ConsumeInv(c: Ring, s: State)
    requires Inv(c, s) && Enabled(c, s, Consume)
    ensures Inv(c, Apply(c, s, Consume))
  {
    var s' := Apply(c, s, Consume);
    ConsumeGlobal(c, s);
    SameCalls(c, s, s');
    hide Apply;
    forall u | 0 <= u < s'.claim
      ensures Local(c, s', u)
    {
      ConsumeLocal(c, s, u);
    }
  }

  lemma InvStep(c: Ring, s: State, e: Event)
    requires Inv(c, s) && Enabled(c, s, e)
    ensures Inv(c, Apply(c, s, e))
  {
    match e
    case Claim(_) => ClaimInv(c, s, e);
    case Advance(t) => AdvanceInv(c, s, t);
    case LoseRace(t) => MoveInv(c, s, t, Retiring(s.retired));
    case GiveUp(t, error) => MoveInv(c, s, t, Failed(HeldAt(s.subs[t].stage), error));
    case Consume => ConsumeInv(c, s);
  }

  lemma {:induction false} InvRun(c: Ring, s: State, events: seq<Event>, s': State)
    requires Inv(c, s) && Run(c, s, events, s')
    ensures Inv(c, s')
    decreases |events|
  {
    if events != [] {
      InvStep(c, s, events[0]);
      InvRun(c, Apply(c, s, events[0]), events[1..], s');
    }
  }
}
