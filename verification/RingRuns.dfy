/** Building runs of the command ring: one call going forward on its own. */
module RingRuns {
  import opened Bits
  import opened Errors
  import opened RingProtocol
  import opened RingSafety

  lemma {:induction false} RunSnoc(c: Ring, s: State, events: seq<Event>, s': State, e: Event)
    requires Run(c, s, events, s') && Enabled(c, s', e)
    ensures Run(c, s, events + [e], Apply(c, s', e))
    decreases |events|
  {
    if events == [] {
      assert ([] + [e])[1..] == [];
    } else {
      RunSnoc(c, Apply(c, s, events[0]), events[1..], s', e);
      assert (events + [e])[1..] == events[1..] + [e];
    }
  }

  lemma {:induction false} RunAppend(c: Ring, s: State, a: seq<Event>, m: State, b: seq<Event>, s': State)
    requires Run(c, s, a, m) && Run(c, m, b, s')
    ensures Run(c, s, a + b, s')
    decreases |a|
  {
    if a == [] {
      assert a + b == b;
    } else {
      RunAppend(c, Apply(c, s, a[0]), a[1..], m, b, s');
      assert (a + b)[1..] == a[1..] + b;
    }
  }

  /** Nothing has changed but call `t`, its slot, the counters and the tail. */
  ghost predicate OnlyCall(c: Ring, s: State, s': State, t: nat)
    requires c.Valid()
  {
    && s'.claim == s.claim && |s.subs| == |s'.subs| == s.claim && t < s.claim
    && s'.consumed == s.consumed && s'.head == s.head
    && s'.subs[t].bytes == s.subs[t].bytes
    && (forall u :: 0 <= u < s.claim && u != t ==> s'.subs[u] == s.subs[u])
    && |s.slots| == |s'.slots| == |s.mem| == |s'.mem| == c.entries
    && (forall i :: 0 <= i < c.entries && i != Slot(c, t) ==> s'.slots[i] == s.slots[i] && s'.mem[i] == s.mem[i])
  }

  /** A run of call `t` alone. */
  ghost predicate Solo(c: Ring, s: State, events: seq<Event>, s': State, t: nat) {
    && Inv(c, s) && Inv(c, s') && Run(c, s, events, s') && OnlyCall(c, s, s', t)
    && forall e :: e in events ==> e == Advance(t) || e == LoseRace(t)
  }

  lemma SoloStart(c: Ring, s: State, t: nat)
    requires Inv(c, s) && t < s.claim
    ensures Solo(c, s, [], s, t)
  {
  }

  lemma SoloStep(c: Ring, s: State, events: seq<Event>, m: State, t: nat)
    requires Solo(c, s, events, m, t) && CanAdvance(c, m, t)
    ensures Solo(c, s, events + [Advance(t)], AdvanceStep(c, m, t), t)
  {
    hide Inv;
    assert WellShaped(c, m) by { Shape(c, m); }
    RunSnoc(c, s, events, m, Advance(t));
    InvStep(c, m, Advance(t));
  }

  lemma SoloLose(c: Ring, s: State, events: seq<Event>, m: State, t: nat)
    requires Solo(c, s, events, m, t) && Enabled(c, m, LoseRace(t))
    ensures Solo(c, s, events + [LoseRace(t)], Move(m, t, Retiring(m.retired)), t)
  {
    hide Inv;
    assert WellShaped(c, m) by { Shape(c, m); }
    RunSnoc(c, s, events, m, LoseRace(t));
    InvStep(c, m, LoseRace(t));
  }

  lemma Shape(c: Ring, s: State)
    requires Inv(c, s)
    ensures WellShaped(c, s)
  {
  }

  /** The same counters, tail and tail writes. */
  predicate SameCounters(s: State, s': State) {
    && s'.committed == s.committed && s'.retired == s.retired && s'.tail == s.tail
    && s'.tailWrites == s.tailWrites
  }

  /** From the wait for capacity to the first byte. */
  lemma EnterRun(c: Ring, s: State, t: nat) returns (events: seq<Event>, s': State)
    requires Inv(c, s) && t < s.claim && s.subs[t].stage.AwaitCapacity?
    requires HasRoom(c, s, t) && s.slots[Slot(c, t)] == Empty
    ensures Solo(c, s, events, s', t) && SameCounters(s, s')
    ensures s'.subs[t].stage == Filling(0) && s'.mem == s.mem
  {
    events, s' := [], s;
    SoloStart(c, s, t);
    for i := 0 to 3
      invariant Solo(c, s, events, s', t) && SameCounters(s, s') && s'.mem == s.mem
      invariant s'.subs[t].stage == [AwaitCapacity, AwaitEmpty, SawEmpty, Filling(0)][i]
      invariant i < 3 ==> s'.slots == s.slots
    {
      SoloStep(c, s, events, s', t);
      events, s' := events + [Advance(t)], AdvanceStep(c, s', t);
    }
  }

  /** From the tail write to the polling of the head register. */
  lemma PublishRun(c: Ring, s: State, t: nat) returns (events: seq<Event>, s': State)
    requires Inv(c, s) && t < s.claim && s.subs[t].stage.MyTurn?
    ensures Solo(c, s, events, s', t) && s'.subs[t].stage.AwaitConsumed?
    ensures |s'.tailWrites| == s'.committed == t + 1 && s'.retired == s.retired
  {
    assert Local(c, s, t);
    events, s' := [], s;
    SoloStart(c, s, t);
    for i := 0 to 3
      invariant Solo(c, s, events, s', t) && s'.retired == s.retired
      invariant s'.subs[t].stage == [MyTurn, TailWritten, Marked, AwaitConsumed][i]
      invariant |s'.tailWrites| == if i == 0 then t else t + 1
      invariant i == 3 ==> s'.committed == t + 1
    {
      SoloStep(c, s, events, s', t);
      events, s' := events + [Advance(t)], AdvanceStep(c, s', t);
    }
  }

  /** Tickets of one slot are at least a lap apart, and one lap apart is the same slot. */
  lemma SlotLaps(c: Ring, u: nat)
    requires c.Valid()
    ensures u >= c.entries ==> Slot(c, u - c.entries) == Slot(c, u)
    ensures forall k: nat :: k < u && Slot(c, k) == Slot(c, u) ==> k + c.entries <= u
  {
    if u >= c.entries {
      DivModUnique(u, c.entries, (u - c.entries) / c.entries + 1, (u - c.entries) % c.entries);
    }
    forall k: nat | k < u && Slot(c, k) == Slot(c, u)
      ensures k + c.entries <= u
    {
      CongruentApart(k, u, c.entries);
    }
  }

  // Going on to the tail write.

  predicate BeforeTurn(st: Stage) {
    st.AwaitCapacity? || st.AwaitEmpty? || st.SawEmpty? || st.Filling? || st.AwaitTurn?
  }

  /** What keeps call `t` from publishing, while it is the only call that moves. */
  predicate HeldBack(c: Ring, s: State, t: nat)
    requires WellShaped(c, s) && t < s.claim
  {
    var st := s.subs[t].stage;
    || (st.AwaitCapacity? && !HasRoom(c, s, t))
    || ((st.AwaitCapacity? || st.AwaitEmpty?) && s.slots[Slot(c, t)] != Empty)
    || (BeforeTurn(st) && s.committed != t)
  }

  /** How far a call is from its tail write. */
  function ToTurn(c: Ring, st: Stage): int {
    match st
    case AwaitCapacity => c.entryBytes + 5
    case AwaitEmpty => c.entryBytes + 4
    case SawEmpty => c.entryBytes + 3
    case Filling(i) => c.entryBytes - i + 2
    case AwaitTurn => 1
    case _ => 0
  }

  lemma FillBound(c: Ring, s: State, t: nat)
    requires Inv(c, s) && t < s.claim
    ensures WellShaped(c, s) && (s.subs[t].stage.Filling? ==> s.subs[t].stage.next <= c.entryBytes)
  {
    assert Local(c, s, t);
  }

  /** A call that nothing holds back goes on to its tail write. */
  lemma TurnRun(c: Ring, s: State, t: nat) returns (events: seq<Event>, s': State)
    requires Inv(c, s) && t < s.claim && !HeldBack(c, s, t)
    requires BeforeTurn(s.subs[t].stage) || s.subs[t].stage.MyTurn?
    ensures Solo(c, s, events, s', t) && SameCounters(s, s')
    ensures s'.subs[t].stage.MyTurn?
  {
    events, s' := [], s;
    SoloStart(c, s, t);
    hide Inv;
    while !s'.subs[t].stage.MyTurn?
      invariant Solo(c, s, events, s', t) && SameCounters(s, s') && WellShaped(c, s') && !HeldBack(c, s', t)
      invariant BeforeTurn(s'.subs[t].stage) || s'.subs[t].stage.MyTurn?
      decreases ToTurn(c, s'.subs[t].stage)
    {
      FillBound(c, s', t);
      SoloStep(c, s, events, s', t);
      events, s' := events + [Advance(t)], AdvanceStep(c, s', t);
    }
  }

  // Returning.

  /** The call has seen the head register leave its slot, or sees it elsewhere now. */
  predicate CanFinish(c: Ring, s: State, t: nat)
    requires c.Valid() && t < |s.subs|
  {
    (s.subs[t].stage.AwaitConsumed? && s.head / c.entryBytes != Slot(c, t)) || PassedWait(s.subs[t].stage)
  }

  /** How far a call is from its return. */
  function ToReturn(st: Stage, t: nat, retired: nat): int {
    match st
    case AwaitConsumed => 6
    case Consumed => 5
    case Releasing => 4
    case Released => 3
    case Retiring(current) => if current < t + 1 && current != retired then 2 else 1
    case _ => 0
  }

  lemma RetiringCurrent(c: Ring, s: State, t: nat)
    requires Inv(c, s) && t < s.claim
    ensures WellShaped(c, s) && (s.subs[t].stage.Retiring? ==> s.subs[t].stage.current <= s.retired)
    ensures s.subs[t].stage.Done? ==> t < s.retired
  {
    assert Local(c, s, t);
  }

  /** From `s`, call `t` has got as far as `m`, and nothing else it could publish or free has
      changed. */
  predicate Finishing(c: Ring, s: State, m: State, t: nat) {
    && WellShaped(c, s) && WellShaped(c, m) && t < s.claim == m.claim && CanFinish(c, m, t)
    && m.tailWrites == s.tailWrites && m.tail == s.tail && m.committed == s.committed && m.mem == s.mem
    && (Holds(m.subs[t].stage) ==> Holds(s.subs[t].stage))
    && m.slots[Slot(c, t)] ==
       (if Holds(s.subs[t].stage) && !Holds(m.subs[t].stage) then Empty else s.slots[Slot(c, t)])
    && m.retired == if m.subs[t].stage.Done? && s.retired < t + 1 then t + 1 else s.retired
  }

  lemma FinishingAdvance(c: Ring, s: State, m: State, t: nat)
    requires Inv(c, m) && Finishing(c, s, m, t) && CanAdvance(c, m, t)
    ensures Finishing(c, s, AdvanceStep(c, m, t), t)
    ensures ToReturn(AdvanceStep(c, m, t).subs[t].stage, t, AdvanceStep(c, m, t).retired)
            < ToReturn(m.subs[t].stage, t, m.retired)
  {
    RetiringCurrent(c, m, t);
    hide Inv;
  }

  lemma FinishingLose(c: Ring, s: State, m: State, t: nat)
    requires Inv(c, m) && Finishing(c, s, m, t) && !CanAdvance(c, m, t) && !m.subs[t].stage.Done?
    ensures Enabled(c, m, LoseRace(t)) && Finishing(c, s, Move(m, t, Retiring(m.retired)), t)
    ensures ToReturn(Retiring(m.retired), t, m.retired) < ToReturn(m.subs[t].stage, t, m.retired)
  {
    RetiringCurrent(c, m, t);
    hide Inv;
  }

  /** Such a call can return Ok without any further consumption. */
  lemma ReturnRun(c: Ring, s: State, t: nat) returns (events: seq<Event>, s': State)
    requires Inv(c, s) && t < s.claim && CanFinish(c, s, t)
    ensures Solo(c, s, events, s', t) && s'.subs[t].stage.Done?
    ensures s'.tailWrites == s.tailWrites && s'.tail == s.tail && s'.committed == s.committed && s'.mem == s.mem
    ensures s'.slots[Slot(c, t)] == if Holds(s.subs[t].stage) then Empty else s.slots[Slot(c, t)]
    ensures s'.retired == if s.retired < t + 1 then t + 1 else s.retired
  {
    events, s' := [], s;
    SoloStart(c, s, t);
    RetiringCurrent(c, s, t);
    assert Finishing(c, s, s, t);
    hide Inv, AdvanceStep, CanAdvance, CanFinish, ToReturn;
    while !s'.subs[t].stage.Done?
      invariant Solo(c, s, events, s', t) && Finishing(c, s, s', t)
      decreases ToReturn(s'.subs[t].stage, t, s'.retired)
    {
      if CanAdvance(c, s', t) {
        FinishingAdvance(c, s, s', t);
        SoloStep(c, s, events, s', t);
        events, s' := events + [Advance(t)], AdvanceStep(c, s', t);
      } else {
        FinishingLose(c, s, s', t);
        SoloLose(c, s, events, s', t);
        events, s' := events + [LoseRace(t)], Move(s', t, Retiring(s'.retired));
      }
    }
  }

  /** The hardware has nothing to read, and its head stands on the slot of call `t`. */
  predicate Wedged(c: Ring, s: State, t: nat)
    requires c.Valid()
  {
    s.head == s.tail && s.head / c.entryBytes == Slot(c, t)
  }

  /** A call that is not wedged can return Ok after at most one read of the hardware. */
  lemma FinishRun(c: Ring, s: State, t: nat) returns (events: seq<Event>, s': State)
    requires c.entries >= 2 && Inv(c, s) && t < s.claim && s.subs[t].stage.AwaitConsumed? && !Wedged(c, s, t)
    ensures Run(c, s, events, s') && Inv(c, s') && t < s'.claim && s'.subs[t].stage.Done?
    ensures forall e :: e in events ==> !e.Claim?
  {
    HeadSlot(c, s);
    if s.head / c.entryBytes != Slot(c, t) {
      events, s' := ReturnRun(c, s, t);
    } else {
      InvStep(c, s, Consume);
      var m := Apply(c, s, Consume);
      HeadSlot(c, m);
      NextResidue(|s.consumed|, c.entries);
      RunSnoc(c, s, [], s, Consume);
      events, s' := ReturnRun(c, m, t);
      RunAppend(c, s, [Consume], m, events, s');
      events := [Consume] + events;
    }
  }
}
