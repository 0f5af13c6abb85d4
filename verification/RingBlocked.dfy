/** What blocks the command ring for good: a call that has failed after its tail write, and a
    full ring whose head and tail meet on the slot of a waiting call. */
module RingBlocked {
  import opened Bits
  import opened Errors
  import opened RingProtocol
  import opened RingSafety
  import opened RingRuns
  import opened RingTheorems
  import opened RingAlone

  /** The call has passed `wait_for_empty`. */
  predicate Started(st: Stage) { Holds(st) || st.Released? || st.Retiring? || st.Done? }

  /** The call has given its slot back. */
  predicate GaveBack(st: Stage) { st.Released? || st.Retiring? || st.Done? }

  /** A call starts on a slot only after the call one lap before has given it back. */
  ghost predicate LapOrder(c: Ring, s: State) {
    forall t: nat :: OneLapApart(c, s, t)
  }

  predicate OneLapApart(c: Ring, s: State, t: nat) {
    t + c.entries < |s.subs| && Started(s.subs[t + c.entries].stage) ==> GaveBack(s.subs[t].stage)
  }

  /** The call one lap before a call that sees its slot EMPTY has given it back. */
  lemma SeenEmptyMeansGivenBack(c: Ring, s: State, t: nat, u: nat)
    requires Inv(c, s) && u == t + c.entries < s.claim
    requires s.subs[u].stage.AwaitEmpty? && s.slots[Slot(c, u)] == Empty
    ensures GaveBack(s.subs[t].stage)
  {
    assert Local(c, s, u) && Local(c, s, t);
    SlotLaps(c, u);
    hide Inv, Logged, Slot, Pad;
  }

  lemma LapStep(c: Ring, s: State, e: Event, t: nat)
    requires Inv(c, s) && Enabled(c, s, e) && OneLapApart(c, s, t)
    ensures OneLapApart(c, Apply(c, s, e), t)
  {
    hide Inv, HasRoom;
    var u := t + c.entries;
    if e.Advance? && e.ticket == u && s.subs[u].stage.AwaitEmpty? {
      SeenEmptyMeansGivenBack(c, s, t, u);
    }
  }

  lemma {:induction false} LapRun(c: Ring, s: State, events: seq<Event>, s': State)
    requires Inv(c, s) && LapOrder(c, s) && Run(c, s, events, s')
    ensures Inv(c, s') && LapOrder(c, s')
    decreases |events|
  {
    hide Inv, OneLapApart;
    if events != [] {
      InvStep(c, s, events[0]);
      forall t: nat
        ensures OneLapApart(c, Apply(c, s, events[0]), t)
      {
        LapStep(c, s, events[0], t);
      }
      LapRun(c, Apply(c, s, events[0]), events[1..], s');
    }
  }

  lemma ReachableLap(c: Ring, mem: Memory, events: seq<Event>, s: State)
    requires Reachable(c, mem, events, s)
    ensures Inv(c, s) && LapOrder(c, s)
  {
    InitInv(c, mem);
    LapRun(c, Init(c, mem), events, s);
  }

  lemma BehindPublishedFailure(c: Ring, s: State, t: nat)
    requires Inv(c, s) && LapOrder(c, s) && t < s.claim
    requires s.subs[t].stage.Failed? && s.subs[t].stage.held == Published
    ensures |s.tailWrites| <= t + c.entries
    ensures forall u :: t + c.entries <= u < |s.subs| ==>
              && !s.subs[u].stage.Done?
              && (s.subs[u].stage.Failed? ==> s.subs[u].stage.error == ControllerUnavailable)
  {
    if t + c.entries < s.claim {
      assert OneLapApart(c, s, t);
      assert Local(c, s, t + c.entries);
    }
    forall u | t + c.entries <= u < |s.subs|
      ensures && !s.subs[u].stage.Done?
              && (s.subs[u].stage.Failed? ==> s.subs[u].stage.error == ControllerUnavailable)
    {
      assert Local(c, s, u);
    }
  }

  /** A call that fails after its tail write keeps its slot PUBLISHED, and so stops the ring one
      lap later: at most `entries` more tickets from it on are ever published, and every call
      from there on can only end in ControllerUnavailable. */
  lemma PublishedFailureBlocks(c: Ring, mem: Memory, before: seq<Event>, s: State, t: nat,
                               events: seq<Event>, s': State)
    requires Reachable(c, mem, before, s) && Run(c, s, events, s')
    requires t < |s.subs| && s.subs[t].stage.Failed? && s.subs[t].stage.held == Published
    ensures |s'.tailWrites| <= t + c.entries
    ensures forall u :: t + c.entries <= u < |s'.subs| ==>
              && !s'.subs[u].stage.Done?
              && (s'.subs[u].stage.Failed? ==> s'.subs[u].stage.error == ControllerUnavailable)
  {
    hide Inv, LapOrder, Run;
    ReachableLap(c, mem, before, s);
    LapRun(c, s, events, s');
    RunExtends(c, s, events, s');
    BehindPublishedFailure(c, s', t);
  }

  // Head and tail meeting on the slot of a waiting call.

  /** Call `t` waits for the hardware, or has given up waiting, and keeps the slot on which head
      and tail have met. */
  ghost predicate Stuck(c: Ring, s: State, t: nat) {
    && Inv(c, s) && t < s.claim && Wedged(c, s, t)
    && (s.subs[t].stage.AwaitConsumed? || (s.subs[t].stage.Failed? && s.subs[t].stage.held == Published))
  }

  /** The next ticket to publish has the slot that the stuck call keeps. */
  lemma NoOnesTurn(c: Ring, s: State, t: nat, u: nat)
    requires Stuck(c, s, t) && u < s.claim
    ensures !s.subs[u].stage.MyTurn?
  {
    if s.subs[u].stage.MyTurn? {
      assert Local(c, s, u) && Local(c, s, t) && Apart(c, s, u, t);
      OffsetSlot(Slot(c, |s.tailWrites|), c.entryBytes);
    }
  }

  lemma StuckStep(c: Ring, s: State, t: nat, e: Event)
    requires Stuck(c, s, t) && Enabled(c, s, e)
    ensures Stuck(c, Apply(c, s, e), t)
    ensures Apply(c, s, e).tailWrites == s.tailWrites && Apply(c, s, e).consumed == s.consumed
  {
    hide Inv;
    InvStep(c, s, e);
    if e.Advance? {
      NoOnesTurn(c, s, t, e.ticket);
    }
  }

  /** Nothing is ever published or read again, and neither that call nor any unpublished one
      returns Ok, although no call need have failed. */
  lemma {:induction false} StuckForGood(c: Ring, s: State, t: nat, events: seq<Event>, s': State)
    requires Stuck(c, s, t) && Run(c, s, events, s')
    ensures Stuck(c, s', t) && s'.tailWrites == s.tailWrites && s'.consumed == s.consumed
    ensures forall u :: 0 <= u < |s'.subs| && (u == t || u >= |s.tailWrites|) ==> !s'.subs[u].stage.Done?
    decreases |events|
  {
    if events != [] {
      StuckStep(c, s, t, events[0]);
      StuckForGood(c, Apply(c, s, events[0]), t, events[1..], s');
    } else {
      forall u | 0 <= u < |s'.subs| && u >= |s.tailWrites|
        ensures !s'.subs[u].stage.Done?
      {
        assert Local(c, s, u);
      }
    }
  }

  ghost predicate CanStillReturnOk(c: Ring, s: State, t: nat) {
    exists events, s' :: Run(c, s, events, s') && ReturnedOk(s', t)
  }

  /** A call that waits for the hardware can still return Ok if and only if head and tail have
      not met on its slot. */
  lemma CanReturnOkIffNotWedged(c: Ring, mem: Memory, before: seq<Event>, s: State, t: nat)
    requires c.entries >= 2 && Reachable(c, mem, before, s)
    requires t < |s.subs| && s.subs[t].stage.AwaitConsumed?
    ensures CanStillReturnOk(c, s, t) <==> !Wedged(c, s, t)
  {
    ReachableInv(c, mem, before, s);
    if Wedged(c, s, t) {
      forall events, s' | Run(c, s, events, s')
        ensures !ReturnedOk(s', t)
      {
        StuckForGood(c, s, t, events, s');
      }
    } else {
      var events, s' := FinishRun(c, s, t);
    }
  }

  /** Every ring gets there without a failure: calls that fill the ring before the hardware
      reads its first entry. */
  lemma FullRingIsWedged(c: Ring, mem: Memory, bytes: seq<Byte>) returns (events: seq<Event>, s: State)
    requires IsMemory(c, mem) && 0 < |bytes| <= c.entryBytes
    ensures Reachable(c, mem, events, s) && |s.subs| == c.entries && s.consumed == []
    ensures forall t :: 0 <= t < |s.subs| ==> s.subs[t].stage.AwaitConsumed?
    ensures Stuck(c, s, 0)
  {
    InitInv(c, mem);
    events, s := [], Init(c, mem);
    assert Run(c, s, [], s);
    hide Inv, Run;
    for k := 0 to c.entries
      invariant Reachable(c, mem, events, s) && Inv(c, s) && |s.subs| == s.claim == s.committed == k && s.retired == 0
      invariant s.consumed == [] && |s.tailWrites| == k
      invariant forall t :: 0 <= t < k ==> s.subs[t].stage.AwaitConsumed?
      invariant |s.slots| == c.entries && forall i :: k <= i < c.entries ==> s.slots[i] == Empty
    {
      DivModUnique(k, c.entries, 0, k);
      var more, m := OneMore(c, s, bytes);
      RunAppend(c, Init(c, mem), events, s, more, m);
      events, s := events + more, m;
    }
    FullIsWedged(c, s);
  }

  lemma FullIsWedged(c: Ring, s: State)
    requires Inv(c, s) && |s.tailWrites| == c.entries && s.consumed == []
    ensures Wedged(c, s, 0)
  {
    DivModUnique(c.entries, c.entries, 1, 0);
    DivModUnique(0, c.entries, 0, 0);
    OffsetSlot(0, c.entryBytes);
  }

  /** One more call goes as far as its wait for the hardware. */
  lemma OneMore(c: Ring, s: State, bytes: seq<Byte>) returns (events: seq<Event>, s': State)
    requires Inv(c, s) && s.claim == s.committed < c.entries && s.retired == 0 && 0 < |bytes| <= c.entryBytes
    requires s.slots[Slot(c, s.claim)] == Empty && Slot(c, s.claim) == s.claim
    ensures Run(c, s, events, s') && Inv(c, s') && |s'.subs| == s'.claim == s'.committed == s.claim + 1
    ensures s'.retired == 0 && s'.consumed == s.consumed && |s'.tailWrites| == s.claim + 1
    ensures s'.subs[..s.claim] == s.subs && s'.subs[s.claim].stage.AwaitConsumed?
    ensures |s'.slots| == c.entries && forall i :: s.claim < i < c.entries ==> s'.slots[i] == s.slots[i]
  {
    var t, s1 := s.claim, Apply(c, s, Claim(bytes));
    InvStep(c, s, Claim(bytes));
    RunSnoc(c, s, [], s, Claim(bytes));
    var a, m := TurnRun(c, s1, t);
    var b, p := PublishRun(c, m, t);
    RunAppend(c, s1, a, m, b, p);
    RunAppend(c, s, [] + [Claim(bytes)], s1, a + b, p);
    events, s' := [] + [Claim(bytes)] + (a + b), p;
  }

  // Is a ring without a call in flight still usable?

  /** Some later call returns Ok in some continuation, with any overlap. */
  ghost predicate Usable(c: Ring, s: State) {
    exists events, s', u: nat :: Run(c, s, events, s') && s.claim <= u && ReturnedOk(s', u)
  }

  /** No ticket from `t` on gets past its wait for capacity. */
  ghost predicate NoRoom(c: Ring, s: State, t: nat) {
    && WellShaped(c, s) && t <= s.claim && s.retired + c.entries <= t
    && (forall u :: 0 <= u < t ==> Returned(s.subs[u].stage))
    && (forall u :: t <= u < s.claim ==> s.subs[u].stage.AwaitCapacity? || s.subs[u].stage.Failed?)
  }

  lemma NoRoomStep(c: Ring, s: State, t: nat, e: Event)
    requires NoRoom(c, s, t) && Enabled(c, s, e)
    ensures NoRoom(c, Apply(c, s, e), t)
  {
  }

  lemma {:induction false} NoRoomRun(c: Ring, s: State, t: nat, events: seq<Event>, s': State)
    requires NoRoom(c, s, t) && Run(c, s, events, s')
    ensures forall u :: t <= u < |s'.subs| ==> !s'.subs[u].stage.Done?
    decreases |events|
  {
    if events != [] {
      NoRoomStep(c, s, t, events[0]);
      NoRoomRun(c, Apply(c, s, events[0]), t, events[1..], s');
    }
  }

  /** The slot of the next ticket is kept by a call that failed after its tail write. */
  lemma KeeperOfSlot(c: Ring, s: State) returns (v: nat)
    requires Inv(c, s) && AllReturned(s) && s.committed == s.claim && s.slots[Slot(c, s.claim)] != Empty
    ensures v < s.claim && v + c.entries <= s.claim
    ensures s.subs[v].stage.Failed? && s.subs[v].stage.held == Published
  {
    assert HasOwner(c, s, Slot(c, s.claim));
    v :| v < s.claim && Slot(c, v) == Slot(c, s.claim) && Holds(s.subs[v].stage);
    assert Local(c, s, v) && Returned(s.subs[v].stage);
    CongruentApart(v, s.claim, c.entries);
  }

  /** With no call in flight, the ring is usable, however calls overlap from then on, if and only
      if the next ticket can publish: no ticket was abandoned before its tail write, there is
      room, and the slot of the next ticket is EMPTY. */
  lemma UsableIffCanPublish(c: Ring, mem: Memory, before: seq<Event>, s: State)
    requires c.entries >= 2 && Reachable(c, mem, before, s) && AllReturned(s)
    ensures WellShaped(c, s)
    ensures Usable(c, s) <==> CanPublish(c, s)
  {
    ReachableInv(c, mem, before, s);
    if CanPublish(c, s) {
      var bytes: seq<Byte> := [0];
      var t, s1 := s.claim, Apply(c, s, Claim(bytes));
      InvStep(c, s, Claim(bytes));
      RunSnoc(c, s, [], s, Claim(bytes));
      var a, m := TurnRun(c, s1, t);
      var b, s' := OkRun(c, m, t);
      RunAppend(c, s1, a, m, b, s');
      RunAppend(c, s, [] + [Claim(bytes)], s1, a + b, s');
    } else {
      forall events, s', u: nat | Run(c, s, events, s') && s.claim <= u
        ensures !ReturnedOk(s', u)
      {
        Unusable(c, mem, before, s, events, s', u);
      }
    }
  }

  lemma Unusable(c: Ring, mem: Memory, before: seq<Event>, s: State, events: seq<Event>, s': State, u: nat)
    requires Reachable(c, mem, before, s) && Inv(c, s) && AllReturned(s) && !CanPublish(c, s)
    requires Run(c, s, events, s') && s.claim <= u
    ensures !ReturnedOk(s', u)
  {
    if s.committed != s.claim {
      var v := s.committed;
      assert Local(c, s, v) && Returned(s.subs[v].stage);
      AbandonedTicketBlocks(c, mem, before, s, v, events, s');
    } else if !HasRoom(c, s, s.claim) {
      NoRoomRun(c, s, s.claim, events, s');
    } else {
      var v := KeeperOfSlot(c, s);
      PublishedFailureBlocks(c, mem, before, s, v, events, s');
    }
  }
}
