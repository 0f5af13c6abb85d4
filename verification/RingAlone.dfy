/** One call at a time: each call starts only after every earlier call has returned, Ok or not. */
module RingAlone {
  import opened Bits
  import opened Errors
  import opened RingProtocol
  import opened RingSafety
  import opened RingRuns
  import opened RingTheorems

  predicate Returned(st: Stage) { st.Done? || st.Failed? }

  ghost predicate AllReturned(s: State) {
    forall t :: 0 <= t < |s.subs| ==> Returned(s.subs[t].stage)
  }

  ghost predicate AloneRun(c: Ring, s: State, events: seq<Event>, s': State)
    decreases |events|
  {
    if events == [] then s' == s
    else
      && Enabled(c, s, events[0])
      && (events[0].Claim? ==> AllReturned(s))
      && AloneRun(c, Apply(c, s, events[0]), events[1..], s')
  }

  ghost predicate ReachableAlone(c: Ring, mem: Memory, events: seq<Event>, s: State) {
    IsMemory(c, mem) && AloneRun(c, Init(c, mem), events, s)
  }

  lemma {:induction false} AloneIsRun(c: Ring, s: State, events: seq<Event>, s': State)
    requires AloneRun(c, s, events, s')
    ensures Run(c, s, events, s')
    decreases |events|
  {
    if events != [] {
      AloneIsRun(c, Apply(c, s, events[0]), events[1..], s');
    }
  }

  /** A run in which no call starts is one call at a time. */
  lemma {:induction false} RunIsAlone(c: Ring, s: State, events: seq<Event>, s': State)
    requires Run(c, s, events, s') && forall e :: e in events ==> !e.Claim?
    ensures AloneRun(c, s, events, s')
    decreases |events|
  {
    if events != [] {
      RunIsAlone(c, Apply(c, s, events[0]), events[1..], s');
    }
  }

  lemma {:induction false} AloneAppend(c: Ring, s: State, a: seq<Event>, m: State, b: seq<Event>, s': State)
    requires AloneRun(c, s, a, m) && AloneRun(c, m, b, s')
    ensures AloneRun(c, s, a + b, s')
    decreases |a|
  {
    if a == [] {
      assert a + b == b;
    } else {
      AloneAppend(c, Apply(c, s, a[0]), a[1..], m, b, s');
      assert (a + b)[1..] == a[1..] + b;
    }
  }

  lemma AloneSnoc(c: Ring, s: State, a: seq<Event>, m: State, e: Event)
    requires AloneRun(c, s, a, m) && Enabled(c, m, e) && (e.Claim? ==> AllReturned(m))
    ensures AloneRun(c, s, a + [e], Apply(c, m, e))
  {
    assert [e][1..] == [];
    AloneAppend(c, s, a, m, [e], Apply(c, m, e));
  }

  // Can the next call return Ok at all?

  /** What a caller can see before it submits: everything claimed is published, there is room,
      and the slot of the next ticket is EMPTY. */
  predicate CanPublish(c: Ring, s: State)
    requires WellShaped(c, s)
  {
    s.committed == s.claim && HasRoom(c, s, s.claim) && s.slots[Slot(c, s.claim)] == Empty
  }

  ghost predicate CanReturnOk(c: Ring, s: State, t: nat) {
    exists events, s' :: AloneRun(c, s, events, s') && ReturnedOk(s', t)
  }

  ghost predicate OthersReturned(s: State, t: nat) {
    |s.subs| == t + 1 && forall u :: 0 <= u < t ==> Returned(s.subs[u].stage)
  }

  ghost predicate NeverOk(c: Ring, s: State, t: nat) {
    && Inv(c, s) && t < s.claim
    && (s.subs[t].stage.Failed? || (OthersReturned(s, t) && HeldBack(c, s, t)))
  }

  lemma NeverOkStep(c: Ring, s: State, t: nat, e: Event)
    requires NeverOk(c, s, t) && Enabled(c, s, e) && (e.Claim? ==> AllReturned(s))
    ensures NeverOk(c, Apply(c, s, e), t)
  {
    InvStep(c, s, e);
    if !s.subs[t].stage.Failed? {
      assert !Returned(s.subs[t].stage);
      assert !e.Claim? && !e.LoseRace?;
      assert e.Advance? || e.GiveUp? ==> e.ticket == t;
    }
  }

  lemma {:induction false} NeverOkRun(c: Ring, s: State, t: nat, events: seq<Event>, s': State)
    requires NeverOk(c, s, t) && AloneRun(c, s, events, s')
    ensures t < |s'.subs| && !s'.subs[t].stage.Done?
    decreases |events|
  {
    if events != [] {
      NeverOkStep(c, s, t, events[0]);
      NeverOkRun(c, Apply(c, s, events[0]), t, events[1..], s');
    }
  }

  lemma AloneInv(c: Ring, mem: Memory, before: seq<Event>, s: State)
    requires ReachableAlone(c, mem, before, s)
    ensures Inv(c, s) && Reachable(c, mem, before, s)
  {
    AloneIsRun(c, Init(c, mem), before, s);
    ReachableInv(c, mem, before, s);
  }

  /** With no other call in flight, a call can return Ok if and only if it can publish. */
  lemma CanReturnOkIffCanPublish(c: Ring, mem: Memory, before: seq<Event>, s: State, bytes: seq<Byte>)
    requires c.entries >= 2 && ReachableAlone(c, mem, before, s) && AllReturned(s)
    requires 0 < |bytes| <= c.entryBytes
    ensures WellShaped(c, s)
    ensures CanReturnOk(c, Apply(c, s, Claim(bytes)), s.claim) <==> CanPublish(c, s)
  {
    AloneInv(c, mem, before, s);
    var t, s1 := s.claim, Apply(c, s, Claim(bytes));
    InvStep(c, s, Claim(bytes));
    if CanPublish(c, s) {
      var a, m := TurnRun(c, s1, t);
      var events, s' := OkRun(c, m, t);
      RunAppend(c, s1, a, m, events, s');
      RunIsAlone(c, s1, a + events, s');
    } else {
      forall events, s' | AloneRun(c, s1, events, s')
        ensures !ReturnedOk(s', t)
      {
        NeverOkRun(c, s1, t, events, s');
      }
    }
  }

  /** From the tail write, a call can return Ok. */
  lemma OkRun(c: Ring, s: State, t: nat) returns (events: seq<Event>, s': State)
    requires c.entries >= 2 && Inv(c, s) && t < s.claim && s.subs[t].stage.MyTurn?
    ensures Run(c, s, events, s') && ReturnedOk(s', t)
    ensures forall e :: e in events ==> !e.Claim?
  {
    var a, m := PublishRun(c, s, t);
    NextResidue(t, c.entries);
    OffsetSlot(Slot(c, |m.tailWrites|), c.entryBytes);
    var b, s'' := FinishRun(c, m, t);
    RunAppend(c, s, a, m, b, s'');
    events, s' := a + b, s'';
  }

  // When does Ok mean that the hardware has read the descriptor?

  ghost predicate OkAlwaysReadAlone(c: Ring, s: State, t: nat) {
    forall events, s' :: AloneRun(c, s, events, s') && ReturnedOk(s', t) ==> WasRead(c, s', t)
  }

  /** The condition a caller can check before it submits, with no other call in flight: Ok will
      mean "read by the hardware" if and only if the hardware has read everything published so
      far, or Ok is out of reach anyway. Earlier calls may have returned Ok or any error. */
  lemma OkMeansReadIffDrainedBefore(c: Ring, mem: Memory, before: seq<Event>, s: State, bytes: seq<Byte>)
    requires c.entries >= 2 && ReachableAlone(c, mem, before, s) && AllReturned(s)
    requires 0 < |bytes| <= c.entryBytes
    ensures WellShaped(c, s)
    ensures OkAlwaysReadAlone(c, Apply(c, s, Claim(bytes)), s.claim) <==>
            (CanPublish(c, s) ==> |s.consumed| == |s.tailWrites|)
  {
    AloneInv(c, mem, before, s);
    var t, s1 := s.claim, Apply(c, s, Claim(bytes));
    InvStep(c, s, Claim(bytes));
    if !CanPublish(c, s) {
      CanReturnOkIffCanPublish(c, mem, before, s, bytes);
    } else if |s.consumed| == |s.tailWrites| {
      forall events, s' | AloneRun(c, s1, events, s') && ReturnedOk(s', t)
        ensures WasRead(c, s', t)
      {
        AloneIsRun(c, s1, events, s');
        DrainedOkIsRead(c, s1, t, events, s');
      }
    } else {
      var a, m := TurnRun(c, s1, t);
      var b, s' := UndrainedOkUnread(c, m, t);
      RunAppend(c, s1, a, m, b, s');
      RunIsAlone(c, s1, a + b, s');
    }
  }

  /** The undrained case is reached on every ring of two or more entries: the first call
      publishes and gives up before the hardware reads. The next call, alone, can then return
      Ok unread. */
  lemma TimeoutThenUnread(c: Ring, mem: Memory, bytes: seq<Byte>) returns (before: seq<Event>, s: State)
    requires IsMemory(c, mem) && c.entries >= 2 && 0 < |bytes| <= c.entryBytes
    ensures ReachableAlone(c, mem, before, s) && AllReturned(s) && |s.subs| == 1 && s.consumed == []
    ensures WellShaped(c, s) && CanPublish(c, s)
    ensures !OkAlwaysReadAlone(c, Apply(c, s, Claim(bytes)), 1)
  {
    InitInv(c, mem);
    var s0 := Init(c, mem);
    InvStep(c, s0, Claim(bytes));
    var s1 := Apply(c, s0, Claim(bytes));
    AloneSnoc(c, s0, [], s0, Claim(bytes));
    var a, m := TurnRun(c, s1, 0);
    var b, p := PublishRun(c, m, 0);
    var e := GiveUp(0, ControllerUnavailable);
    RunAppend(c, s1, a, m, b, p);
    RunIsAlone(c, s1, a + b, p);
    AloneAppend(c, s0, [] + [Claim(bytes)], s1, a + b, p);
    before := [] + [Claim(bytes)] + (a + b);
    AloneSnoc(c, s0, before, p, e);
    before, s := before + [e], Apply(c, p, e);
    DivModUnique(1, c.entries, 0, 1);
    DivModUnique(0, c.entries, 0, 0);
    OkMeansReadIffDrainedBefore(c, mem, before, s, bytes);
  }

  /** So a call about to write the tail of an undrained ring is reached on every such ring. */
  lemma UndrainedIsReached(c: Ring, mem: Memory, bytes: seq<Byte>) returns (events: seq<Event>, s: State)
    requires IsMemory(c, mem) && c.entries >= 2 && 0 < |bytes| <= c.entryBytes
    ensures Reachable(c, mem, events, s) && |s.subs| == 2 && s.subs[1].stage.MyTurn? && s.consumed == []
    ensures !OkAlwaysRead(c, s, 1)
  {
    var before, m := TimeoutThenUnread(c, mem, bytes);
    AloneInv(c, mem, before, m);
    RunSnoc(c, Init(c, mem), before, m, Claim(bytes));
    InvStep(c, m, Claim(bytes));
    var a, s' := TurnRun(c, Apply(c, m, Claim(bytes)), 1);
    RunAppend(c, Init(c, mem), before + [Claim(bytes)], Apply(c, m, Claim(bytes)), a, s');
    events, s := before + [Claim(bytes)] + a, s';
    OkMeansReadIffDrained(c, mem, events, s, 1);
  }

  // Sequences of calls.

  ghost predicate AllDone(s: State) {
    forall t :: 0 <= t < |s.subs| ==> s.subs[t].stage.Done?
  }

  /** No call from `t0` up to `t` has failed. */
  ghost predicate NoFailure(s: State, t0: nat, t: nat) {
    t <= |s.subs| && forall u :: t0 <= u < t ==> !s.subs[u].stage.Failed?
  }

  /** From a drained state on, calls with no failure before them publish onto a drained ring. */
  ghost predicate OneByOne(c: Ring, s: State, t0: nat) {
    && Inv(c, s) && t0 <= s.claim && |s.consumed| >= t0
    && (forall t :: 0 <= t < s.claim - 1 ==> Returned(s.subs[t].stage))
    && (forall t :: t0 <= t < |s.tailWrites| && NoFailure(s, t0, t) ==> s.tailWrites[t].consumedBefore == t)
  }

  lemma OneByOneStep(c: Ring, s: State, t0: nat, e: Event)
    requires OneByOne(c, s, t0) && Enabled(c, s, e) && (e.Claim? ==> AllReturned(s))
    ensures OneByOne(c, Apply(c, s, e), t0)
  {
    var s' := Apply(c, s, e);
    InvStep(c, s, e);
    StepExtends(c, s, e);
    forall t | t0 <= t < |s'.tailWrites| && NoFailure(s', t0, t)
      ensures s'.tailWrites[t].consumedBefore == t
    {
      assert NoFailure(s, t0, t);
      if t >= |s.tailWrites| {
        assert e.Advance? && Local(c, s, e.ticket);
        if t > t0 {
          assert Local(c, s, t - 1) && s.subs[t - 1].stage.Done? && NoFailure(s, t0, t - 1);
        }
      }
    }
  }

  lemma {:induction false} OneByOneRun(c: Ring, s: State, t0: nat, events: seq<Event>, s': State)
    requires OneByOne(c, s, t0) && AloneRun(c, s, events, s')
    ensures OneByOne(c, s', t0)
    decreases |events|
  {
    if events != [] {
      OneByOneStep(c, s, t0, events[0]);
      OneByOneRun(c, Apply(c, s, events[0]), t0, events[1..], s');
    }
  }

  /** The descriptors as submitted, each padded to the entry size. */
  function Submitted(c: Ring, subs: seq<Submitter>): (r: seq<seq<Byte>>)
    ensures |r| == |subs|
    ensures forall i :: 0 <= i < |subs| ==> r[i] == Pad(subs[i].bytes, c.entryBytes)
  {
    seq(|subs|, i requires 0 <= i < |subs| => Pad(subs[i].bytes, c.entryBytes))
  }

  /** From a state where every call has returned and everything has been read, calls one at a
      time: Ok means read as long as no call since then has failed; and if all have returned
      Ok, the hardware has read exactly what they submitted, in order. */
  lemma FifoFrom(c: Ring, s: State, events: seq<Event>, s': State)
    requires Inv(c, s) && AllReturned(s) && |s.consumed| == s.claim
    requires AloneRun(c, s, events, s')
    ensures s.claim <= |s'.subs|
    ensures forall t :: s.claim <= t < |s'.subs| && s'.subs[t].stage.Done? && NoFailure(s', s.claim, t) ==>
              WasRead(c, s', t)
    ensures (forall t :: s.claim <= t < |s'.subs| ==> s'.subs[t].stage.Done?) ==>
              s'.consumed == s.consumed + Submitted(c, s'.subs[s.claim..])
  {
    AloneIsRun(c, s, events, s');
    RunExtends(c, s, events, s');
    OneByOneRun(c, s, s.claim, events, s');
    forall t | s.claim <= t < |s'.subs| && s'.subs[t].stage.Done? && NoFailure(s', s.claim, t)
      ensures WasRead(c, s', t)
    {
      assert Local(c, s', t);
    }
    if forall t :: s.claim <= t < |s'.subs| ==> s'.subs[t].stage.Done? {
      if s'.claim > s.claim {
        assert WasRead(c, s', s'.claim - 1);
      }
      assert |s'.consumed| == s'.claim;
    }
  }

  /** When every call has returned Ok, all of them are counted and no slot is kept. */
  lemma AllDoneCounters(c: Ring, s: State)
    requires Inv(c, s) && AllDone(s)
    ensures s.claim == s.committed == s.retired == |s.tailWrites|
    ensures forall i :: 0 <= i < |s.slots| ==> s.slots[i] == Empty
  {
    if s.claim > 0 {
      assert Local(c, s, s.claim - 1);
    }
    forall i | 0 <= i < |s.slots|
      ensures s.slots[i] == Empty
    {
      assert s.slots[i] != Empty ==> HasOwner(c, s, i);
    }
  }

  /** FIFO completion: one call at a time from the start, and all of them Ok. Then the
      hardware has read exactly the submitted sequence, all counters are the number of calls
      and every slot is EMPTY, across any number of wrap-arounds. */
  lemma FifoCompletion(c: Ring, mem: Memory, events: seq<Event>, s: State)
    requires ReachableAlone(c, mem, events, s) && AllDone(s)
    ensures s.consumed == Submitted(c, s.subs)
    ensures s.claim == s.committed == s.retired == |s.consumed|
    ensures forall i :: 0 <= i < |s.slots| ==> s.slots[i] == Empty
  {
    AloneInv(c, mem, events, s);
    InitInv(c, mem);
    AllDoneCounters(c, s);
    Shape(c, s);
    hide Inv, AloneRun, Submitted, Reachable;
    FifoFrom(c, Init(c, mem), events, s);
    assert s.subs[0..] == s.subs;
  }

  lemma {:induction false} NoNewCalls(c: Ring, s: State, events: seq<Event>, s': State)
    requires Run(c, s, events, s') && forall e :: e in events ==> !e.Claim?
    ensures |s'.subs| == |s.subs|
    decreases |events|
  {
    if events != [] {
      NoNewCalls(c, Apply(c, s, events[0]), events[1..], s');
    }
  }

  /** One more call, alone, that returns Ok. */
  lemma OneMoreOk(c: Ring, mem: Memory, before: seq<Event>, s: State, bytes: seq<Byte>)
    returns (events: seq<Event>, s': State)
    requires c.entries >= 2 && ReachableAlone(c, mem, before, s) && AllDone(s) && 0 < |bytes| <= c.entryBytes
    ensures ReachableAlone(c, mem, events, s') && AllDone(s') && |s'.subs| == |s.subs| + 1
    ensures s'.subs[..|s.subs|] == s.subs && s'.subs[|s.subs|].bytes == bytes
  {
    FifoCompletion(c, mem, before, s);
    AloneInv(c, mem, before, s);
    var t, s1 := s.claim, Apply(c, s, Claim(bytes));
    InvStep(c, s, Claim(bytes));
    AloneSnoc(c, Init(c, mem), before, s, Claim(bytes));
    var a, m := TurnRun(c, s1, t);
    var b, p := OkRun(c, m, t);
    RunAppend(c, s1, a, m, b, p);
    NoNewCalls(c, s1, a + b, p);
    RunIsAlone(c, s1, a + b, p);
    AloneAppend(c, Init(c, mem), before + [Claim(bytes)], s1, a + b, p);
    RunExtends(c, s1, a + b, p);
    events, s' := before + [Claim(bytes)] + (a + b), p;
  }

  /** The good case is there: any list of descriptors can be submitted, one call at a time, with
      every call returning Ok. */
  lemma EveryListCompletes(c: Ring, mem: Memory, list: seq<seq<Byte>>) returns (events: seq<Event>, s: State)
    requires IsMemory(c, mem) && c.entries >= 2 && forall i :: 0 <= i < |list| ==> 0 < |list[i]| <= c.entryBytes
    ensures ReachableAlone(c, mem, events, s) && AllDone(s) && |s.subs| == |list|
    ensures forall i :: 0 <= i < |list| ==> s.subs[i].bytes == list[i]
  {
    events, s := [], Init(c, mem);
    for k := 0 to |list|
      invariant ReachableAlone(c, mem, events, s) && AllDone(s) && |s.subs| == k
      invariant forall i :: 0 <= i < k ==> s.subs[i].bytes == list[i]
    {
      var more, m := OneMoreOk(c, mem, events, s, list[k]);
      assert forall i :: 0 <= i < k ==> m.subs[i] == m.subs[..k][i] == s.subs[i];
      events, s := more, m;
    }
  }
}
