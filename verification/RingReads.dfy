/** What the hardware reads when calls overlap: the published descriptor, unless a later call
    stores into the slot of an entry that has not been read. */
module RingReads {
  import opened Bits
  import opened Errors
  import opened RingProtocol
  import opened RingSafety
  import opened RingRuns
  import opened RingTheorems
  import opened RingBlocked

  /** Every entry read so far was the descriptor published as that entry. */
  ghost predicate ReadsFaithful(c: Ring, s: State) {
    && |s.consumed| <= |s.subs|
    && forall k :: 0 <= k < |s.consumed| ==> s.consumed[k] == Pad(s.subs[k].bytes, c.entryBytes)
  }

  /** Every published entry that is still to be read lies in its slot as published. */
  ghost predicate UnreadIntact(c: Ring, s: State)
    requires WellShaped(c, s) && |s.tailWrites| <= |s.subs|
  {
    forall k :: |s.consumed| <= k < |s.tailWrites| ==> s.mem[Slot(c, k)] == Pad(s.subs[k].bytes, c.entryBytes)
  }

  predicate AboutToStore(c: Ring, s: State, u: nat) {
    u < |s.subs| && s.subs[u].stage.Filling? && s.subs[u].stage.next < c.entryBytes
  }

  /** The entry one lap before `u`, in the same slot, has not been read. */
  predicate OverUnread(c: Ring, s: State, u: nat) {
    c.entries <= u && |s.consumed| <= u - c.entries
  }

  /** Where a byte store goes, and which published entries share its slot. */
  lemma StoreFacts(c: Ring, s: State, u: nat)
    requires Inv(c, s) && u < s.claim && AboutToStore(c, s, u)
    ensures |s.tailWrites| <= u
    ensures u >= c.entries ==> u - c.entries < |s.tailWrites| && Slot(c, u - c.entries) == Slot(c, u)
    ensures forall k: nat :: k < |s.tailWrites| && Slot(c, k) == Slot(c, u) ==> k + c.entries <= u
  {
    assert Local(c, s, u);
    SlotLaps(c, u);
  }

  lemma StoreEffect(c: Ring, s: State, u: nat)
    requires Inv(c, s) && u < s.claim && AboutToStore(c, s, u)
    ensures WellShaped(c, s) && Inv(c, AdvanceStep(c, s, u))
    ensures var s', i := AdvanceStep(c, s, u), s.subs[u].stage.next;
            && WellShaped(c, s') && s'.tailWrites == s.tailWrites && s'.consumed == s.consumed
            && (forall k :: 0 <= k < |s.subs| ==> s'.subs[k].bytes == s.subs[k].bytes)
            && s'.mem == s.mem[Slot(c, u) := s.mem[Slot(c, u)][i := Pad(s.subs[u].bytes, c.entryBytes)[i]]]
  {
    AdvanceInv(c, s, u);
  }

  /** A byte store keeps what is still to be read intact if and only if the entry it overwrites
      has been read, or the byte is the same. */
  lemma StoreKeepsUnreadIff(c: Ring, s: State, u: nat)
    requires Inv(c, s) && UnreadIntact(c, s) && u < s.claim && AboutToStore(c, s, u)
    ensures Inv(c, AdvanceStep(c, s, u)) &&
            (UnreadIntact(c, AdvanceStep(c, s, u)) <==>
             (OverUnread(c, s, u) ==>
                Pad(s.subs[u].bytes, c.entryBytes)[s.subs[u].stage.next] ==
                Pad(s.subs[u - c.entries].bytes, c.entryBytes)[s.subs[u].stage.next]))
  {
    StoreFacts(c, s, u);
    StoreEffect(c, s, u);
    hide Inv, AdvanceStep;
    var s' := AdvanceStep(c, s, u);
    forall k | |s.consumed| <= k < |s.tailWrites| && Slot(c, k) == Slot(c, u)
      ensures OverUnread(c, s, u)
      ensures s.mem[Slot(c, u)] == Pad(s.subs[k].bytes, c.entryBytes) == Pad(s.subs[u - c.entries].bytes, c.entryBytes)
    {
      assert s.mem[Slot(c, u - c.entries)] == Pad(s.subs[u - c.entries].bytes, c.entryBytes);
    }
    if OverUnread(c, s, u) {
      assert s'.mem[Slot(c, u - c.entries)] == s'.mem[Slot(c, u)];
    }
  }

  /** Every byte store of the run is into a slot whose last entry has been read. */
  ghost predicate CarefulRun(c: Ring, s: State, events: seq<Event>, s': State)
    decreases |events|
  {
    if events == [] then s' == s
    else
      && Enabled(c, s, events[0])
      && (events[0].Advance? && AboutToStore(c, s, events[0].ticket) ==> !OverUnread(c, s, events[0].ticket))
      && CarefulRun(c, Apply(c, s, events[0]), events[1..], s')
  }

  lemma ConsumeKeepsReads(c: Ring, s: State)
    requires Inv(c, s) && UnreadIntact(c, s) && ReadsFaithful(c, s) && Enabled(c, s, Consume)
    ensures WellShaped(c, Apply(c, s, Consume)) && |s.tailWrites| <= |s.subs|
    ensures UnreadIntact(c, Apply(c, s, Consume)) && ReadsFaithful(c, Apply(c, s, Consume))
  {
    HeadSlot(c, s);
  }

  lemma AdvanceKeepsReads(c: Ring, s: State, t: nat)
    requires Inv(c, s) && UnreadIntact(c, s) && ReadsFaithful(c, s) && t < s.claim && CanAdvance(c, s, t)
    requires !AboutToStore(c, s, t)
    ensures Inv(c, AdvanceStep(c, s, t))
    ensures UnreadIntact(c, AdvanceStep(c, s, t)) && ReadsFaithful(c, AdvanceStep(c, s, t))
  {
    AdvanceInv(c, s, t);
    assert Local(c, s, t);
    hide AllLocal, AllApart, AllOwned, Logged, HasRoom;
  }

  lemma CarefulStep(c: Ring, s: State, e: Event)
    requires Inv(c, s) && UnreadIntact(c, s) && ReadsFaithful(c, s) && Enabled(c, s, e)
    requires e.Advance? && AboutToStore(c, s, e.ticket) ==> !OverUnread(c, s, e.ticket)
    ensures Inv(c, Apply(c, s, e))
    ensures UnreadIntact(c, Apply(c, s, e)) && ReadsFaithful(c, Apply(c, s, e))
  {
    Shape(c, s);
    InvStep(c, s, e);
    Shape(c, Apply(c, s, e));
    hide AdvanceStep;
    if e.Consume? {
      ConsumeKeepsReads(c, s);
    } else if e.Advance? && AboutToStore(c, s, e.ticket) {
      StoreKeepsUnreadIff(c, s, e.ticket);
      StoreEffect(c, s, e.ticket);
    } else if e.Advance? {
      AdvanceKeepsReads(c, s, e.ticket);
    }
  }

  lemma {:induction false} CarefulKeeps(c: Ring, s: State, events: seq<Event>, s': State)
    requires Inv(c, s) && UnreadIntact(c, s) && ReadsFaithful(c, s) && CarefulRun(c, s, events, s')
    ensures Inv(c, s') && UnreadIntact(c, s') && ReadsFaithful(c, s')
    decreases |events|
  {
    if events != [] {
      CarefulStep(c, s, events[0]);
      CarefulKeeps(c, Apply(c, s, events[0]), events[1..], s');
    }
  }

  /** In every run, with any overlap and any timeouts, in which no call stores into the slot of
      an entry that has not been read, the hardware reads exactly the published descriptors. */
  lemma ReadsAreFaithful(c: Ring, mem: Memory, events: seq<Event>, s: State)
    requires IsMemory(c, mem) && CarefulRun(c, Init(c, mem), events, s)
    ensures ReadsFaithful(c, s)
  {
    InitInv(c, mem);
    CarefulKeeps(c, Init(c, mem), events, s);
  }

  // The caller's form of the condition.

  /** Every call takes its ticket only after the entry one lap before has been read. */
  ghost predicate PatientRun(c: Ring, s: State, events: seq<Event>, s': State)
    decreases |events|
  {
    if events == [] then s' == s
    else
      && Enabled(c, s, events[0])
      && (events[0].Claim? ==> !OverUnread(c, s, s.claim))
      && PatientRun(c, Apply(c, s, events[0]), events[1..], s')
  }

  ghost predicate LapsRead(c: Ring, s: State) {
    forall u :: 0 <= u < |s.subs| ==> !OverUnread(c, s, u)
  }

  lemma {:induction false} PatientIsCareful(c: Ring, s: State, events: seq<Event>, s': State)
    requires LapsRead(c, s) && PatientRun(c, s, events, s')
    ensures CarefulRun(c, s, events, s')
    decreases |events|
  {
    if events != [] {
      PatientStep(c, s, events[0]);
      PatientIsCareful(c, Apply(c, s, events[0]), events[1..], s');
    }
  }

  lemma PatientStep(c: Ring, s: State, e: Event)
    requires LapsRead(c, s) && Enabled(c, s, e) && (e.Claim? ==> !OverUnread(c, s, s.claim))
    ensures LapsRead(c, Apply(c, s, e))
  {
    var s' := Apply(c, s, e);
    forall u | 0 <= u < |s'.subs|
      ensures !OverUnread(c, s', u)
    {
      assert u < |s.subs| ==> !OverUnread(c, s, u);
      assert |s.consumed| <= |s'.consumed|;
    }
  }

  /** So it is enough that each ticket is taken after the entry one lap before it was read. */
  lemma PatientCallsReadFaithfully(c: Ring, mem: Memory, events: seq<Event>, s: State)
    requires IsMemory(c, mem) && PatientRun(c, Init(c, mem), events, s)
    ensures ReadsFaithful(c, s)
  {
    PatientIsCareful(c, Init(c, mem), events, s);
    ReadsAreFaithful(c, mem, events, s);
  }

  // Rings of one or two entries.

  /** Every call that has seen the head leave its slot has had its entry read. */
  ghost predicate PassedAreRead(s: State) {
    forall v :: 0 <= v < |s.subs| && PassedWait(s.subs[v].stage) ==> v < |s.consumed|
  }

  ghost predicate StuckSomewhere(c: Ring, s: State) { exists t :: Stuck(c, s, t) }

  /** With at most two entries, a call passes its wait unread only if head and tail have met for
      good on the slot of the call before. */
  lemma PassUnreadIsStuck(c: Ring, s: State, v: nat)
    requires c.entries <= 2 && Inv(c, s) && LapOrder(c, s) && PassedAreRead(s)
    requires v < s.claim && s.subs[v].stage.AwaitConsumed? && s.head / c.entryBytes != Slot(c, v) && |s.consumed| <= v
    ensures v >= 1 && Stuck(c, s, v - 1)
  {
    HeadSlot(c, s);
    assert Local(c, s, v) && |s.consumed| < v;
    assert Local(c, s, v - 1) && OneLapApart(c, s, v - 1);
    NextNotPublished(c, s, v);
    SlotLaps(c, v + 1);
    hide InSlot, Logged, AllLocal, AllApart, AllOwned, LapOrder;
  }

  lemma NextNotPublished(c: Ring, s: State, v: nat)
    requires Inv(c, s) && v < s.claim && !(v + 1 < s.claim && Started(s.subs[v + 1].stage))
    ensures |s.tailWrites| <= v + 1
  {
    if v + 1 < s.claim {
      assert Local(c, s, v + 1);
    }
  }

  ghost predicate SmallInv(c: Ring, s: State) {
    && Inv(c, s) && LapOrder(c, s) && ReadsFaithful(c, s)
    && (StuckSomewhere(c, s) || (UnreadIntact(c, s) && PassedAreRead(s)))
  }

  lemma StuckReadsStay(c: Ring, s: State, t: nat, e: Event)
    requires Stuck(c, s, t) && ReadsFaithful(c, s) && Enabled(c, s, e)
    ensures StuckSomewhere(c, Apply(c, s, e)) && ReadsFaithful(c, Apply(c, s, e))
  {
    StuckStep(c, s, t, e);
    StepExtends(c, s, e);
    hide Stuck, Apply;
  }

  lemma StoresAreCareful(c: Ring, s: State, u: nat)
    requires Inv(c, s) && LapOrder(c, s) && PassedAreRead(s) && AboutToStore(c, s, u)
    ensures !OverUnread(c, s, u)
  {
    if c.entries <= u {
      assert OneLapApart(c, s, u - c.entries);
    }
  }

  lemma PassedStep(c: Ring, s: State, e: Event)
    requires Inv(c, s) && PassedAreRead(s) && Enabled(c, s, e)
    requires e.Advance? && s.subs[e.ticket].stage.AwaitConsumed? ==> e.ticket < |s.consumed|
    ensures PassedAreRead(Apply(c, s, e))
  {
  }

  lemma SmallStep(c: Ring, s: State, e: Event)
    requires c.entries <= 2 && SmallInv(c, s) && Enabled(c, s, e)
    ensures SmallInv(c, Apply(c, s, e))
  {
    RunSnoc(c, s, [], s, e);
    LapRun(c, s, [] + [e], Apply(c, s, e));
    hide Inv, LapOrder, Apply, UnreadIntact, ReadsFaithful, PassedAreRead, Stuck, AboutToStore, OverUnread, Run;
    if StuckSomewhere(c, s) {
      var t :| Stuck(c, s, t);
      StuckReadsStay(c, s, t, e);
    } else if e.Advance? && s.subs[e.ticket].stage.AwaitConsumed? && |s.consumed| <= e.ticket {
      PassUnreadIsStuck(c, s, e.ticket);
      assert false;
    } else {
      PassedStep(c, s, e);
      if e.Advance? && AboutToStore(c, s, e.ticket) {
        StoresAreCareful(c, s, e.ticket);
      }
      CarefulStep(c, s, e);
    }
  }

  lemma {:induction false} SmallRun(c: Ring, s: State, events: seq<Event>, s': State)
    requires c.entries <= 2 && SmallInv(c, s) && Run(c, s, events, s')
    ensures SmallInv(c, s')
    decreases |events|
  {
    hide SmallInv, Apply, Enabled;
    if events != [] {
      SmallStep(c, s, events[0]);
      SmallRun(c, Apply(c, s, events[0]), events[1..], s');
    }
  }

  /** On rings of one or two entries every read is faithful, however calls overlap. */
  lemma SmallRingsReadFaithfully(c: Ring, mem: Memory, events: seq<Event>, s: State)
    requires c.entries <= 2 && Reachable(c, mem, events, s)
    ensures ReadsFaithful(c, s)
  {
    InitInv(c, mem);
    SmallRun(c, Init(c, mem), events, s);
  }

  // Longer rings.

  lemma ClaimRun(c: Ring, mem: Memory, bytes: seq<Byte>, last: seq<Byte>, n: nat) returns (events: seq<Event>, s: State)
    requires IsMemory(c, mem) && 0 < |bytes| <= c.entryBytes && 0 < |last| <= c.entryBytes
    ensures Reachable(c, mem, events, s) && Inv(c, s) && |s.subs| == s.claim == n + 1
    ensures s == Init(c, mem).(claim := n + 1, subs := s.subs)
    ensures forall t :: 0 <= t < n ==> s.subs[t] == Submitter(bytes, AwaitCapacity)
    ensures s.subs[n] == Submitter(last, AwaitCapacity)
  {
    InitInv(c, mem);
    events, s := [], Init(c, mem);
    for k := 0 to n
      invariant Reachable(c, mem, events, s) && Inv(c, s) && |s.subs| == s.claim == k
      invariant s == Init(c, mem).(claim := k, subs := s.subs)
      invariant forall t :: 0 <= t < k ==> s.subs[t] == Submitter(bytes, AwaitCapacity)
    {
      InvStep(c, s, Claim(bytes));
      RunSnoc(c, Init(c, mem), events, s, Claim(bytes));
      events, s := events + [Claim(bytes)], Apply(c, s, Claim(bytes));
    }
    InvStep(c, s, Claim(last));
    RunSnoc(c, Init(c, mem), events, s, Claim(last));
    events, s := events + [Claim(last)], Apply(c, s, Claim(last));
  }

  /** Calls 0 and 1 publish; call 1 sees the head elsewhere and returns Ok unread; the call one
      lap after it stores its first byte. */
  lemma RefilledUnread(c: Ring, mem: Memory, bytes: seq<Byte>, last: seq<Byte>) returns (events: seq<Event>, s: State)
    requires IsMemory(c, mem) && c.entries >= 3 && 0 < |bytes| <= c.entryBytes && 0 < |last| <= c.entryBytes
    ensures Reachable(c, mem, events, s) && Inv(c, s) && s.claim == c.entries + 2
    ensures s.consumed == [] && |s.tailWrites| == 2 && s.subs[1] == Submitter(bytes, Done)
    ensures s.mem[1][0] == last[0]
  {
    hide Inv, Run;
    var n := c.entries;
    SmallSlots(c, mem);
    var s0;
    events, s0 := ClaimRun(c, mem, bytes, last, n + 1);
    var a, s1 := TurnRun(c, s0, 0);
    RunAppend(c, Init(c, mem), events, s0, a, s1);
    var b, s2 := PublishRun(c, s1, 0);
    RunAppend(c, Init(c, mem), events + a, s1, b, s2);
    var d, s3 := TurnRun(c, s2, 1);
    RunAppend(c, Init(c, mem), events + a + b, s2, d, s3);
    var e, s4 := PublishRun(c, s3, 1);
    RunAppend(c, Init(c, mem), events + a + b + d, s3, e, s4);
    var f, s5 := ReturnRun(c, s4, 1);
    RunAppend(c, Init(c, mem), events + a + b + d + e, s4, f, s5);
    var g, s6 := EnterRun(c, s5, n + 1);
    RunAppend(c, Init(c, mem), events + a + b + d + e + f, s5, g, s6);
    Shape(c, s6);
    SoloStart(c, s6, n + 1);
    SoloStep(c, s6, [], s6, n + 1);
    s := AdvanceStep(c, s6, n + 1);
    RunAppend(c, Init(c, mem), events + a + b + d + e + f + g, s6, [] + [Advance(n + 1)], s);
    events := events + a + b + d + e + f + g + ([] + [Advance(n + 1)]);
  }

  lemma SmallSlots(c: Ring, mem: Memory)
    requires IsMemory(c, mem) && c.entries >= 3
    ensures Slot(c, 0) == 0 && Slot(c, 1) == 1 && Slot(c, 2) == 2 && Slot(c, c.entries + 1) == 1
    ensures Init(c, mem).head / c.entryBytes == 0
  {
    DivModUnique(0, c.entries, 0, 0);
    DivModUnique(1, c.entries, 0, 1);
    DivModUnique(2, c.entries, 0, 2);
    DivModUnique(c.entries + 1, c.entries, 1, 1);
    OffsetSlot(0, c.entryBytes);
  }

  /** On every ring of three or more entries the hardware can read, as the entry of a call that
      has returned Ok, bytes of a later call. */
  lemma OverlapCanCorrupt(c: Ring, mem: Memory, bytes: seq<Byte>, last: seq<Byte>)
    returns (events: seq<Event>, s: State)
    requires IsMemory(c, mem) && c.entries >= 3 && 0 < |bytes| <= c.entryBytes && 0 < |last| <= c.entryBytes
    requires bytes[0] != last[0]
    ensures Reachable(c, mem, events, s) && ReturnedOk(s, 1) && |s.consumed| == 2 && |s.tailWrites| == 2
    ensures s.consumed[1] != Pad(s.subs[1].bytes, c.entryBytes) && !ReadsFaithful(c, s)
  {
    var m;
    events, m := RefilledUnread(c, mem, bytes, last);
    SmallSlots(c, mem);
    OffsetSlot(1, c.entryBytes);
    OffsetSlot(2, c.entryBytes);
    RunSnoc(c, Init(c, mem), events, m, Consume);
    InvStep(c, m, Consume);
    var m' := Apply(c, m, Consume);
    events := events + [Consume];
    RunSnoc(c, Init(c, mem), events, m', Consume);
    events, s := events + [Consume], Apply(c, m', Consume);
    assert s.consumed[1] == m.mem[1];
    assert Pad(bytes, c.entryBytes)[0] == bytes[0];
  }

  ghost predicate AlwaysFaithful(c: Ring, mem: Memory) {
    forall events, s :: Reachable(c, mem, events, s) ==> ReadsFaithful(c, s)
  }

  /** With no condition on the calls, the hardware is sure to read the published descriptors if
      and only if the ring has at most two entries. */
  lemma AlwaysFaithfulIffSmall(c: Ring, mem: Memory)
    requires IsMemory(c, mem)
    ensures AlwaysFaithful(c, mem) <==> c.entries <= 2
  {
    hide Reachable, ReadsFaithful;
    if c.entries <= 2 {
      forall events, s | Reachable(c, mem, events, s)
        ensures ReadsFaithful(c, s)
      {
        SmallRingsReadFaithfully(c, mem, events, s);
      }
    } else {
      var events, s := OverlapCanCorrupt(c, mem, [0], [1]);
    }
  }
}
