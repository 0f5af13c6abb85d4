/** What the command ring guarantees over whole runs. */
module RingTheorems {
  import opened Bits
  import opened Errors
  import opened RingProtocol
  import opened RingSafety
  import opened RingRuns

  ghost predicate Reachable(c: Ring, mem: Memory, events: seq<Event>, s: State) {
    IsMemory(c, mem) && Run(c, Init(c, mem), events, s)
  }

  lemma ReachableInv(c: Ring, mem: Memory, events: seq<Event>, s: State)
    requires Reachable(c, mem, events, s)
    ensures Inv(c, s)
  {
    InitInv(c, mem);
    InvRun(c, Init(c, mem), events, s);
  }

  /** In every interleaving, with any pattern of timeouts, each non-EMPTY slot belongs to
      exactly one ticket, and two tickets of one slot are never both between passing
      `wait_for_empty` and storing EMPTY. */
  lemma SlotExclusivity(c: Ring, mem: Memory, events: seq<Event>, s: State)
    requires Reachable(c, mem, events, s)
    ensures WellShaped(c, s)
    ensures forall t, u :: 0 <= t < s.claim && 0 <= u < s.claim && Slot(c, t) == Slot(c, u) ==>
              Holds(s.subs[t].stage) && Holds(s.subs[u].stage) ==> t == u
    ensures forall i :: 0 <= i < c.entries && s.slots[i] != Empty ==>
              exists t :: 0 <= t < s.claim && Slot(c, t) == i && Holds(s.subs[t].stage)
                && SlotValue(s.subs[t].stage) == s.slots[i]
  {
    ReachableInv(c, mem, events, s);
    forall t, u | 0 <= t < s.claim && 0 <= u < s.claim && Slot(c, t) == Slot(c, u)
                  && Holds(s.subs[t].stage) && Holds(s.subs[u].stage)
      ensures t == u
    {
      assert Apart(c, s, t, u);
    }
    forall i | 0 <= i < c.entries && s.slots[i] != Empty
      ensures exists t :: 0 <= t < s.claim && Slot(c, t) == i && Holds(s.subs[t].stage)
                && SlotValue(s.subs[t].stage) == s.slots[i]
    {
      assert HasOwner(c, s, i);
      var t :| 0 <= t < s.claim && Slot(c, t) == i && Holds(s.subs[t].stage);
      assert Local(c, s, t);
    }
  }

  /** Publication is gap-free: tail write number `k` is made by ticket `k`, with the value
      that follows its slot, over its own zero-padded bytes; and while a call holds a fully
      written slot, those bytes stay there. */
  lemma GapFreePublication(c: Ring, mem: Memory, events: seq<Event>, s: State)
    requires Reachable(c, mem, events, s)
    ensures WellShaped(c, s) && |s.tailWrites| <= s.claim
    ensures forall k :: 0 <= k < |s.tailWrites| ==>
              && s.tailWrites[k].ticket == k
              && s.tailWrites[k].value == ((k + 1) % c.entries) * c.entryBytes
              && s.tailWrites[k].content == Pad(s.subs[k].bytes, c.entryBytes)
    ensures forall t :: 0 <= t < s.claim && Filled(s.subs[t].stage) ==>
              s.mem[Slot(c, t)] == Pad(s.subs[t].bytes, c.entryBytes)
    ensures forall t :: 0 <= t < s.claim && s.subs[t].stage.MyTurn? ==> t == |s.tailWrites|
  {
    ReachableInv(c, mem, events, s);
    forall k | 0 <= k < |s.tailWrites|
      ensures && s.tailWrites[k].ticket == k
              && s.tailWrites[k].value == ((k + 1) % c.entries) * c.entryBytes
              && s.tailWrites[k].content == Pad(s.subs[k].bytes, c.entryBytes)
    {
      assert Local(c, s, k);
    }
    forall t | 0 <= t < s.claim && Filled(s.subs[t].stage)
      ensures s.mem[Slot(c, t)] == Pad(s.subs[t].bytes, c.entryBytes)
      ensures s.subs[t].stage.MyTurn? ==> t == |s.tailWrites|
    {
      assert Local(c, s, t);
    }
  }

  /** The counters in every reachable state. The subtraction in the capacity poll never
      wraps, and a call that returned Ok has moved `retired` past its ticket. */
  lemma CounterDiscipline(c: Ring, mem: Memory, events: seq<Event>, s: State)
    requires Reachable(c, mem, events, s)
    ensures WellShaped(c, s)
    ensures s.retired <= s.committed <= s.claim && s.committed <= s.retired + c.entries
    ensures forall t :: 0 <= t < s.claim && s.subs[t].stage.AwaitCapacity? ==> s.retired <= t
    ensures forall t :: 0 <= t < s.claim && s.subs[t].stage.Done? ==> s.retired >= t + 1
  {
    ReachableInv(c, mem, events, s);
    forall t | 0 <= t < s.claim
      ensures s.subs[t].stage.AwaitCapacity? ==> s.retired <= t
      ensures s.subs[t].stage.Done? ==> s.retired >= t + 1
    {
      assert Local(c, s, t);
    }
    if s.committed > 0 {
      assert Local(c, s, s.committed - 1);
    }
  }

  /** What later states keep: counters and histories only grow, finished calls stay so. */
  ghost predicate Extends(s: State, s': State) {
    && s.claim <= s'.claim && s.committed <= s'.committed && s.retired <= s'.retired
    && |s.subs| == s.claim && |s'.subs| == s'.claim
    && s.tailWrites <= s'.tailWrites
    && s.consumed <= s'.consumed
    && (forall t :: 0 <= t < s.claim ==> s'.subs[t].bytes == s.subs[t].bytes)
    && (forall t :: 0 <= t < s.claim && (s.subs[t].stage.Failed? || s.subs[t].stage.Done?)
          ==> s'.subs[t] == s.subs[t])
  }

  lemma StepExtends(c: Ring, s: State, e: Event)
    requires Inv(c, s) && Enabled(c, s, e)
    ensures Extends(s, Apply(c, s, e))
  {
    if e.Advance? {
      RetiredStep(c, s, e.ticket);
    }
    hide Inv, CanAdvance;
  }

  lemma RetiredStep(c: Ring, s: State, t: nat)
    requires Inv(c, s) && t < s.claim && CanAdvance(c, s, t)
    ensures s.committed <= AdvanceStep(c, s, t).committed && s.retired <= AdvanceStep(c, s, t).retired
  {
    assert Counted(c, s, t) by { assert Local(c, s, t); }
    hide Inv;
  }

  /** All three counters are monotone under any interference. */
  lemma {:induction false} RunExtends(c: Ring, s: State, events: seq<Event>, s': State)
    requires Inv(c, s) && Run(c, s, events, s')
    ensures Extends(s, s')
    decreases |events|
  {
    if events != [] {
      StepExtends(c, s, events[0]);
      InvStep(c, s, events[0]);
      RunExtends(c, Apply(c, s, events[0]), events[1..], s');
    }
  }

  lemma BehindAbandoned(c: Ring, s: State, t: nat, u: nat)
    requires Inv(c, s) && t <= u < s.claim
    requires s.subs[t].stage.Failed? && s.subs[t].stage.held != Published
    ensures s.committed <= t && |s.tailWrites| <= t
    ensures !s.subs[u].stage.Done?
    ensures s.subs[u].stage.Failed? ==> s.subs[u].stage.error == ControllerUnavailable
  {
    assert Local(c, s, t) && Local(c, s, u);
  }

  /** A ticket abandoned before publication blocks the ring for good: nothing is published
      at or past it, and every later call can only end in ControllerUnavailable. */
  lemma AbandonedTicketBlocks(c: Ring, mem: Memory, before: seq<Event>, s: State, t: nat, events: seq<Event>, s': State)
    requires Reachable(c, mem, before, s) && Run(c, s, events, s')
    requires t < |s.subs| && s.subs[t].stage.Failed? && s.subs[t].stage.held != Published
    ensures s'.committed <= t && |s'.tailWrites| <= t
    ensures forall u :: t <= u < |s'.subs| ==>
              && !s'.subs[u].stage.Done?
              && (s'.subs[u].stage.Failed? ==> s'.subs[u].stage.error == ControllerUnavailable)
  {
    assert Inv(c, s) by { ReachableInv(c, mem, before, s); }
    assert t < s'.claim == |s'.subs| && s'.subs[t] == s.subs[t] by { RunExtends(c, s, events, s'); }
    InvRun(c, s, events, s');
    forall u | t <= u < |s'.subs|
      ensures && s'.committed <= t && |s'.tailWrites| <= t
              && !s'.subs[u].stage.Done?
              && (s'.subs[u].stage.Failed? ==> s'.subs[u].stage.error == ControllerUnavailable)
    {
      BehindAbandoned(c, s', t, u);
    }
    assert t <= t < |s'.subs|;
  }

  // When does Ok mean that the hardware has read the descriptor?

  ghost predicate ReturnedOk(s: State, t: nat) {
    t < |s.subs| && s.subs[t].stage.Done?
  }

  ghost predicate WasRead(c: Ring, s: State, t: nat)
    requires t < |s.subs|
  {
    |s.consumed| > t && s.consumed[t] == Pad(s.subs[t].bytes, c.entryBytes)
  }

  /** Everything published before `t` had been read when `t` wrote the tail, or has been read
      before `t` gets there. */
  ghost predicate PublishesDrained(c: Ring, s: State, t: nat) {
    && Inv(c, s) && t < s.claim
    && (if t < |s.tailWrites| then s.tailWrites[t].consumedBefore == t else |s.consumed| == t)
  }

  lemma DrainedStays(c: Ring, s: State, t: nat, e: Event)
    requires PublishesDrained(c, s, t) && Enabled(c, s, e)
    ensures PublishesDrained(c, Apply(c, s, e), t)
  {
    InvStep(c, s, e);
    StepExtends(c, s, e);
    assert Local(c, s, t);
    if e.Advance? {
      assert Local(c, s, e.ticket);
    }
  }

  lemma {:induction false} DrainedRun(c: Ring, s: State, t: nat, events: seq<Event>, s': State)
    requires PublishesDrained(c, s, t) && Run(c, s, events, s')
    ensures PublishesDrained(c, s', t)
    decreases |events|
  {
    if events != [] {
      DrainedStays(c, s, t, events[0]);
      DrainedRun(c, Apply(c, s, events[0]), t, events[1..], s');
    }
  }

  /** A call that publishes onto a drained ring returns Ok only after the consumer has read
      exactly its descriptor, whatever other calls do meanwhile. */
  lemma DrainedOkIsRead(c: Ring, s: State, t: nat, events: seq<Event>, s': State)
    requires PublishesDrained(c, s, t) && Run(c, s, events, s') && ReturnedOk(s', t)
    ensures WasRead(c, s', t)
  {
    DrainedRun(c, s, t, events, s');
    assert Local(c, s', t);
  }

  /** The head register is compared for inequality only, so it also passes while it is
      still behind: published onto an undrained ring, the call can return Ok unread. */
  lemma UndrainedOkUnread(c: Ring, s: State, t: nat) returns (events: seq<Event>, s': State)
    requires c.entries >= 2
    requires Inv(c, s) && t < s.claim && s.subs[t].stage.MyTurn? && |s.consumed| != t
    ensures Run(c, s, events, s') && ReturnedOk(s', t) && !WasRead(c, s', t)
    ensures forall e :: e in events ==> !e.Claim?
  {
    assert Local(c, s, t);
    var a, m := PublishRun(c, s, t);
    HeadSlot(c, m);
    if Slot(c, |m.consumed|) == Slot(c, t) {
      NextResidue(t, c.entries);
      NextResidue(|m.consumed|, c.entries);
      OffsetSlot(Slot(c, |m.consumed|), c.entryBytes);
      OffsetSlot(Slot(c, |m.tailWrites|), c.entryBytes);
      RunSnoc(c, s, a, m, Consume);
      InvStep(c, m, Consume);
      a, m := a + [Consume], Apply(c, m, Consume);
      HeadSlot(c, m);
    }
    var b, s'' := ReturnRun(c, m, t);
    RunAppend(c, s, a, m, b, s'');
    events, s' := a + b, s'';
  }

  /** In every continuation of `s`, Ok from call `t` means that its descriptor was read. */
  ghost predicate OkAlwaysRead(c: Ring, s: State, t: nat) {
    forall events, s' :: Run(c, s, events, s') && ReturnedOk(s', t) ==> WasRead(c, s', t)
  }

  lemma DrainedAlwaysRead(c: Ring, s: State, t: nat)
    requires PublishesDrained(c, s, t)
    ensures OkAlwaysRead(c, s, t)
  {
    forall events, s' | Run(c, s, events, s') && ReturnedOk(s', t)
      ensures WasRead(c, s', t)
    {
      DrainedOkIsRead(c, s, t, events, s');
    }
  }

  lemma UndrainedNotAlwaysRead(c: Ring, s: State, t: nat)
    requires c.entries >= 2
    requires Inv(c, s) && t < s.claim && s.subs[t].stage.MyTurn? && |s.consumed| != t
    ensures !OkAlwaysRead(c, s, t)
  {
    var events, s' := UndrainedOkUnread(c, s, t);
  }

  /** Exactly when Ok means "read by the hardware", for arbitrarily overlapping calls: if
      and only if the consumer had read everything published before this tail write. */
  lemma OkMeansReadIffDrained(c: Ring, mem: Memory, before: seq<Event>, s: State, t: nat)
    requires c.entries >= 2 && Reachable(c, mem, before, s)
    requires t < |s.subs| && s.subs[t].stage.MyTurn?
    ensures OkAlwaysRead(c, s, t) <==> |s.consumed| == t
  {
    ReachableInv(c, mem, before, s);
    if |s.consumed| == t {
      assert Local(c, s, t);
      DrainedAlwaysRead(c, s, t);
    } else {
      UndrainedNotAlwaysRead(c, s, t);
    }
  }

  /** The backing accepts a ring of one entry, but on it the head can never be seen to leave
      the only slot: no call ever returns Ok. */
  lemma {:induction false} SingleEntryNeverOk(c: Ring, s: State, events: seq<Event>, s': State)
    requires c.entries == 1 && Inv(c, s) && Run(c, s, events, s')
    requires forall t :: 0 <= t < s.claim ==> !PassedWait(s.subs[t].stage)
    ensures forall t :: 0 <= t < |s'.subs| ==> !s'.subs[t].stage.Done?
    decreases |events|
  {
    if events != [] {
      HeadSlot(c, s);
      InvStep(c, s, events[0]);
      SingleEntryNeverOk(c, Apply(c, s, events[0]), events[1..], s');
    }
  }
}
