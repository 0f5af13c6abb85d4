/** When Ok means "read", as a caller can tell before its tail write and with any overlap: when it
    takes its ticket, for instance. */
module RingClaims {
  import opened Bits
  import opened Errors
  import opened RingProtocol
  import opened RingSafety
  import opened RingRuns
  import opened RingTheorems
  import opened RingBlocked

  ghost predicate Steady(c: Ring, s: State) { Inv(c, s) && LapOrder(c, s) }

  /** The state in which ticket `t` is the next to publish, with something left unread: a run to
      call `t`'s Ok that starts before it, on an undrained ring, passes through one. */
  ghost predicate NextUndrained(c: Ring, s: State, t: nat) {
    Steady(c, s) && t < s.claim && |s.tailWrites| == t && |s.consumed| < t
  }

  lemma DoneIsPublished(c: Ring, s: State, t: nat)
    requires Inv(c, s) && ReturnedOk(s, t)
    ensures t < s.committed && t < |s.tailWrites|
  {
    assert Local(c, s, t);
  }

  lemma UnpublishedStep(c: Ring, s: State, t: nat, e: Event)
    requires Inv(c, s) && Enabled(c, s, e) && t < s.claim && |s.tailWrites| < t
    ensures |Apply(c, s, e).tailWrites| <= t && |Apply(c, s, e).consumed| < t
  {
  }

  lemma {:induction false} ReachNextUndrained(c: Ring, s: State, t: nat, events: seq<Event>, s': State)
    returns (a: seq<Event>, m: State, b: seq<Event>)
    requires Steady(c, s) && t < s.claim && |s.tailWrites| <= t && |s.consumed| < t
    requires Run(c, s, events, s') && ReturnedOk(s', t)
    ensures Run(c, s, a, m) && Run(c, m, b, s') && NextUndrained(c, m, t)
    decreases |events|
  {
    if |s.tailWrites| == t {
      a, m, b := [], s, events;
    } else if events == [] {
      DoneIsPublished(c, s, t);
      assert false;
    } else {
      var e, s1 := events[0], Apply(c, s, events[0]);
      UnpublishedStep(c, s, t, e);
      assert Run(c, s, [e], s1) by { RunSnoc(c, s, [], s, e); assert [] + [e] == [e]; }
      LapRun(c, s, [e], s1);
      hide Inv, LapOrder, Apply, Enabled, ReturnedOk;
      var a';
      a', m, b := ReachNextUndrained(c, s1, t, events[1..], s');
      RunAppend(c, s, [e], s1, a', m);
      a := [e] + a';
    }
  }

  /** Call `t - 1` goes on until it has stored the committed counter. */
  lemma CommitRun(c: Ring, s: State, t: nat) returns (a: seq<Event>, m: State)
    requires NextUndrained(c, s, t)
    ensures Run(c, s, a, m) && NextUndrained(c, m, t) && m.committed == t && m.subs[t] == s.subs[t]
    ensures forall e :: e in a ==> !e.Claim?
  {
    a, m := [], s;
    assert Local(c, s, t - 1);
    if s.committed != t {
      var p := t - 1;
      a, m := CommitSolo(c, s, p);
    }
    LapRun(c, s, a, m);
  }

  lemma CommitSolo(c: Ring, s: State, p: nat) returns (events: seq<Event>, s': State)
    requires Inv(c, s) && p < s.claim && (s.subs[p].stage.TailWritten? || s.subs[p].stage.Marked?)
    ensures Solo(c, s, events, s', p) && s'.committed == p + 1 && s'.tailWrites == s.tailWrites
  {
    events, s' := [], s;
    SoloStart(c, s, p);
    hide Inv;
    while !s'.subs[p].stage.AwaitConsumed?
      invariant Solo(c, s, events, s', p) && s'.tailWrites == s.tailWrites && WellShaped(c, s')
      invariant s'.subs[p].stage.TailWritten? || s'.subs[p].stage.Marked? || s'.subs[p].stage.AwaitConsumed?
      invariant s'.subs[p].stage.AwaitConsumed? ==> s'.committed == p + 1
      decreases !s'.subs[p].stage.AwaitConsumed?, s'.subs[p].stage.TailWritten?
    {
      SoloStep(c, s, events, s', p);
      events, s' := events + [Advance(p)], AdvanceStep(c, s', p);
    }
  }

  /** If a call has started on a slot, all earlier calls of that slot have given it back. */
  lemma {:induction false} EarlierGaveBack(c: Ring, s: State, w: nat, v: nat)
    requires Steady(c, s) && w < v < s.claim && Slot(c, w) == Slot(c, v) && Started(s.subs[v].stage)
    ensures GaveBack(s.subs[w].stage)
    decreases v
  {
    SlotLaps(c, v);
    assert w + c.entries <= v && OneLapApart(c, s, v - c.entries);
    if w < v - c.entries {
      EarlierGaveBack(c, s, w, v - c.entries);
    }
  }

  /** The slot of the next ticket to publish is free once the call one lap before has given it
      back. */
  lemma NextSlotFree(c: Ring, s: State, t: nat)
    requires Steady(c, s) && t < s.claim && s.committed == t && !Started(s.subs[t].stage)
    requires t >= c.entries ==> GaveBack(s.subs[t - c.entries].stage)
    ensures s.slots[Slot(c, t)] == Empty
  {
    if s.slots[Slot(c, t)] != Empty {
      assert HasOwner(c, s, Slot(c, t));
      var w: nat :| w < s.claim && Slot(c, w) == Slot(c, t) && Holds(s.subs[w].stage);
      assert Local(c, s, w);
      SlotLaps(c, w);
      SlotLaps(c, t);
      assert w < t;
      if w < t - c.entries {
        EarlierGaveBack(c, s, w, t - c.entries);
      }
      assert false;
    }
  }

  /** The call one lap before `t` can return, if `t` returns Ok at all. */
  lemma LapBeforeCanFinish(c: Ring, s: State, t: nat, events: seq<Event>, s': State)
    requires c.entries >= 2 && NextUndrained(c, s, t) && t >= c.entries
    requires Run(c, s, events, s') && ReturnedOk(s', t)
    ensures CanFinish(c, s, t - c.entries)
  {
    var v := t - c.entries;
    assert Local(c, s, v);
    SlotLaps(c, t);
    if s.subs[v].stage.Failed? {
      hide Run;
      LapRun(c, s, events, s');
      RunExtends(c, s, events, s');
      BehindPublishedFailure(c, s', v);
    } else if s.subs[v].stage.AwaitConsumed? && s.head / c.entryBytes == Slot(c, v) {
      HeadSlot(c, s);
      assert Stuck(c, s, v);
      StuckForGood(c, s, v, events, s');
    }
  }

  /** The call one lap before `t` returns, so that there is room for `t`. */
  lemma MakeRoom(c: Ring, s: State, t: nat, events: seq<Event>, s': State) returns (a: seq<Event>, m: State)
    requires c.entries >= 2 && NextUndrained(c, s, t)
    requires Run(c, s, events, s') && ReturnedOk(s', t)
    ensures Run(c, s, a, m) && NextUndrained(c, m, t) && m.subs[t] == s.subs[t]
    ensures t >= c.entries ==> m.subs[t - c.entries].stage.Done?
  {
    a, m := [], s;
    if t >= c.entries {
      LapBeforeCanFinish(c, s, t, events, s');
      a, m := ReturnRun(c, s, t - c.entries);
    }
    LapRun(c, s, a, m);
  }

  /** From there on call `t` can go on to its tail write with nothing more read. */
  lemma TurnUndrained(c: Ring, s: State, t: nat, events: seq<Event>, s': State) returns (a: seq<Event>, m: State)
    requires c.entries >= 2 && NextUndrained(c, s, t)
    requires Run(c, s, events, s') && ReturnedOk(s', t)
    ensures Run(c, s, a, m) && Inv(c, m) && t < m.claim && m.subs[t].stage.MyTurn? && |m.consumed| != t
  {
    var a1, m1 := MakeRoom(c, s, t, events, s');
    var a2, m2 := CommitRun(c, m1, t);
    RunAppend(c, s, a1, m1, a2, m2);
    RunExtends(c, m1, a2, m2);
    StillToPublish(c, m2, t, s, events, s');
    RoomForNext(c, m2, t);
    var a3, m3 := TurnRun(c, m2, t);
    RunAppend(c, s, a1 + a2, m2, a3, m3);
    a, m := a1 + a2 + a3, m3;
  }

  /** A call that still returns Ok has not failed, and has not published if it is next. */
  lemma StillToPublish(c: Ring, m: State, t: nat, s: State, events: seq<Event>, s': State)
    requires Inv(c, m) && |m.tailWrites| == t < m.claim
    requires Inv(c, s) && t < s.claim && m.subs[t] == s.subs[t] && Run(c, s, events, s') && ReturnedOk(s', t)
    ensures BeforeTurn(m.subs[t].stage) || m.subs[t].stage.MyTurn?
  {
    RunExtends(c, s, events, s');
    assert Local(c, m, t);
  }

  lemma RoomForNext(c: Ring, s: State, t: nat)
    requires NextUndrained(c, s, t) && s.committed == t
    requires t >= c.entries ==> s.subs[t - c.entries].stage.Done?
    requires BeforeTurn(s.subs[t].stage) || s.subs[t].stage.MyTurn?
    ensures !HeldBack(c, s, t)
  {
    if !Started(s.subs[t].stage) {
      NextSlotFree(c, s, t);
    }
    assert t >= c.entries ==> Local(c, s, t - c.entries);
  }

  /** On an undrained ring, a call that has not published and can return Ok can return Ok unread. */
  lemma OkUnread(c: Ring, s: State, t: nat, events: seq<Event>, s': State) returns (a: seq<Event>, m: State)
    requires c.entries >= 2 && Steady(c, s) && t < s.claim && |s.tailWrites| <= t && |s.consumed| < t
    requires Run(c, s, events, s') && ReturnedOk(s', t)
    ensures Run(c, s, a, m) && ReturnedOk(m, t) && !WasRead(c, m, t)
  {
    hide Inv, LapOrder, Run;
    var a1, m1, b := ReachNextUndrained(c, s, t, events, s');
    var a2, m2 := TurnUndrained(c, m1, t, b, s');
    RunAppend(c, s, a1, m1, a2, m2);
    var a3, m3 := UndrainedOkUnread(c, m2, t);
    RunAppend(c, s, a1 + a2, m2, a3, m3);
    a, m := a1 + a2 + a3, m3;
  }

  /** At any moment before its tail write, with any overlap: Ok from the call will mean "read" if
      and only if everything before it has been read, or it cannot return Ok any more. */
  lemma OkMeansReadIffDrainedEarlier(c: Ring, mem: Memory, before: seq<Event>, s: State, t: nat)
    requires c.entries >= 2 && Reachable(c, mem, before, s) && t < |s.subs| && |s.tailWrites| <= t
    ensures OkAlwaysRead(c, s, t) <==> (CanStillReturnOk(c, s, t) ==> |s.consumed| == t)
  {
    ReachableLap(c, mem, before, s);
    NotAhead(c, s);
    hide Inv, LapOrder, Run;
    if |s.consumed| == t {
      assert PublishesDrained(c, s, t) by { Shape(c, s); NotAhead(c, s); }
      DrainedAlwaysRead(c, s, t);
    } else if CanStillReturnOk(c, s, t) {
      var events, s' :| Run(c, s, events, s') && ReturnedOk(s', t);
      var a, m := OkUnread(c, s, t, events, s');
    }
  }

  lemma NotAhead(c: Ring, s: State)
    requires Inv(c, s)
    ensures |s.consumed| <= |s.tailWrites| <= |s.subs| == s.claim
  {
  }

  /** What a caller can check when it takes its ticket: if the hardware has read as many entries
      as there are tickets before it, Ok will mean "read", whatever other calls do; otherwise it
      will not, unless Ok is out of reach. */
  lemma OkMeansReadIffDrainedAtClaim(c: Ring, mem: Memory, before: seq<Event>, s: State, bytes: seq<Byte>)
    requires c.entries >= 2 && Reachable(c, mem, before, s) && 0 < |bytes| <= c.entryBytes
    ensures WellShaped(c, s)
    ensures var s1 := Apply(c, s, Claim(bytes));
            OkAlwaysRead(c, s1, s.claim) <==> (CanStillReturnOk(c, s1, s.claim) ==> |s.consumed| == s.claim)
  {
    ReachableInv(c, mem, before, s);
    NotAhead(c, s);
    RunSnoc(c, Init(c, mem), before, s, Claim(bytes));
    hide Inv, Run;
    OkMeansReadIffDrainedEarlier(c, mem, before + [Claim(bytes)], Apply(c, s, Claim(bytes)), s.claim);
  }
}
