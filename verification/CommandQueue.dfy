/**
 `CommandQueue` as an object, with `submit` written as its sequence of atomic accesses. Any
 number of events of other calls and of the hardware can happen before each of them, and
 every access is proved to be one event of `RingProtocol`, so that whatever is proved of the
 runs of the protocol holds of the object.
 */
module CommandQueues {
  import opened Basics
  import opened Bits
  import opened Errors
  import opened RingProtocol
  import opened RingSafety
  import opened RingRuns
  import opened RingTheorems
  import opened CommandBacking

  const POLL_LIMIT: nat := 1_000_000

  /** The call an event belongs to, if it is not the hardware's and not a new call's. */
  predicate ActsFor(e: Event, t: nat) {
    (e.Advance? || e.LoseRace? || e.GiveUp?) && e.ticket == t
  }

  /** One more event keeps the invariant and extends the run. */
  lemma Recorded(c: Ring, first: Memory, trace: seq<Event>, s: State, e: Event)
    requires Inv(c, s) && Reachable(c, first, trace, s) && Enabled(c, s, e)
    ensures Inv(c, Apply(c, s, e)) && Reachable(c, first, trace + [e], Apply(c, s, e))
  {
    InvStep(c, s, e);
    RunSnoc(c, Init(c, first), trace, s, e);
  }

  lemma NothingYet(c: Ring, first: Memory)
    requires IsMemory(c, first)
    ensures Inv(c, Init(c, first)) && Reachable(c, first, [], Init(c, first))
  {
    InitInv(c, first);
  }

  lemma OthersKeepCall(c: Ring, s: State, e: Event, me: nat)
    requires Enabled(c, s, e) && me < s.claim && !ActsFor(e, me)
    ensures me < Apply(c, s, e).claim && Apply(c, s, e).subs[me] == s.subs[me]
  {
  }

  /** A waiting ticket is not behind `retired`, so the subtraction of the source does not wrap. */
  lemma CapacityNeverWraps(c: Ring, s: State, t: nat)
    requires Inv(c, s) && t < s.claim && s.subs[t].stage.AwaitCapacity?
    ensures s.retired <= t
  {
    assert Local(c, s, t);
  }

  lemma RetiringBehind(c: Ring, s: State, t: nat)
    requires Inv(c, s) && t < s.claim && s.subs[t].stage.Retiring?
    ensures s.subs[t].stage.current <= s.retired
  {
    assert Local(c, s, t);
  }

  /** The descriptor widths `submit` takes: a power of two up to the entry size. */
  predicate Accepts(b: Backing, bytes: seq<Byte>) {
    PowerOfTwo(|bytes|) && |bytes| <= b.entryBytes
  }

  /** The source's two uses of a mask are reductions modulo the entry count. */
  lemma MaskedSlots(b: Backing, ticket: nat)
    requires b.Valid()
    ensures BitAnd(ticket, b.entryCount - 1) == Slot(b.Ring(), ticket)
    ensures BitAnd(Slot(b.Ring(), ticket) + 1, b.entryCount - 1) == (Slot(b.Ring(), ticket) + 1) % b.entryCount
  {
    var k: nat :| b.entryCount == Pow2(k);
    MaskIsModulo(ticket, k);
    MaskIsModulo(Slot(b.Ring(), ticket) + 1, k);
  }

  class CommandQueue {
    const capacity: nat
    var backing: Option<Backing>
    var claim: nat
    var committed: nat
    var retired: nat
    var slotStates: seq<SlotState>

    // The mapped entries, the device's registers, the other calls and the two histories.
    var memory: Memory
    var head: nat
    var tail: nat
    var calls: seq<Submitter>
    var tailWrites: seq<TailWrite>
    var consumed: seq<seq<Byte>>

    ghost var first: Memory
    ghost var trace: seq<Event>

    ghost predicate Active()
      reads this
    {
      backing.Some? && backing.value.Valid() && |slotStates| == capacity && backing.value.entryCount <= capacity
    }

    function Ring(): Ring
      requires backing.Some?
      reads this
    {
      backing.value.Ring()
    }

    function Now(): State
      requires backing.Some? && backing.value.entryCount <= |slotStates|
      reads this
    {
      State(claim, committed, retired, slotStates[..backing.value.entryCount], memory, calls, head, tail,
            tailWrites, consumed)
    }

    /** The object is in a state that a run of the protocol leads to, from the bytes that its
        memory held when it was initialised. */
    ghost predicate Valid()
      reads this
    {
      Active() && Inv(Ring(), Now()) && Reachable(Ring(), first, trace, Now())
    }

    /** Call `me`, submitting `bytes`, is at a stage. */
    ghost predicate At(me: nat, bytes: seq<Byte>, stage: Stage)
      reads this
    {
      Valid() && me < claim && |calls| == claim && calls[me] == Submitter(bytes, stage)
    }

    /** The run goes on: nothing that happened is taken back. */
    twostate predicate GoesOn()
      reads this
    {
      backing == old(backing) && first == old(first) && old(trace) <= trace
    }

    constructor (capacity: nat)
      ensures this.capacity == capacity && backing == None
      ensures |slotStates| == capacity
    {
      this.capacity, this.backing := capacity, None;
      this.claim, this.committed, this.retired := 0, 0, 0;
      this.slotStates := seq(capacity, _ => Empty);
      this.memory, this.head, this.tail, this.calls := [], 0, 0, [];
      this.tailWrites, this.consumed := [], [];
    }

    method ClearSlots(count: nat)
      requires count <= |slotStates|
      modifies this`slotStates
      ensures |slotStates| == old(|slotStates|)
      ensures forall j :: 0 <= j < count ==> slotStates[j] == Empty
    {
      for i := 0 to count
        invariant |slotStates| == old(|slotStates|)
        invariant forall j :: 0 <= j < i ==> slotStates[j] == Empty
      {
        slotStates := slotStates[i := Empty];
      }
    }

    /** `init`: a fresh ring over the backing, whatever its bytes are. The device's registers
        are at 0 when a controller hands its queue over. */
    method Init(backing: Backing, bytes: Memory) returns (r: Result<()>)
      requires backing.Valid() && |slotStates| == capacity
      requires IsMemory(backing.Ring(), bytes)
      modifies this
      ensures r == if backing.entryCount > capacity then Err(InvalidRange) else Ok(())
      ensures r.Err? ==> unchanged(this)
      ensures r.Ok? ==> Valid() && this.backing == Some(backing) && trace == []
      ensures r.Ok? ==> first == bytes && Now() == RingProtocol.Init(backing.Ring(), bytes)
    {
      hide Inv, Reachable, IsPow2;
      if capacity == 0 || backing.entryCount > capacity {
        return Err(InvalidRange);
      }
      this.backing := Some(backing);
      ClearSlots(backing.entryCount);
      Rewind(bytes);
      r := Ok(());
    }

    /** The counters, the device's registers and the histories of a fresh ring. */
    method Rewind(bytes: Memory)
      requires Active() && IsMemory(Ring(), bytes)
      requires forall j :: 0 <= j < backing.value.entryCount ==> slotStates[j] == Empty
      modifies this
      ensures backing == old(backing) && first == bytes && Valid() && trace == []
      ensures Now() == RingProtocol.Init(Ring(), bytes)
    {
      hide Inv, Reachable, IsPow2;
      NothingYet(Ring(), bytes);
      first, trace := bytes, [];
      assert slotStates[..backing.value.entryCount] == RingProtocol.Init(Ring(), bytes).slots;
      claim, committed, retired := 0, 0, 0;
      memory, head, tail, calls, tailWrites, consumed := bytes, 0, 0, [], [], [];
    }

    /** Any events of other calls and of the hardware. */
    method Others(me: nat)
      requires Valid()
      modifies this
      ensures Valid() && GoesOn()
      ensures forall t: nat, bytes, stage :: t == me && old(At(t, bytes, stage)) ==> At(t, bytes, stage)
    {
      var events: nat := *;
      while events > 0
        invariant Valid() && GoesOn()
        invariant forall t: nat, bytes, stage :: t == me && old(At(t, bytes, stage)) ==> At(t, bytes, stage)
        decreases events
      {
        var e: Event := *;
        if Enabled(Ring(), Now(), e) && !ActsFor(e, me) {
          Recorded(Ring(), first, trace, Now(), e);
          ghost var before := Now();
          if me < claim && |calls| == claim {
            OthersKeepCall(Ring(), before, e, me);
          }
          var after := Apply(Ring(), Now(), e);
          Store(after);
          trace := trace + [e];
        }
        events := events - 1;
      }
    }

    /** Writes a state of the protocol to the fields. */
    method Store(s: State)
      requires Active() && |s.slots| == backing.value.entryCount
      modifies this
      ensures Active() && backing == old(backing) && first == old(first) && trace == old(trace)
      ensures Now() == s
    {
      hide IsPow2;
      claim, committed, retired := s.claim, s.committed, s.retired;
      slotStates := s.slots + slotStates[backing.value.entryCount..];
      assert slotStates[..backing.value.entryCount] == s.slots;
      memory, calls, head, tail := s.mem, s.subs, s.head, s.tail;
      tailWrites, consumed := s.tailWrites, s.consumed;
    }

    // One atomic access each.

    /** What the code may rely on before an access of its own. */
    lemma Shape()
      requires Valid()
      ensures WellShaped(Ring(), Now())
    {
      RingRuns.Shape(Ring(), Now());
    }

    /** Records the event that has just been carried out on the fields. */
    ghost method Record(before: State, e: Event)
      requires backing.Some? && backing.value.Valid() && Active()
      requires Inv(Ring(), before) && Reachable(Ring(), first, trace, before) && Enabled(Ring(), before, e)
      requires Now() == Apply(Ring(), before, e)
      modifies this`trace
      ensures Valid() && trace == old(trace) + [e]
    {
      Recorded(Ring(), first, trace, before, e);
      trace := trace + [e];
    }

    /** `claim.fetch_add(1)`. */
    method ClaimTicket(bytes: seq<Byte>) returns (ticket: nat)
      requires Valid() && 0 < |bytes| <= backing.value.entryBytes
      modifies this
      ensures GoesOn() && At(ticket, bytes, AwaitCapacity)
    {
      hide Inv, Reachable;
      Others(claim);
      Shape();
      ghost var before := Now();
      ticket := claim;
      claim := claim + 1;
      calls := calls + [Submitter(bytes, AwaitCapacity)];
      Record(before, Claim(bytes));
    }

    method StoreWriting(me: nat, bytes: seq<Byte>, slot: nat)
      requires At(me, bytes, SawEmpty) && slot == Slot(Ring(), me)
      modifies this
      ensures GoesOn() && At(me, bytes, Filling(0))
    {
      hide Inv, Reachable;
      Others(me);
      Shape();
      ghost var before := Now();
      slotStates := slotStates[slot := Writing];
      calls := calls[me := calls[me].(stage := Filling(0))];
      assert slotStates[..backing.value.entryCount] == before.slots[slot := Writing];
      Record(before, Advance(me));
    }

    /** One byte of `write_slot`. */
    method StoreByte(me: nat, bytes: seq<Byte>, slot: nat, offset: nat)
      requires At(me, bytes, Filling(offset)) && slot == Slot(Ring(), me) && offset < backing.value.entryBytes
      modifies this
      ensures GoesOn() && At(me, bytes, Filling(offset + 1))
    {
      hide Inv, Reachable;
      Others(me);
      Shape();
      ghost var before := Now();
      memory := memory[slot := memory[slot][offset := if offset < |bytes| then bytes[offset] else 0]];
      calls := calls[me := calls[me].(stage := Filling(offset + 1))];
      Record(before, Advance(me));
    }

    method StoreReady(me: nat, bytes: seq<Byte>, slot: nat)
      requires Valid() && At(me, bytes, Filling(backing.value.entryBytes)) && slot == Slot(Ring(), me)
      modifies this
      ensures GoesOn() && At(me, bytes, AwaitTurn)
    {
      hide Inv, Reachable;
      Others(me);
      Shape();
      ghost var before := Now();
      slotStates := slotStates[slot := SlotState.Ready];
      calls := calls[me := calls[me].(stage := AwaitTurn)];
      assert slotStates[..backing.value.entryCount] == before.slots[slot := SlotState.Ready];
      Record(before, Advance(me));
    }

    /** The write of the tail register. */
    method WriteTail(me: nat, bytes: seq<Byte>, slot: nat, value: nat)
      requires At(me, bytes, MyTurn) && slot == Slot(Ring(), me)
      requires value == ((slot + 1) % backing.value.entryCount) * backing.value.entryBytes
      modifies this
      ensures GoesOn() && At(me, bytes, TailWritten)
    {
      hide Inv, Reachable;
      Others(me);
      Shape();
      ghost var before := Now();
      tailWrites := tailWrites + [TailWrite(me, value, memory[slot], |consumed|)];
      tail := value;
      calls := calls[me := calls[me].(stage := TailWritten)];
      Record(before, Advance(me));
    }

    method StorePublished(me: nat, bytes: seq<Byte>, slot: nat)
      requires At(me, bytes, TailWritten) && slot == Slot(Ring(), me)
      modifies this
      ensures GoesOn() && At(me, bytes, Marked)
    {
      hide Inv, Reachable;
      Others(me);
      Shape();
      ghost var before := Now();
      slotStates := slotStates[slot := Published];
      calls := calls[me := calls[me].(stage := Marked)];
      assert slotStates[..backing.value.entryCount] == before.slots[slot := Published];
      Record(before, Advance(me));
    }

    method StoreCommitted(me: nat, bytes: seq<Byte>)
      requires At(me, bytes, Marked)
      modifies this
      ensures GoesOn() && At(me, bytes, AwaitConsumed)
    {
      hide Inv, Reachable;
      Others(me);
      Shape();
      ghost var before := Now();
      committed := me + 1;
      calls := calls[me := calls[me].(stage := AwaitConsumed)];
      Record(before, Advance(me));
    }

    method StoreEmpty(me: nat, bytes: seq<Byte>, slot: nat)
      requires At(me, bytes, Releasing) && slot == Slot(Ring(), me)
      modifies this
      ensures GoesOn() && At(me, bytes, Released)
    {
      hide Inv, Reachable;
      Others(me);
      Shape();
      ghost var before := Now();
      slotStates := slotStates[slot := Empty];
      calls := calls[me := calls[me].(stage := Released)];
      assert slotStates[..backing.value.entryCount] == before.slots[slot := Empty];
      Record(before, Advance(me));
    }

    /** The call's next access succeeds and changes nothing but where the call stands. */
    method Proceed(me: nat, bytes: seq<Byte>, ghost stage: Stage, next: Stage)
      requires At(me, bytes, stage) && WellShaped(Ring(), Now()) && CanAdvance(Ring(), Now(), me)
      requires AdvanceStep(Ring(), Now(), me) == Move(Now(), me, next)
      modifies this
      ensures GoesOn() && At(me, bytes, next)
    {
      hide Inv, Reachable;
      ghost var before := Now();
      calls := calls[me := calls[me].(stage := next)];
      Record(before, Advance(me));
    }

    /** The call gives up. */
    method Abandon(me: nat, bytes: seq<Byte>, stage: Stage, error: Error)
      requires At(me, bytes, stage) && CanGiveUp(stage, error)
      modifies this
      ensures GoesOn() && At(me, bytes, Failed(HeldAt(stage), error))
    {
      hide Inv, Reachable;
      Shape();
      ghost var before := Now();
      calls := calls[me := calls[me].(stage := Failed(HeldAt(stage), error))];
      Record(before, GiveUp(me, error));
    }

    // The methods of the source.

    /** `wait_for_capacity`. */
    method WaitForCapacity(me: nat, bytes: seq<Byte>) returns (r: Result<()>)
      requires At(me, bytes, AwaitCapacity)
      modifies this
      ensures GoesOn()
      ensures r.Ok? ==> At(me, bytes, AwaitEmpty)
      ensures r.Err? ==> At(me, bytes, Failed(Empty, r.error))
    {
      hide Inv, Reachable;
      for k := 0 to POLL_LIMIT
        invariant GoesOn() && At(me, bytes, AwaitCapacity)
      {
        Others(me);
        Shape();
        CapacityNeverWraps(Ring(), Now(), me);
        if me - retired < backing.value.entryCount {
          Proceed(me, bytes, AwaitCapacity, AwaitEmpty);
          return Ok(());
        }
      }
      Abandon(me, bytes, AwaitCapacity, ControllerUnavailable);
      r := Err(ControllerUnavailable);
    }

    /** `wait_for_empty`. */
    method WaitForEmpty(me: nat, bytes: seq<Byte>, slot: nat) returns (r: Result<()>)
      requires At(me, bytes, AwaitEmpty) && slot == Slot(Ring(), me)
      modifies this
      ensures GoesOn()
      ensures r.Ok? ==> At(me, bytes, SawEmpty)
      ensures r.Err? ==> At(me, bytes, Failed(Empty, r.error))
    {
      hide Inv, Reachable;
      for k := 0 to POLL_LIMIT
        invariant GoesOn() && At(me, bytes, AwaitEmpty)
      {
        Others(me);
        Shape();
        if slotStates[slot] == Empty {
          Proceed(me, bytes, AwaitEmpty, SawEmpty);
          return Ok(());
        }
      }
      Abandon(me, bytes, AwaitEmpty, ControllerUnavailable);
      r := Err(ControllerUnavailable);
    }

    /** `write_slot`, byte by byte. */
    method WriteSlot(me: nat, bytes: seq<Byte>, slot: nat)
      requires At(me, bytes, Filling(0)) && slot == Slot(Ring(), me)
      modifies this
      ensures GoesOn() && At(me, bytes, Filling(backing.value.entryBytes))
    {
      hide Inv, Reachable;
      for offset := 0 to backing.value.entryBytes
        invariant GoesOn() && At(me, bytes, Filling(offset))
      {
        StoreByte(me, bytes, slot, offset);
      }
    }

    /** `wait_to_publish`. */
    method WaitToPublish(me: nat, bytes: seq<Byte>) returns (r: Result<()>)
      requires At(me, bytes, AwaitTurn)
      modifies this
      ensures GoesOn()
      ensures r.Ok? ==> At(me, bytes, MyTurn)
      ensures r.Err? ==> At(me, bytes, Failed(SlotState.Ready, r.error))
    {
      hide Inv, Reachable;
      for k := 0 to POLL_LIMIT
        invariant GoesOn() && At(me, bytes, AwaitTurn)
      {
        Others(me);
        Shape();
        if committed == me {
          Proceed(me, bytes, AwaitTurn, MyTurn);
          return Ok(());
        }
      }
      Abandon(me, bytes, AwaitTurn, ControllerUnavailable);
      r := Err(ControllerUnavailable);
    }

    /** `wait_for_consumed`. The read of the head register can fail at any poll. */
    method WaitForConsumed(me: nat, bytes: seq<Byte>, slot: nat) returns (r: Result<()>)
      requires At(me, bytes, AwaitConsumed) && slot == Slot(Ring(), me)
      modifies this
      ensures GoesOn()
      ensures r.Ok? ==> At(me, bytes, Consumed)
      ensures r.Err? ==> At(me, bytes, Failed(Published, r.error))
    {
      hide Inv, Reachable;
      for k := 0 to POLL_LIMIT
        invariant GoesOn() && At(me, bytes, AwaitConsumed)
      {
        Others(me);
        Shape();
        var fault: Option<Error> := *;
        if fault.Some? {
          Abandon(me, bytes, AwaitConsumed, fault.value);
          return Err(fault.value);
        }
        if head / backing.value.entryBytes != slot {
          Proceed(me, bytes, AwaitConsumed, Consumed);
          return Ok(());
        }
      }
      Abandon(me, bytes, AwaitConsumed, ControllerUnavailable);
      r := Err(ControllerUnavailable);
    }

    /** `check_error`: the device may report an error. */
    method CheckError(me: nat, bytes: seq<Byte>) returns (r: Result<()>)
      requires At(me, bytes, Consumed)
      modifies this
      ensures GoesOn()
      ensures r.Ok? ==> At(me, bytes, Releasing)
      ensures r.Err? ==> At(me, bytes, Failed(Published, r.error))
    {
      hide Inv, Reachable;
      Others(me);
      Shape();
      var fault: Option<Error> := *;
      if fault.Some? {
        Abandon(me, bytes, Consumed, fault.value);
        return Err(fault.value);
      }
      Proceed(me, bytes, Consumed, Releasing);
      r := Ok(());
    }

    /** The compare-exchange fails, having observed `retired`. */
    method Lose(me: nat, bytes: seq<Byte>, current: nat)
      requires At(me, bytes, Retiring(current)) && current < me + 1
      modifies this
      ensures GoesOn() && retired == old(retired) && At(me, bytes, Retiring(retired))
    {
      hide Inv, Reachable;
      Shape();
      ghost var before := Now();
      calls := calls[me := calls[me].(stage := Retiring(retired))];
      Record(before, LoseRace(me));
    }

    /** The compare-exchange succeeds. */
    method Win(me: nat, bytes: seq<Byte>, current: nat)
      requires At(me, bytes, Retiring(current)) && current < me + 1 && current == retired
      modifies this
      ensures GoesOn() && At(me, bytes, Done)
    {
      hide Inv, Reachable;
      Shape();
      ghost var before := Now();
      retired := me + 1;
      calls := calls[me := calls[me].(stage := Done)];
      Record(before, Advance(me));
    }

    /** `advance_retired`: a compare-exchange loop, where only finitely many failures are
        spurious. It ends because every other failure observes a larger value. */
    method AdvanceRetired(me: nat, bytes: seq<Byte>)
      requires At(me, bytes, Released)
      modifies this
      ensures GoesOn() && At(me, bytes, Done)
    {
      hide Inv, Reachable;
      Others(me);
      Shape();
      var current, next := retired, me + 1;
      Proceed(me, bytes, Released, Retiring(current));
      var spurious: nat := *;
      while current < next
        invariant GoesOn() && At(me, bytes, Retiring(current))
        decreases next - current, spurious
      {
        Others(me);
        RetiringBehind(Ring(), Now(), me);
        if spurious > 0 && retired == current {
          spurious := spurious - 1;
          Lose(me, bytes, current);
        } else if retired == current {
          Win(me, bytes, current);
          return;
        } else {
          Lose(me, bytes, current);
          current := retired;
        }
      }
      Shape();
      Proceed(me, bytes, Retiring(current), Done);
    }

    /** Everything after the publication of the tail. */
    method Complete(me: nat, bytes: seq<Byte>, slot: nat) returns (r: Result<()>)
      requires At(me, bytes, AwaitConsumed) && slot == Slot(Ring(), me)
      modifies this
      ensures GoesOn()
      ensures r.Ok? ==> At(me, bytes, Done)
      ensures r.Err? ==> At(me, bytes, Failed(Published, r.error))
    {
      hide Inv, Reachable;
      r := WaitForConsumed(me, bytes, slot);
      if r.Err? {
        return;
      }
      r := CheckError(me, bytes);
      if r.Err? {
        return;
      }
      StoreEmpty(me, bytes, slot);
      AdvanceRetired(me, bytes);
    }

    /** The publication of the tail: from the ready slot to the committed ticket. */
    method Publish(me: nat, bytes: seq<Byte>, slot: nat)
      requires At(me, bytes, MyTurn) && slot == Slot(Ring(), me)
      modifies this
      ensures GoesOn() && At(me, bytes, AwaitConsumed)
    {
      hide Inv, Reachable;
      MaskedSlots(backing.value, me);
      WriteTail(me, bytes, slot, BitAnd(slot + 1, backing.value.entryCount - 1) * backing.value.entryBytes);
      StorePublished(me, bytes, slot);
      StoreCommitted(me, bytes);
    }

    /** Everything before the publication of the tail. */
    method Prepare(me: nat, bytes: seq<Byte>, slot: nat) returns (r: Result<()>)
      requires At(me, bytes, AwaitCapacity) && slot == Slot(Ring(), me)
      modifies this
      ensures GoesOn()
      ensures r.Ok? ==> At(me, bytes, MyTurn)
      ensures r.Err? ==> exists held :: At(me, bytes, Failed(held, r.error))
    {
      hide Inv, Reachable, Now;
      r := WaitForCapacity(me, bytes);
      if r.Err? {
        return;
      }
      r := WaitForEmpty(me, bytes, slot);
      if r.Err? {
        return;
      }
      StoreWriting(me, bytes, slot);
      WriteSlot(me, bytes, slot);
      StoreReady(me, bytes, slot);
      r := WaitToPublish(me, bytes);
    }

    /** `submit`. Whatever other calls and the hardware do meanwhile, it is one call of the
        protocol: it returns Ok with its ticket done, or an error with its ticket abandoned,
        and it takes no ticket if it is refused. */
    method Submit(bytes: seq<Byte>) returns (r: Result<()>, ticket: Option<nat>)
      requires backing.Some? ==> Valid()
      modifies this
      ensures ticket.Some? <==> old(backing.Some?) && Accepts(old(backing).value, bytes)
      ensures old(backing).Some? ==>
                (ticket.None? <==> !IsPow2(|bytes|) || |bytes| > old(backing).value.entryBytes)
      ensures ticket.None? ==> unchanged(this)
      ensures ticket.None? ==> r == Err(if old(backing).None? then ControllerUnavailable else InvalidGranule)
      ensures ticket.Some? ==> GoesOn() && Valid()
      ensures ticket.Some? && r.Ok? ==> At(ticket.value, bytes, Done)
      ensures ticket.Some? && r.Err? ==> exists held :: At(ticket.value, bytes, Failed(held, r.error))
    {
      PowerOfTwoIsPow2(|bytes|);
      hide Inv, Reachable, Now, FloorLog2;
      if backing.None? {
        return Err(ControllerUnavailable), None;
      }
      if |bytes| == 0 || !PowerOfTwo(|bytes|) || |bytes| > backing.value.entryBytes {
        return Err(InvalidGranule), None;
      }
      var me := ClaimTicket(bytes);
      ticket := Some(me);
      var slot := BitAnd(me, backing.value.entryCount - 1);
      MaskedSlots(backing.value, me);
      r := Prepare(me, bytes, slot);
      if r.Err? {
        return;
      }
      Publish(me, bytes, slot);
      r := Complete(me, bytes, slot);
    }

    /** What Ok means on the object: the counters are past the ticket, tail write number
        `ticket` was made over the padded descriptor, and if the ring was drained at that
        moment, the hardware has read exactly that descriptor. */
    lemma OkMeans(ticket: nat, bytes: seq<Byte>)
      requires At(ticket, bytes, Done)
      ensures ticket < retired <= committed && ticket < |tailWrites|
      ensures tailWrites[ticket].ticket == ticket
      ensures tailWrites[ticket].content == Pad(bytes, backing.value.entryBytes)
      ensures tailWrites[ticket].consumedBefore == ticket ==>
                ticket < |consumed| && consumed[ticket] == Pad(bytes, backing.value.entryBytes)
    {
      assert Local(Ring(), Now(), ticket);
    }

    /** What an error means on the object: before publication it is ControllerUnavailable and
        the counters have stopped at the ticket; after it the slot stays PUBLISHED. */
    lemma ErrMeans(ticket: nat, bytes: seq<Byte>, held: SlotState, error: Error)
      requires At(ticket, bytes, Failed(held, error))
      ensures held != Writing
      ensures held != Published ==> error == ControllerUnavailable && committed <= ticket && |tailWrites| <= ticket
      ensures held == Published ==> ticket < committed && slotStates[Slot(Ring(), ticket)] == Published
    {
      assert Local(Ring(), Now(), ticket);
    }
  }
}
