/**
 The hardware command ring as a transition system: any number of overlapping
 `submit` calls, one in-order hardware consumer, and bounded waits that may give
 up at any moment. One event is one atomic access of the source.

 A submit is identified by the ticket its `fetch_add` returned, so `subs[t]` is
 the call holding ticket `t`. `tailWrites` and `consumed` are histories: what was
 written to the tail register, and what the consumer has read.
 */
module RingProtocol {
  import opened Bits
  import opened Errors

  datatype Ring = Ring(entries: nat, entryBytes: nat) {
    predicate Valid() { entries > 0 && entryBytes > 0 }
  }

  /** The bytes of the mapped entries. */
  type Memory = seq<seq<Byte>>

  datatype SlotState = Empty | Writing | Ready | Published

  /** Program counter of one submit call, from its ticket to its return. */
  datatype Stage =
    | AwaitCapacity            // polling `retired`
    | AwaitEmpty               // polling the slot state
    | SawEmpty                 // about to store WRITING
    | Filling(next: nat)       // about to write byte `next`, or to store READY
    | AwaitTurn                // polling `committed`
    | MyTurn                   // about to write the tail register
    | TailWritten              // about to store PUBLISHED
    | Marked                   // about to store `committed`
    | AwaitConsumed            // polling the head register
    | Consumed                 // about to check for device errors
    | Releasing                // about to store EMPTY
    | Released                 // about to load `retired`
    | Retiring(current: nat)   // inside the compare-exchange loop
    | Done                     // returned Ok
    | Failed(held: SlotState, error: Error)

  datatype Submitter = Submitter(bytes: seq<Byte>, stage: Stage)

  /** One tail-register write: who wrote, what value, the bytes its slot held at
      that moment, and how many entries the consumer had read by then. */
  datatype TailWrite = TailWrite(ticket: nat, value: nat, content: seq<Byte>, consumedBefore: nat)

  datatype State = State(
    claim: nat,
    committed: nat,
    retired: nat,
    slots: seq<SlotState>,
    mem: Memory,
    subs: seq<Submitter>,
    head: nat,
    tail: nat,
    tailWrites: seq<TailWrite>,
    consumed: seq<seq<Byte>>)

  datatype Event =
    | Claim(bytes: seq<Byte>)
    | Advance(ticket: nat)                // the call's next access succeeds
    | LoseRace(ticket: nat)               // compare_exchange_weak fails
    | GiveUp(ticket: nat, error: Error)   // a bounded wait or the device gives up
    | Consume                             // hardware reads one entry

  function Slot(c: Ring, t: nat): (i: nat)
    requires c.Valid()
    ensures i < c.entries
  {
    t % c.entries
  }

  function Pad(bytes: seq<Byte>, n: nat): (r: seq<Byte>)
    ensures |r| == n
    ensures forall i :: 0 <= i < n ==> r[i] == if i < |bytes| then bytes[i] else 0
  {
    seq(n, i requires 0 <= i < n => if i < |bytes| then bytes[i] else 0)
  }

  /** What the mapped entries hold at first, whatever the bytes are: `init` does not clear them. */
  predicate IsMemory(c: Ring, mem: Memory) {
    c.Valid() && |mem| == c.entries && forall i :: 0 <= i < |mem| ==> |mem[i]| == c.entryBytes
  }

  function Init(c: Ring, mem: Memory): State {
    State(0, 0, 0, seq(c.entries, i => Empty), mem, [], 0, 0, [], [])
  }

  predicate WellShaped(c: Ring, s: State) {
    && c.Valid()
    && |s.slots| == c.entries
    && |s.mem| == c.entries
    && (forall i :: 0 <= i < |s.mem| ==> |s.mem[i]| == c.entryBytes)
    && |s.subs| == s.claim
  }

  /** The poll of `wait_for_capacity`. The source subtracts with wrap-around;
      `CapacityNeverWraps` shows that a waiting ticket is never behind `retired`. */
  predicate HasRoom(c: Ring, s: State, t: nat) {
    s.retired <= t && t - s.retired < c.entries
  }

  /** Whether the next access of the call holding ticket `t` can succeed. */
  predicate CanAdvance(c: Ring, s: State, t: nat)
    requires WellShaped(c, s) && t < s.claim
  {
    match s.subs[t].stage
    case AwaitCapacity => HasRoom(c, s, t)
    case AwaitEmpty => s.slots[Slot(c, t)] == Empty
    case AwaitTurn => s.committed == t
    case AwaitConsumed => s.head / c.entryBytes != Slot(c, t)
    case Retiring(current) => current < t + 1 ==> current == s.retired
    case Done => false
    case Failed(_, _) => false
    case _ => true
  }

  predicate CanGiveUp(stage: Stage, error: Error) {
    || (stage in {AwaitCapacity, AwaitEmpty, AwaitTurn} && error == ControllerUnavailable)
    || stage in {AwaitConsumed, Consumed}
  }

  predicate Enabled(c: Ring, s: State, e: Event) {
    && WellShaped(c, s)
    && match e
       case Claim(bytes) => 0 < |bytes| <= c.entryBytes
       case Advance(t) => t < s.claim && CanAdvance(c, s, t)
       case LoseRace(t) =>
         && t < s.claim && s.subs[t].stage.Retiring?
         && s.subs[t].stage.current < t + 1
       case GiveUp(t, error) => t < s.claim && CanGiveUp(s.subs[t].stage, error)
       case Consume => s.head != s.tail && s.head / c.entryBytes < c.entries
  }

  function Move(s: State, t: nat, stage: Stage): State
    requires t < |s.subs|
  {
    s.(subs := s.subs[t := s.subs[t].(stage := stage)])
  }

  function AdvanceStep(c: Ring, s: State, t: nat): State
    requires WellShaped(c, s) && t < s.claim && CanAdvance(c, s, t)
  {
    var slot := Slot(c, t);
    match s.subs[t].stage
    case AwaitCapacity => Move(s, t, AwaitEmpty)
    case AwaitEmpty => Move(s, t, SawEmpty)
    case SawEmpty => Move(s, t, Filling(0)).(slots := s.slots[slot := Writing])
    case Filling(i) =>
      if i < c.entryBytes then
        var value := if i < |s.subs[t].bytes| then s.subs[t].bytes[i] else 0;
        Move(s, t, Filling(i + 1)).(mem := s.mem[slot := s.mem[slot][i := value]])
      else
        Move(s, t, AwaitTurn).(slots := s.slots[slot := Ready])
    case AwaitTurn => Move(s, t, MyTurn)
    case MyTurn =>
      var value := ((slot + 1) % c.entries) * c.entryBytes;
      Move(s, t, TailWritten).(
        tail := value,
        tailWrites := s.tailWrites + [TailWrite(t, value, s.mem[slot], |s.consumed|)])
    case TailWritten => Move(s, t, Marked).(slots := s.slots[slot := Published])
    case Marked => Move(s, t, AwaitConsumed).(committed := t + 1)
    case AwaitConsumed => Move(s, t, Consumed)
    case Consumed => Move(s, t, Releasing)
    case Releasing => Move(s, t, Released).(slots := s.slots[slot := Empty])
    case Released => Move(s, t, Retiring(s.retired))
    case Retiring(current) =>
      if current < t + 1 then Move(s, t, Done).(retired := t + 1) else Move(s, t, Done)
  }

  /** What a call that gives up leaves behind in its slot. */
  function HeldAt(stage: Stage): SlotState {
    match stage
    case AwaitTurn => Ready
    case AwaitConsumed => Published
    case Consumed => Published
    case _ => Empty
  }

  function Apply(c: Ring, s: State, e: Event): State
    requires Enabled(c, s, e)
  {
    match e
    case Claim(bytes) => s.(claim := s.claim + 1, subs := s.subs + [Submitter(bytes, AwaitCapacity)])
    case Advance(t) => AdvanceStep(c, s, t)
    case LoseRace(t) => Move(s, t, Retiring(s.retired))
    case GiveUp(t, error) => Move(s, t, Failed(HeldAt(s.subs[t].stage), error))
    case Consume =>
      var slot := s.head / c.entryBytes;
      s.(consumed := s.consumed + [s.mem[slot]], head := ((slot + 1) % c.entries) * c.entryBytes)
  }

  /** `events` leads from `s` to `s'`, every event being enabled when it happens. */
  ghost predicate Run(c: Ring, s: State, events: seq<Event>, s': State)
    decreases |events|
  {
    if events == [] then s' == s
    else Enabled(c, s, events[0]) && Run(c, Apply(c, s, events[0]), events[1..], s')
  }
}
