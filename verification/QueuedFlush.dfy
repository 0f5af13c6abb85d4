/** Range invalidation through the command ring: what the hardware has executed follows from what
    the ring makes it read. */
module QueuedFlush {
  import opened Bits
  import opened RingProtocol
  import opened RingSafety
  import opened RingTheorems
  import opened RingAlone
  import opened RangePlanner
  import opened VtdInvalidation
  import TableBytes

  const DESCRIPTOR_BYTES: nat := 16

  predicate IsWord(n: nat) { n < TableBytes.U64_LIMIT }

  /** The bytes `submit_to` hands to the queue. */
  function EncodeDescriptor(d: Descriptor): (b: seq<Byte>)
    ensures |b| == DESCRIPTOR_BYTES
  {
    TableBytes.Encode(d.low, 8) + TableBytes.Encode(d.high, 8)
  }

  /** The hardware's reading of a ring entry. */
  function DecodeEntry(b: seq<Byte>): Descriptor
    requires |b| >= DESCRIPTOR_BYTES
  {
    Descriptor(TableBytes.Little(b[0..8]), TableBytes.Little(b[8..16]))
  }

  lemma DecodePadded(d: Descriptor, n: nat)
    requires IsWord(d.low) && IsWord(d.high) && n >= DESCRIPTOR_BYTES
    ensures DecodeEntry(Pad(EncodeDescriptor(d), n)) == d
    ensures var b := Pad(EncodeDescriptor(d), n);
            && TableBytes.Little(b[0..8]) == d.low && TableBytes.Little(b[8..16]) == d.high
            && forall i :: 16 <= i < n ==> b[i] == 0
  {
    TableBytes.Powers();
    var b := Pad(EncodeDescriptor(d), n);
    assert b[0..8] == TableBytes.Encode(d.low, 8);
    assert b[8..16] == TableBytes.Encode(d.high, 8);
    TableBytes.LittleEncode(d.low, 8);
    TableBytes.LittleEncode(d.high, 8);
  }

  function DecodeAll(entries: seq<seq<Byte>>): (ds: seq<Descriptor>)
    requires forall i :: 0 <= i < |entries| ==> |entries[i]| >= DESCRIPTOR_BYTES
    ensures |ds| == |entries|
    ensures forall i :: 0 <= i < |ds| ==> ds[i] == DecodeEntry(entries[i])
  {
    seq(|entries|, i requires 0 <= i < |entries| => DecodeEntry(entries[i]))
  }

  lemma BlockDescriptorsAreWords(domain: nat, bs: seq<Block>, cap: Capability, i: nat)
    requires domain < DOMAIN_LIMIT && Encodable(bs, cap) && i < |bs|
    ensures IsWord(BlockDescriptors(domain, bs, cap)[i].low) && IsWord(BlockDescriptors(domain, bs, cap)[i].high)
  {
    var iova := BlockIova(bs[i].page);
    assert iova / PAGE_BYTES * PAGE_BYTES <= (USIZE_LIMIT - 1) / PAGE_BYTES * PAGE_BYTES;
  }

  /** The calls from `first` on submitted these descriptors. */
  predicate Submits(s: State, first: nat, ds: seq<Descriptor>) {
    && |s.subs| == first + |ds|
    && forall i :: 0 <= i < |ds| ==> s.subs[first + i].bytes == EncodeDescriptor(ds[i])
  }

  /** With no other call in flight and everything read before: when the submits of a list of
      descriptors have all returned Ok, the hardware has read exactly those, in order. */
  lemma ReadsWhatWasSubmitted(c: Ring, s: State, events: seq<Event>, s': State, ds: seq<Descriptor>)
    requires Inv(c, s) && c.entryBytes >= DESCRIPTOR_BYTES && AllReturned(s) && |s.consumed| == s.claim
    requires AloneRun(c, s, events, s') && Submits(s', s.claim, ds)
    requires forall t :: s.claim <= t < |s'.subs| ==> s'.subs[t].stage.Done?
    requires forall i :: 0 <= i < |ds| ==> IsWord(ds[i].low) && IsWord(ds[i].high)
    ensures s.consumed <= s'.consumed
    ensures var read := s'.consumed[|s.consumed|..];
            (forall i :: 0 <= i < |read| ==> |read[i]| == c.entryBytes) && DecodeAll(read) == ds
  {
    hide Inv, AloneRun, DecodeEntry, EncodeDescriptor, AllReturned;
    FifoFrom(c, s, events, s');
    var subs := s'.subs[s.claim..];
    assert s'.consumed[|s.consumed|..] == Submitted(c, subs);
    forall i | 0 <= i < |ds|
      ensures DecodeEntry(Submitted(c, subs)[i]) == ds[i]
    {
      DecodePadded(ds[i], c.entryBytes);
      assert subs[i] == s'.subs[s.claim + i];
    }
  }

  /** So the planned submits of a range invalidation, one at a time on a drained ring and all
      Ok, have made the hardware remove exactly the range from what it had cached. */
  lemma PlannedFlushThroughRing(c: Ring, s: State, events: seq<Event>, s': State, tlb: set<Entry>, domain: nat,
                                first: nat, pages: nat, lo: nat, hi: nat, cap: Capability)
    requires Inv(c, s) && c.entryBytes >= DESCRIPTOR_BYTES && AllReturned(s) && |s.consumed| == s.claim
    requires PlanOk(first, pages, lo, hi) && RealRange(first, pages) && MaskBound(hi, cap) && domain < DOMAIN_LIMIT
    requires Encodable(Blocks(first, pages, lo, hi), cap)
    requires AloneRun(c, s, events, s')
    requires Submits(s', s.claim, BlockDescriptors(domain, Blocks(first, pages, lo, hi), cap))
    requires forall t :: s.claim <= t < |s'.subs| ==> s'.subs[t].stage.Done?
    ensures s.consumed <= s'.consumed
    ensures var read := s'.consumed[|s.consumed|..];
            (forall i :: 0 <= i < |read| ==> |read[i]| == c.entryBytes)
            && RemoveAll(tlb, DecodeAll(read)) == RemoveRange(tlb, domain, first, pages)
  {
    hide Blocks, Inv, AloneRun, RemoveAll;
    var bs := Blocks(first, pages, lo, hi);
    var ds := BlockDescriptors(domain, bs, cap);
    forall i | 0 <= i < |ds|
      ensures IsWord(ds[i].low) && IsWord(ds[i].high)
    {
      BlockDescriptorsAreWords(domain, bs, cap, i);
    }
    ReadsWhatWasSubmitted(c, s, events, s', ds);
    PlanRemovesExactly(tlb, domain, first, pages, lo, hi, cap);
  }

  /** Such a run is there for any list of descriptors. */
  lemma SubmitsComplete(c: Ring, mem: Memory, ds: seq<Descriptor>) returns (events: seq<Event>, s: State)
    requires IsMemory(c, mem) && c.entries >= 2 && c.entryBytes >= DESCRIPTOR_BYTES
    ensures Inv(c, Init(c, mem)) && AllReturned(Init(c, mem)) && AloneRun(c, Init(c, mem), events, s)
    ensures Submits(s, 0, ds) && forall t :: 0 <= t < |s.subs| ==> s.subs[t].stage.Done?
  {
    InitInv(c, mem);
    events, s := EveryListCompletes(c, mem, seq(|ds|, i requires 0 <= i < |ds| => EncodeDescriptor(ds[i])));
  }
}
