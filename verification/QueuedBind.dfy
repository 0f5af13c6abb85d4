/** Rebinding a client through the command ring: the hardware has executed its two invalidations,
    in order. */
module QueuedBind {
  import opened Bits
  import opened RingProtocol
  import opened RingSafety
  import opened RingAlone
  import opened QueuedFlush
  import opened VtdInvalidation
  import Cache = ContextCache

  /** What the hardware does for the descriptors it has read, one after the other. */
  ghost function ExecuteAll(u: Cache.Traits, hw: Cache.Hardware, ds: seq<Descriptor>): Cache.Hardware
    decreases |ds|
  {
    if ds == [] then hw else ExecuteAll(u, Cache.Execute(u, hw, ds[0]), ds[1..])
  }

  lemma SubmittedAreWords(b: Cache.Rebind)
    requires b.Valid()
    ensures forall d :: d in Cache.Submitted(b) ==> IsWord(d.low) && IsWord(d.high)
  {
    assert Cache.Submitted(b)[0].low < TableBytes.U64_LIMIT;
    assert Cache.Submitted(b)[1].low < TableBytes.U64_LIMIT;
  }

  lemma ExecuteSubmitted(b: Cache.Rebind, hw: Cache.Hardware)
    requires b.Valid() && b.source in hw.table
    ensures ExecuteAll(b.unit, hw, Cache.Submitted(b)) == Cache.Access(b, Cache.Access(b, hw, 2), 3)
  {
    var ds := Cache.Submitted(b);
    var first := Cache.Execute(b.unit, hw, ds[0]);
    assert ds[1..] == [ds[1]] && [ds[1]][1..] == [];
    assert first == Cache.Access(b, hw, 2);
    hide Cache.Execute;
    calc {
      ExecuteAll(b.unit, hw, ds);
      ExecuteAll(b.unit, first, [ds[1]]);
      ExecuteAll(b.unit, Cache.Execute(b.unit, first, ds[1]), []);
      Cache.Execute(b.unit, first, ds[1]);
    }
  }

  /** With no other call in flight and everything read before: when both submits of a rebinding
      have returned Ok, the hardware has read exactly its two descriptors, the context one
      first, and executing them has dropped the client's context entries that the first covers
      and the translations with the invalidated tag, and nothing else. */
  lemma RebindThroughRing(c: Ring, s: State, events: seq<Event>, s': State, b: Cache.Rebind, hw: Cache.Hardware)
    requires Inv(c, s) && c.entryBytes >= DESCRIPTOR_BYTES && AllReturned(s) && |s.consumed| == s.claim
    requires b.Valid() && b.source in hw.table
    requires AloneRun(c, s, events, s') && Submits(s', s.claim, Cache.Submitted(b))
    requires s'.subs[s.claim].stage.Done? && s'.subs[s.claim + 1].stage.Done?
    ensures s.consumed <= s'.consumed
    ensures var read := s'.consumed[|s.consumed|..];
            && (forall i :: 0 <= i < |read| ==> |read[i]| == c.entryBytes)
            && DecodeAll(read) == [Cache.ContextDevice(b.source), IotlbDomain(b.tag, b.unit.cap)]
            && ExecuteAll(b.unit, hw, DecodeAll(read)) ==
               Cache.Hardware(
                 hw.table,
                 set e | e in hw.contexts && !(e.source == b.source && Cache.Forgotten(b.unit, e.words)),
                 set t | t in hw.translations && t.Tag() != b.tag)
  {
    hide Inv, AloneRun, AllReturned, DecodeEntry, EncodeDescriptor, Cache.Execute, Cache.Forgotten, Cache.ContextDevice;
    SubmittedAreWords(b);
    ReadsWhatWasSubmitted(c, s, events, s', Cache.Submitted(b));
    ExecuteSubmitted(b, hw);
    Cache.AccessForgets(b, hw);
    Cache.AccessForgets(b, Cache.Access(b, hw, 2));
  }
}
