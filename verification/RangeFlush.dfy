/**
 `VtdUnit`'s IOTLB invalidation calls against a hardware cache that may load
 translations at any time.

 `iotlb` is what the hardware has cached, `live` the translations it can load from the
 current page tables, and `issued` the descriptors it has executed. A submission that
 fails may or may not have been executed.
 */
module VtdRangeFlush {
  import opened Basics
  import opened Bits
  import opened Errors
  import opened RangePlanner
  import opened VtdInvalidation
  import opened VtdWrappedRange

  /** `after` is `before` with `ds` executed, plus translations loaded meanwhile. */
  ghost predicate Applied(before: set<Entry>, after: set<Entry>, ds: seq<Descriptor>, live: set<Entry>) {
    RemoveAll(before, ds) <= after <= RemoveAll(before, ds) + live
  }

  /** `after` is `kept` up to freshly loaded translations. */
  ghost predicate UpTo(kept: set<Entry>, after: set<Entry>, live: set<Entry>) {
    kept <= after <= kept + live
  }

  lemma HitByAppend(a: seq<Descriptor>, b: seq<Descriptor>, e: Entry)
    ensures HitBySome(a + b, e) <==> HitBySome(a, e) || HitBySome(b, e)
  {
    var all := a + b;
    if HitBySome(a, e) {
      var i :| 0 <= i < |a| && Hits(a[i], e);
      assert Hits(all[i], e);
    }
    if HitBySome(b, e) {
      var i :| 0 <= i < |b| && Hits(b[i], e);
      assert Hits(all[|a| + i], e);
    }
    if HitBySome(all, e) {
      var i :| 0 <= i < |all| && Hits(all[i], e);
      if i < |a| {
        assert Hits(a[i], e);
      } else {
        assert Hits(b[i - |a|], e);
      }
    }
  }

  lemma AppliedAppend(b: set<Entry>, m: set<Entry>, a: set<Entry>, ds: seq<Descriptor>, ds': seq<Descriptor>, live: set<Entry>)
    requires Applied(b, m, ds, live) && Applied(m, a, ds', live)
    ensures Applied(b, a, ds + ds', live)
  {
    forall e
      ensures e in RemoveAll(b, ds + ds') ==> e in a
      ensures e in a ==> e in RemoveAll(b, ds + ds') || e in live
    {
      HitByAppend(ds, ds', e);
      RemoveAllIff(b, ds, e);
      RemoveAllIff(m, ds', e);
      RemoveAllIff(b, ds + ds', e);
    }
  }

  ghost predicate OnlyDomain(ds: seq<Descriptor>, domain: nat) {
    forall i, e :: 0 <= i < |ds| && Hits(ds[i], e) ==> e.domain == domain
  }

  lemma DomainOnly(domain: nat, cap: Capability)
    requires domain < DOMAIN_LIMIT
    ensures OnlyDomain([IotlbDomain(domain, cap)], domain)
    ensures forall tlb :: RemoveAll(tlb, [IotlbDomain(domain, cap)]) == RemoveDomain(tlb, domain)
  {
    var ds := [IotlbDomain(domain, cap)];
    forall e
      ensures Hits(ds[0], e) <==> e.domain == domain
    {
      DomainDescriptorHits(domain, cap, e);
    }
    forall tlb
      ensures RemoveAll(tlb, ds) == RemoveDomain(tlb, domain)
    {
      assert ds[..0] == [];
    }
  }

  lemma PageOnly(domain: nat, iova: nat, mask: nat, cap: Capability, e: Entry)
    requires domain < DOMAIN_LIMIT
    ensures var r := IotlbPageWithMask(domain, iova, mask, cap);
            r.Ok? && Hits(r.value, e) ==> e.domain == domain
  {
    LowWord(3, domain, cap);
  }

  /** Descriptors of one domain leave every other domain alone. */
  lemma OtherDomainsKept(before: set<Entry>, after: set<Entry>, ds: seq<Descriptor>, live: set<Entry>, domain: nat)
    requires Applied(before, after, ds, live) && OnlyDomain(ds, domain)
    ensures forall e :: e in before && e.domain != domain ==> e in after
  {
    forall e | e in before && e.domain != domain
      ensures e in after
    {
      RemoveAllIff(before, ds, e);
    }
  }

  lemma {:induction false} AlignedMultiple(n: nat, k: nat)
    ensures Bits.Aligned(n * Pow2(k), k)
  {
    AlignedIsMultiple(n * Pow2(k), k);
    DivModUnique(n * Pow2(k), Pow2(k), n, 0);
  }

  function MaxMask(cap: Capability): nat {
    Min(Min(cap.maxAddressMask, 0x3f), USIZE_BITS - 1)
  }

  /** The conditions under which range invalidation goes page by page at all. */
  predicate PageSelectable(cap: Capability, first: nat, mask: nat) {
    cap.pageSelective && mask <= MaxMask(cap) && Bits.Aligned(first, mask)
  }

  /** Range invalidation stays page-selective exactly for these requests. */
  ghost predicate StaysSelective(cap: Capability, first: nat, lo: nat, count: nat) {
    && PageSelectable(cap, first, lo)
    && count * Pow2(lo) < USIZE_LIMIT
    && PlanShape(first, count * Pow2(lo), lo, MaxMask(cap))
    && |Blocks(first, count * Pow2(lo), lo, MaxMask(cap))| <= MAX_DESCRIPTORS
  }

  /** A page-selectable range whose length in pages does not fit in `usize`. */
  predicate TooLong(cap: Capability, first: nat, lo: nat, count: nat) {
    PageSelectable(cap, first, lo) && count * Pow2(lo) >= USIZE_LIMIT
  }

  predicate RangeTooLong(cap: Capability, first: nat, size: PageSize, count: nat) {
    match GranuleMask(size)
    case None => false
    case Some(lo) => count > 0 && TooLong(cap, first, lo, count)
  }

  function RangePages(size: PageSize, count: nat): nat {
    match GranuleMask(size)
    case None => 0
    case Some(lo) => count * Pow2(lo)
  }

  class IotlbUnit {
    const cap: Capability
    ghost const live: set<Entry>
    ghost var iotlb: set<Entry>
    ghost var issued: seq<Descriptor>
    ghost var failed: Option<Error>

    constructor (cap: Capability, ghost iotlb: set<Entry>, ghost live: set<Entry>)
      ensures this.cap == cap && this.iotlb == iotlb && this.live == live && issued == []
    {
      this.cap, this.iotlb, this.live, this.issued, this.failed := cap, iotlb, live, [], None;
    }

    /** The queue: on Ok the descriptor was executed, on Err it may have been, and `failed`
        remembers the error. */
    method Submit(d: Descriptor) returns (r: Result<()>)
      modifies this`iotlb, this`issued, this`failed
      ensures issued == old(issued) + [d] || (r.Err? && issued == old(issued))
      ensures Applied(old(iotlb), iotlb, issued[|old(issued)|..], live)
      ensures r.Err? ==> failed == Some(r.error)
    {
      hide Applied;
      var ok: bool := *;
      var executed: bool := *;
      assert {} <= live;
      ghost var loaded: set<Entry> :| loaded <= live;
      if ok || executed {
        ExecutedOnce(iotlb, d, loaded, live);
        iotlb := Remove(iotlb, d) + loaded;
        issued := issued + [d];
        assert issued[|old(issued)|..] == [d];
      } else {
        NotExecuted(iotlb, loaded, live);
        iotlb := iotlb + loaded;
        assert issued[|old(issued)|..] == [];
      }
      if ok {
        r := Ok(());
      } else {
        var error: Error := *;
        failed := Some(error);
        r := Err(error);
      }
    }

    method InvalidateDomain(domain: nat) returns (r: Result<()>)
      requires domain < DOMAIN_LIMIT
      modifies this`iotlb, this`issued, this`failed
      ensures issued == old(issued) + [IotlbDomain(domain, cap)] || (r.Err? && issued == old(issued))
      ensures Applied(old(iotlb), iotlb, issued[|old(issued)|..], live)
      ensures OnlyDomain(issued[|old(issued)|..], domain)
      ensures r.Ok? ==> UpTo(RemoveDomain(old(iotlb), domain), iotlb, live)
      ensures r.Err? ==> failed == Some(r.error)
    {
      DomainOnly(domain, cap);
      r := Submit(IotlbDomain(domain, cap));
      assert (old(issued) + [IotlbDomain(domain, cap)])[|old(issued)|..] == [IotlbDomain(domain, cap)];
    }

    method InvalidatePage(domain: nat, iova: nat, size: PageSize) returns (r: Result<Scope>)
      requires domain < DOMAIN_LIMIT && cap.Valid() && iova < USIZE_LIMIT
      modifies this`iotlb, this`issued, this`failed
      ensures old(issued) <= issued && |issued| <= |old(issued)| + 1
      ensures Applied(old(iotlb), iotlb, issued[|old(issued)|..], live)
      ensures OnlyDomain(issued[|old(issued)|..], domain)
      ensures r.Ok? ==> r.value == if IotlbPage(domain, iova, size, cap).Ok? then LeafScope else DomainScope
      ensures r == Ok(LeafScope) ==> issued == old(issued) + [IotlbPage(domain, iova, size, cap).value]
      ensures r == Ok(DomainScope) ==> UpTo(RemoveDomain(old(iotlb), domain), iotlb, live)
      ensures r.Err? ==> failed == Some(r.error)
      ensures forall e :: e in old(iotlb) && e.domain != domain ==> e in iotlb
      ensures r.Ok? && size == OtherSize ==> r.value == DomainScope
      ensures forall bytes: nat :: r.Ok? && HasBytes(size, bytes) ==>
                (r.value == LeafScope <==> cap.pageSelective && bytes <= 0x1000 * Pow2(cap.maxAddressMask))
      ensures forall bytes: nat :: r == Ok(LeafScope) && HasBytes(size, bytes) ==>
                UpTo(RemoveBytes(old(iotlb), domain, iova / bytes * bytes, bytes), iotlb, live)
      ensures forall bytes: nat, e :: r.Ok? && HasBytes(size, bytes) && e in iotlb ==>
                InBytes(domain, iova / bytes * bytes, bytes, e) ==> e in live
    {
      PageScope(domain, iova, size, cap);
      hide HasBytes, InBytes, Hits, IotlbPage;
      match IotlbPage(domain, iova, size, cap)
      case Ok(descriptor) =>
        forall e
          ensures Hits(descriptor, e) ==> e.domain == domain
        {
          SizedPageOnly(domain, iova, size, cap, e);
        }
        ghost var before := iotlb;
        var sent := Submit(descriptor);
        assert (old(issued) + [descriptor])[|old(issued)|..] == [descriptor];
        OtherDomainsKept(old(iotlb), iotlb, issued[|old(issued)|..], live, domain);
        if sent.Err? {
          return Err(sent.error);
        }
        PageRemoval(before, domain, iova, size, cap);
        r := Ok(LeafScope);
      case Err(_) =>
        var sent := InvalidateDomain(domain);
        OtherDomainsKept(old(iotlb), iotlb, issued[|old(issued)|..], live, domain);
        if sent.Err? {
          return Err(sent.error);
        }
        r := Ok(DomainScope);
    }

    /** Range invalidation. For every request: at most 32 descriptors, all of this domain. On
        Ok with scope Leaf exactly the range is removed, its pages taken modulo the address
        space, on Ok with scope Domain exactly the domain, in both cases up to freshly loaded
        translations. */
    method InvalidateRange(domain: nat, start: nat, size: PageSize, count: nat) returns (r: Result<Scope>)
      requires domain < DOMAIN_LIMIT && cap.Valid() && start < USIZE_LIMIT && count < USIZE_LIMIT
      modifies this`iotlb, this`issued, this`failed
      ensures old(issued) <= issued && |issued| <= |old(issued)| + MAX_DESCRIPTORS
      ensures Applied(old(iotlb), iotlb, issued[|old(issued)|..], live)
      ensures OnlyDomain(issued[|old(issued)|..], domain)
      ensures count > 0 && r.Ok? ==>
                r.value == if GranuleMask(size).Some? && StaysSelective(cap, start / PAGE_BYTES, GranuleMask(size).value, count)
                           then LeafScope else DomainScope
      ensures count == 0 ==> r == Ok(LeafScope) && issued == old(issued)
      ensures count > 0 && r == Ok(LeafScope) && RealRange(start / PAGE_BYTES, RangePages(size, count)) ==>
                UpTo(RemoveRange(old(iotlb), domain, start / PAGE_BYTES, RangePages(size, count)), iotlb, live)
      ensures count > 0 && r == Ok(LeafScope) && Addressable(old(iotlb)) ==>
                UpTo(RemoveWrapped(old(iotlb), domain, start / PAGE_BYTES, RangePages(size, count)), iotlb, live)
      ensures count > 0 && r.Ok? && size == OtherSize ==> r.value == DomainScope
      ensures forall bytes: nat :: count > 0 && r == Ok(LeafScope) && HasBytes(size, bytes) ==>
                start / 0x1000 * 0x1000 + count * bytes <= 0x1_0000_0000_0000_0000 ==>
                UpTo(RemoveBytes(old(iotlb), domain, start / 0x1000 * 0x1000, count * bytes), iotlb, live)
      ensures forall bytes: nat, e :: count > 0 && r.Ok? && HasBytes(size, bytes) && Addressable(old(iotlb)) && e in iotlb ==>
                InBytes(domain, start / 0x1000 * 0x1000, count * bytes, e) ==> e in live
      ensures r == Ok(DomainScope) ==> UpTo(RemoveDomain(old(iotlb), domain), iotlb, live)
      ensures forall e :: e in old(iotlb) && e.domain != domain ==> e in iotlb
      ensures RangeTooLong(cap, start / PAGE_BYTES, size, count) ==> r == Err(AddressOverflow) && issued == old(issued)
      ensures r.Err? && !RangeTooLong(cap, start / PAGE_BYTES, size, count) ==> failed == Some(r.error)
    {
      if count == 0 {
        assert issued[|old(issued)|..] == [];
        return Ok(LeafScope);
      }
      match GranuleMask(size) {
      case None =>
        r := FallBack(domain);
      case Some(lo) =>
        r := InvalidateGranules(domain, start / PAGE_BYTES, lo, count);
      }
      OtherDomainsKept(old(iotlb), iotlb, issued[|old(issued)|..], live, domain);
      if GranuleMask(size).Some? {
        RangeBytes(old(iotlb), domain, start, size, count);
      }
      SizesOfNone(size);
      hide GranuleMask, RemoveWrapped, HasBytes, StaysSelective, RangeTooLong;
    }

    method InvalidateGranules(domain: nat, first: nat, lo: nat, count: nat) returns (r: Result<Scope>)
      requires domain < DOMAIN_LIMIT && first < PAGE_LIMIT
      modifies this`iotlb, this`issued, this`failed
      ensures old(issued) <= issued && |issued| <= |old(issued)| + MAX_DESCRIPTORS
      ensures Applied(old(iotlb), iotlb, issued[|old(issued)|..], live)
      ensures OnlyDomain(issued[|old(issued)|..], domain)
      ensures r.Ok? ==> r.value == if StaysSelective(cap, first, lo, count) then LeafScope else DomainScope
      ensures r == Ok(LeafScope) && RealRange(first, count * Pow2(lo)) ==>
                UpTo(RemoveRange(old(iotlb), domain, first, count * Pow2(lo)), iotlb, live)
      ensures r == Ok(LeafScope) && Addressable(old(iotlb)) ==>
                UpTo(RemoveWrapped(old(iotlb), domain, first, count * Pow2(lo)), iotlb, live)
      ensures r == Ok(DomainScope) ==> UpTo(RemoveDomain(old(iotlb), domain), iotlb, live)
      ensures TooLong(cap, first, lo, count) ==> r == Err(AddressOverflow) && issued == old(issued)
      ensures r.Err? && !TooLong(cap, first, lo, count) ==> failed == Some(r.error)
    {
      var hi := MaxMask(cap);
      MaskTestsAlignment(first, lo);
      if !cap.pageSelective || hi < lo || BitAnd(first, Pow2(lo) - 1) != 0 {
        r := FallBack(domain);
        return;
      }
      var total := count * Pow2(lo);
      if total >= USIZE_LIMIT {
        assert issued[|old(issued)|..] == [];
        return Err(AddressOverflow);
      }
      AlignedMultiple(count, lo);
      r := InvalidateBlocks(domain, first, total, lo, hi);
    }

    method InvalidateBlocks(domain: nat, first: nat, total: nat, lo: nat, hi: nat) returns (r: Result<Scope>)
      requires domain < DOMAIN_LIMIT && first < PAGE_LIMIT && total < USIZE_LIMIT
      requires cap.pageSelective && lo <= hi == MaxMask(cap) && Bits.Aligned(first, lo) && Bits.Aligned(total, lo)
      modifies this`iotlb, this`issued, this`failed
      ensures old(issued) <= issued && |issued| <= |old(issued)| + MAX_DESCRIPTORS
      ensures Applied(old(iotlb), iotlb, issued[|old(issued)|..], live)
      ensures OnlyDomain(issued[|old(issued)|..], domain)
      ensures PlanShape(first, total, lo, hi)
      ensures r.Ok? ==> r.value == if |Blocks(first, total, lo, hi)| <= MAX_DESCRIPTORS then LeafScope else DomainScope
      ensures r == Ok(LeafScope) && RealRange(first, total) ==>
                UpTo(RemoveRange(old(iotlb), domain, first, total), iotlb, live)
      ensures r == Ok(LeafScope) && Addressable(old(iotlb)) ==>
                UpTo(RemoveWrapped(old(iotlb), domain, first, total), iotlb, live)
      ensures r == Ok(DomainScope) ==> UpTo(RemoveDomain(old(iotlb), domain), iotlb, live)
      ensures r.Err? ==> failed == Some(r.error)
    {
      var plan := NewPlan(first, total, lo, hi);
      var needed := plan.value.DescriptorCount();
      if needed > MAX_DESCRIPTORS {
        r := FallBack(domain);
      } else {
        r := Emit(domain, plan.value);
        if r.Ok? && RealRange(first, total) {
          PlanRemovesExactly(old(iotlb), domain, first, total, lo, hi, cap);
        }
        if r.Ok? && Addressable(old(iotlb)) {
          AnyPlanRemovesWrapped(old(iotlb), domain, first, total, lo, hi, cap);
        }
      }
    }

    method FallBack(domain: nat) returns (r: Result<Scope>)
      requires domain < DOMAIN_LIMIT
      modifies this`iotlb, this`issued, this`failed
      ensures old(issued) <= issued && |issued| <= |old(issued)| + 1
      ensures Applied(old(iotlb), iotlb, issued[|old(issued)|..], live)
      ensures OnlyDomain(issued[|old(issued)|..], domain)
      ensures r.Ok? ==> r.value == DomainScope && UpTo(RemoveDomain(old(iotlb), domain), iotlb, live)
      ensures r.Err? ==> failed == Some(r.error)
    {
      var sent := InvalidateDomain(domain);
      r := if sent.Ok? then Ok(DomainScope) else Err(sent.error);
    }

    /** Issues block `i` of `blocks`, the earlier ones having been executed since the cache
        was `start` and the log had `n` descriptors. */
    method SubmitBlock(domain: nat, block: Block, ghost blocks: seq<Block>, ghost i: nat, ghost start: set<Entry>, ghost n: nat)
      returns (r: Result<()>)
      requires Encodable(blocks, cap) && i < |blocks| && block == blocks[i]
      requires n <= |issued| && issued[n..] == BlockDescriptors(domain, blocks[..i], cap)
      requires Applied(start, iotlb, issued[n..], live)
      modifies this`iotlb, this`issued, this`failed
      ensures old(issued) <= issued
      ensures issued[n..] == BlockDescriptors(domain, blocks[..i + 1], cap)
              || (r.Err? && issued[n..] == BlockDescriptors(domain, blocks[..i], cap))
      ensures Applied(start, iotlb, issued[n..], live)
      ensures r.Err? ==> failed == Some(r.error)
    {
      var iova := BlockIova(block.page);
      var descriptor := IotlbPageWithMask(domain, iova, block.mask, cap);
      r := Submit(descriptor.value);
      BlockDescriptorsSnoc(domain, blocks, i, cap);
      assert issued[n..] == old(issued)[n..] + issued[|old(issued)|..];
      AppliedAppend(start, old(iotlb), iotlb, old(issued)[n..], issued[|old(issued)|..], live);
    }

    /** Issues the blocks of a plan one by one; on Ok all of them were executed in order. */
    method Emit(domain: nat, cursor: RangePlan) returns (r: Result<Scope>)
      requires domain < DOMAIN_LIMIT && cursor.Valid()
      requires cursor.maxMask == MaxMask(cap) && cap.pageSelective
      modifies this`iotlb, this`issued, this`failed, cursor
      ensures Encodable(old(cursor.Rest()), cap)
      ensures old(issued) <= issued && |issued| <= |old(issued)| + |old(cursor.Rest())|
      ensures Applied(old(iotlb), iotlb, issued[|old(issued)|..], live)
      ensures OnlyDomain(issued[|old(issued)|..], domain)
      ensures r.Ok? ==> r.value == LeafScope
                        && issued[|old(issued)|..] == BlockDescriptors(domain, old(cursor.Rest()), cap)
      ensures r.Err? ==> failed == Some(r.error)
    {
      ghost var blocks, n, i := cursor.Rest(), |issued|, 0;
      BlocksEncodable(cursor.nextPage, cursor.remainingPages, cursor.minMask, cursor.maxMask, cap);
      assert issued[n..] == [] == BlockDescriptors(domain, blocks[..0], cap);
      var block := cursor.NextBlock();
      while block.Some?
        invariant cursor.Valid()
        invariant 0 <= i <= |blocks|
        invariant if block.Some? then i < |blocks| && block.value == blocks[i] && cursor.Rest() == blocks[i + 1..] else i == |blocks|
        invariant old(issued) <= issued && issued[n..] == BlockDescriptors(domain, blocks[..i], cap)
        invariant Applied(old(iotlb), iotlb, issued[n..], live)
        decreases |blocks| - i
      {
        var sent := SubmitBlock(domain, block.value, blocks, i, old(iotlb), n);
        if sent.Err? {
          PrefixesOnly(domain, blocks, i, cap);
          return Err(sent.error);
        }
        i := i + 1;
        block := cursor.NextBlock();
      }
      assert blocks[..i] == blocks;
      DescriptorsOnly(domain, blocks, cap);
      r := Ok(LeafScope);
    }

    /** The default range flush: one 4 KiB page at each step of a page size of `stride` bytes,
        ignoring the results. `allDone` reports whether every page was done as a page. */
    method FlushPageByPage(domain: nat, start: nat, stride: nat, count: nat) returns (allDone: bool)
      requires domain < DOMAIN_LIMIT && cap.Valid() && start < USIZE_LIMIT
      modifies this`iotlb, this`issued, this`failed
      ensures old(issued) <= issued && Applied(old(iotlb), iotlb, issued[|old(issued)|..], live)
      ensures OnlyDomain(issued[|old(issued)|..], domain)
      ensures forall e :: e in old(iotlb) && e.domain != domain ==> e in iotlb
      ensures allDone && cap.pageSelective ==>
                UpTo(RemoveSteps(old(iotlb), domain, start, stride, count), iotlb, live)
      ensures allDone && cap.pageSelective && stride == PAGE_BYTES ==>
                var first := start / PAGE_BYTES;
                UpTo(RemoveRange(old(iotlb), domain, first, InSpace(first, count)), iotlb, live)
    {
      hide RemoveAll, RemoveSteps, Hits, StepPage;
      var base := start;
      allDone := true;
      ghost var n := |issued|;
      assert issued[n..] == [];
      assert cap.pageSelective ==> Encodable(SteppedPages(start, stride, count), cap);
      NotExecuted(iotlb, {}, live);
      assert iotlb + {} == iotlb;
      for i := 0 to count
        invariant base == Min(start + i * stride, USIZE_LIMIT - 1)
        invariant old(issued) <= issued && Applied(old(iotlb), iotlb, issued[n..], live)
        invariant OnlyDomain(issued[n..], domain)
        invariant allDone && cap.pageSelective ==>
                    issued[n..] == BlockDescriptors(domain, SteppedPages(start, stride, count), cap)[..i]
      {
        ghost var before, sentBefore := iotlb, issued;
        var r := InvalidatePage(domain, base, Size4K);
        allDone := allDone && r.Ok?;
        AppliedAppend(old(iotlb), before, iotlb, sentBefore[n..], issued[|sentBefore|..], live);
        assert issued[n..] == sentBefore[n..] + issued[|sentBefore|..];
        if allDone && cap.pageSelective {
          StepDescriptor(domain, start, stride, i, cap);
          var ds := BlockDescriptors(domain, SteppedPages(start, stride, count), cap);
          assert ds[..i + 1] == ds[..i] + [ds[i]];
        }
        NextStep(start, stride, i);
        base := SaturatingAdd(base, stride);
      }
      OtherDomainsKept(old(iotlb), iotlb, issued[n..], live, domain);
      if allDone && cap.pageSelective {
        var ds := BlockDescriptors(domain, SteppedPages(start, stride, count), cap);
        assert ds[..count] == ds;
        PageLoopRemovesExactly(old(iotlb), domain, start, stride, count, cap);
        SinglePagesRemoveTheRange(old(iotlb), domain, start, count);
      }
    }
  }

  /** Which sizes a page invalidation takes. */
  lemma PageScope(domain: nat, iova: nat, size: PageSize, cap: Capability)
    requires domain < DOMAIN_LIMIT && iova < USIZE_LIMIT && cap.Valid()
    ensures size == OtherSize ==> IotlbPage(domain, iova, size, cap).Err?
    ensures forall bytes: nat :: HasBytes(size, bytes) ==>
              (IotlbPage(domain, iova, size, cap).Ok? <==> cap.pageSelective && bytes <= 0x1000 * Pow2(cap.maxAddressMask))
  {
    forall bytes: nat | HasBytes(size, bytes)
      ensures IotlbPage(domain, iova, size, cap).Ok? <==> cap.pageSelective && bytes <= 0x1000 * Pow2(cap.maxAddressMask)
    {
      PageBytesHit(domain, iova, size, bytes, cap, Entry(0, 0, 0));
    }
  }

  lemma SizedPageOnly(domain: nat, iova: nat, size: PageSize, cap: Capability, e: Entry)
    requires domain < DOMAIN_LIMIT && IotlbPage(domain, iova, size, cap).Ok?
    ensures Hits(IotlbPage(domain, iova, size, cap).value, e) ==> e.domain == domain
  {
    PageOnly(domain, iova, GranuleMask(size).value, cap, e);
  }

  lemma PageRemoval(tlb: set<Entry>, domain: nat, iova: nat, size: PageSize, cap: Capability)
    requires domain < DOMAIN_LIMIT && iova < USIZE_LIMIT && cap.Valid() && IotlbPage(domain, iova, size, cap).Ok?
    ensures forall bytes: nat :: HasBytes(size, bytes) ==>
              RemoveAll(tlb, [IotlbPage(domain, iova, size, cap).value]) ==
              RemoveBytes(tlb, domain, iova / bytes * bytes, bytes)
  {
    var ds := [IotlbPage(domain, iova, size, cap).value];
    forall bytes: nat | HasBytes(size, bytes)
      ensures RemoveAll(tlb, ds) == RemoveBytes(tlb, domain, iova / bytes * bytes, bytes)
    {
      forall e
        ensures Hits(ds[0], e) <==> InBytes(domain, iova / bytes * bytes, bytes, e)
      {
        PageBytesHit(domain, iova, size, bytes, cap, e);
      }
      hide Hits, InBytes, HasBytes;
      assert ds[..0] == [];
    }
  }

  lemma SizesOfNone(size: PageSize)
    ensures size == OtherSize <==> GranuleMask(size).None?
    ensures forall bytes: nat :: HasBytes(size, bytes) ==> size != OtherSize
  {
  }

  /** The pages of a range in bytes: exact if the range ends inside the address space, and in
      any case everything in it is removed. */
  lemma RangeBytes(tlb: set<Entry>, domain: nat, start: nat, size: PageSize, count: nat)
    requires start < USIZE_LIMIT && GranuleMask(size).Some?
    ensures var first, pages := start / PAGE_BYTES, RangePages(size, count);
            forall bytes: nat :: HasBytes(size, bytes) ==>
              && (start / 0x1000 * 0x1000 + count * bytes <= 0x1_0000_0000_0000_0000 ==>
                    && RealRange(first, pages)
                    && RemoveRange(tlb, domain, first, pages) ==
                       RemoveBytes(tlb, domain, start / 0x1000 * 0x1000, count * bytes))
              && (forall e :: e in RemoveWrapped(tlb, domain, first, pages) && Addressable(tlb) ==>
                    !InBytes(domain, start / 0x1000 * 0x1000, count * bytes, e))
  {
    var first, pages := start / PAGE_BYTES, RangePages(size, count);
    forall bytes: nat | HasBytes(size, bytes)
      ensures pages * 0x1000 == count * bytes
    {
      GranuleBytes(size, bytes);
      assert count * (0x1000 * Pow2(GranuleMask(size).value)) == 0x1000 * (count * Pow2(GranuleMask(size).value));
    }
    RangeInBytes(tlb, domain, first, pages);
    forall e | e in tlb && Addressable(tlb) && InBytes(domain, first * 0x1000, pages * 0x1000, e)
      ensures WrapsTo(first, pages, e.page)
    {
      assert first <= e.page < first + pages && e.page % PAGE_LIMIT == e.page;
    }
  }

  lemma NotExecuted(tlb: set<Entry>, loaded: set<Entry>, live: set<Entry>)
    requires loaded <= live
    ensures Applied(tlb, tlb + loaded, [], live)
  {
  }

  lemma ExecutedOnce(tlb: set<Entry>, d: Descriptor, loaded: set<Entry>, live: set<Entry>)
    requires loaded <= live
    ensures Applied(tlb, Remove(tlb, d) + loaded, [d], live)
  {
    assert [d][..0] == [];
  }

  /** The saturating addition goes from one step to the next. */
  lemma NextStep(start: nat, stride: nat, i: nat)
    ensures SaturatingAdd(Min(start + i * stride, USIZE_LIMIT - 1), stride)
         == Min(start + (i + 1) * stride, USIZE_LIMIT - 1)
  {
    assert (i + 1) * stride == i * stride + stride;
  }

  /** Flushing the address of a step issues the descriptor of its page. */
  lemma StepDescriptor(domain: nat, start: nat, stride: nat, i: nat, cap: Capability)
    ensures IotlbPage(domain, Min(start + i * stride, USIZE_LIMIT - 1), Size4K, cap)
         == IotlbPageWithMask(domain, BlockIova(StepPage(start, stride, i)), 0, cap)
  {
    HighWord(StepPage(start, stride, i), 0);
  }

  lemma DescriptorsOnly(domain: nat, bs: seq<Block>, cap: Capability)
    requires domain < DOMAIN_LIMIT && Encodable(bs, cap)
    ensures OnlyDomain(BlockDescriptors(domain, bs, cap), domain)
  {
    forall i, e | 0 <= i < |bs| && Hits(BlockDescriptors(domain, bs, cap)[i], e)
      ensures e.domain == domain
    {
      PageOnly(domain, BlockIova(bs[i].page), bs[i].mask, cap, e);
    }
  }

  lemma BlockDescriptorsSnoc(domain: nat, bs: seq<Block>, i: nat, cap: Capability)
    requires i < |bs| && Encodable(bs, cap)
    ensures BlockDescriptors(domain, bs[..i + 1], cap)
         == BlockDescriptors(domain, bs[..i], cap) + BlockDescriptors(domain, [bs[i]], cap)
  {
  }

  lemma PrefixesOnly(domain: nat, bs: seq<Block>, i: nat, cap: Capability)
    requires domain < DOMAIN_LIMIT && i < |bs| && Encodable(bs, cap)
    ensures OnlyDomain(BlockDescriptors(domain, bs[..i], cap), domain)
    ensures OnlyDomain(BlockDescriptors(domain, bs[..i + 1], cap), domain)
  {
    DescriptorsOnly(domain, bs[..i], cap);
    DescriptorsOnly(domain, bs[..i + 1], cap);
  }

  /** Some set of at most 32 allowed blocks covers the range. */
  ghost predicate SmallCover(first: nat, pages: nat, lo: nat, hi: nat) {
    exists cover: set<Block> ::
      && |cover| <= 32
      && (forall b :: b in cover ==> Allowed(b, first, pages, lo, hi))
      && CoversRange(cover, first, pages)
  }

  lemma {:induction false} ElementCount(bs: seq<Block>) returns (all: set<Block>)
    ensures |all| <= |bs| && forall b :: b in all <==> b in bs
    decreases |bs|
  {
    all := {};
    if bs != [] {
      var rest := ElementCount(bs[1..]);
      all := {bs[0]} + rest;
    }
  }

  /** The choice of the scope without the planner: a range that exists is invalidated page by page
      if and only if pages can be selected and at most 32 allowed blocks can cover it. */
  lemma SelectiveIffSmallCover(cap: Capability, first: nat, lo: nat, count: nat)
    requires RealRange(first, count * Pow2(lo))
    ensures StaysSelective(cap, first, lo, count) <==>
            PageSelectable(cap, first, lo) && SmallCover(first, count * Pow2(lo), lo, MaxMask(cap))
  {
    hide Blocks, SmallCover, Bits.Aligned, Pow2, MaxMask;
    if PageSelectable(cap, first, lo) {
      AlignedMultiple(count, lo);
      SmallCoverIffFewBlocks(first, count * Pow2(lo), lo, MaxMask(cap));
    }
  }

  /** The same in bytes, for each size: the hardware can select pages of this size, the range
      starts at a multiple of it, and at most 32 blocks cover the range, none smaller than a page
      of this size nor larger than the capability allows. */
  lemma SelectiveInBytes(cap: Capability, start: nat, size: PageSize, bytes: nat, count: nat)
    requires cap.Valid() && start < USIZE_LIMIT && HasBytes(size, bytes)
    requires start / 0x1000 * 0x1000 + count * bytes <= 0x1_0000_0000_0000_0000
    ensures GranuleMask(size).Some? &&
            var lo := GranuleMask(size).value;
            && bytes == 0x1000 * Pow2(lo)
            && (StaysSelective(cap, start / PAGE_BYTES, lo, count) <==>
                && cap.pageSelective && bytes <= 0x1000 * Pow2(cap.maxAddressMask)
                && start / 0x1000 * 0x1000 % bytes == 0
                && SmallCover(start / 0x1000, count * Pow2(lo), lo, cap.maxAddressMask))
  {
    GranuleBytes(size, bytes);
    hide SmallCover, StaysSelective, Bits.Aligned, Pow2, GranuleMask, HasBytes;
    var lo, first := GranuleMask(size).value, start / PAGE_BYTES;
    assert count * bytes == 0x1000 * (count * Pow2(lo));
    SelectiveIffSmallCover(cap, first, lo, count);
    MaskOrder(lo, cap.maxAddressMask);
    AlignedIsMultiple(first, lo);
    ScaledMultiple(first, Pow2(lo));
  }

  lemma ScaledMultiple(n: nat, d: nat)
    requires d > 0
    ensures (n * 0x1000) % (0x1000 * d) == 0 <==> n % d == 0
  {
    var q, r := n / d, n % d;
    assert n == d * q + r;
    assert n * 0x1000 == (0x1000 * d) * q + 0x1000 * r;
    DivModUnique(n * 0x1000, 0x1000 * d, q, 0x1000 * r);
  }

  lemma SmallCoverIffFewBlocks(first: nat, pages: nat, lo: nat, hi: nat)
    requires PlanOk(first, pages, lo, hi)
    ensures |Blocks(first, pages, lo, hi)| <= MAX_DESCRIPTORS <==> SmallCover(first, pages, lo, hi)
  {
    var all := CoverOfBlocks(first, pages, lo, hi);
    hide Blocks, CoversRange, Allowed;
    if cover: set<Block> :| |cover| <= MAX_DESCRIPTORS && (forall b :: b in cover ==> Allowed(b, first, pages, lo, hi))
                            && CoversRange(cover, first, pages) {
      GreedyIsMinimal(first, pages, lo, hi, cover);
    }
  }

  lemma CoverOfBlocks(first: nat, pages: nat, lo: nat, hi: nat) returns (all: set<Block>)
    requires PlanOk(first, pages, lo, hi)
    ensures |all| <= |Blocks(first, pages, lo, hi)| && CoversRange(all, first, pages)
    ensures forall b :: b in all ==> Allowed(b, first, pages, lo, hi)
  {
    var bs := Blocks(first, pages, lo, hi);
    BlocksTile(first, pages, lo, hi);
    TilesPartition(bs, first, pages, lo, hi);
    all := ElementCount(bs);
    forall x: nat | first <= x < first + pages
      ensures InSome(all, x)
    {
      assert Covered(bs, x);
      var i :| 0 <= i < |bs| && bs[i].Contains(x);
      assert bs[i] in all;
    }
  }
}
