/** What a planned invalidation removes when its range runs past the 64-bit address space: page
    numbers lose everything above their low 52 bits when they are made addresses. */
module VtdWrappedRange {
  import opened Basics
  import opened Bits
  import opened Errors
  import opened RangePlanner
  import opened VtdInvalidation

  const PAGE_BITS: nat := 52

  /** Cached pages have 52 bits. */
  predicate Addressable(tlb: set<Entry>) {
    forall e :: e in tlb ==> e.page < PAGE_LIMIT
  }

  /** `p` is the low 52 bits of some page of the range. */
  ghost predicate WrapsTo(first: nat, pages: nat, p: nat) {
    exists x :: first <= x < first + pages && x % PAGE_LIMIT == p
  }

  ghost function RemoveWrapped(tlb: set<Entry>, domain: nat, first: nat, pages: nat): set<Entry> {
    set e | e in tlb && !(e.domain == domain && WrapsTo(first, pages, e.page))
  }

  /** A range that ends inside the address space is removed as it is. */
  lemma RealRangeIsItself(tlb: set<Entry>, domain: nat, first: nat, pages: nat)
    requires RealRange(first, pages)
    ensures RemoveWrapped(tlb, domain, first, pages) == RemoveRange(tlb, domain, first, pages)
  {
    forall e | e in tlb
      ensures WrapsTo(first, pages, e.page) <==> first <= e.page < first + pages
    {
      if first <= e.page < first + pages {
        assert e.page % PAGE_LIMIT == e.page;
      }
    }
  }

  lemma PageLimitIsPow2()
    ensures PAGE_LIMIT == Pow2(PAGE_BITS)
  {
    SmallPowers();
    assert Pow2(4) == 16;
    hide Pow2;
    Pow2Add(16, 16);
    Pow2Add(32, 16);
    Pow2Add(48, 4);
  }

  lemma IovaWraps(page: nat)
    ensures BlockIova(page) == BlockIova(page % PAGE_LIMIT)
  {
    var q, r := page / PAGE_LIMIT, page % PAGE_LIMIT;
    assert page * PAGE_BYTES == USIZE_LIMIT * q + r * PAGE_BYTES;
    DivModUnique(page * PAGE_BYTES, USIZE_LIMIT, q, r * PAGE_BYTES);
    DivModUnique(r * PAGE_BYTES, USIZE_LIMIT, 0, r * PAGE_BYTES);
  }

  /** A descriptor applies by the low 52 bits of its block's page. */
  lemma WrappedWordsHit(domain: nat, b: Block, cap: Capability, e: Entry)
    requires domain < DOMAIN_LIMIT && cap.pageSelective && b.mask <= cap.maxAddressMask && b.mask <= 0x3f
    ensures var r := IotlbPageWithMask(domain, BlockIova(b.page), b.mask, cap);
            r.Ok? && (Hits(r.value, e) <==> e.domain == domain && SameBlock(e.page, b.page % PAGE_LIMIT, b.mask))
  {
    IovaWraps(b.page);
    HighWord(b.page % PAGE_LIMIT, b.mask);
    LowWord(3, domain, cap);
  }

  lemma SmallBlockWraps(b: Block, p: nat)
    requires b.Natural() && b.mask <= PAGE_BITS && p < PAGE_LIMIT
    ensures SameBlock(p, b.page % PAGE_LIMIT, b.mask) <==> WrapsTo(b.page, b.Size(), p)
  {
    var q, d, base := b.page % PAGE_LIMIT, b.Size(), b.page - b.page % PAGE_LIMIT;
    RemainderAligned(b);
    SameBlockIsContains(Block(q, b.mask), p);
    hide SameBlock, Pow2, Bits.Aligned;
    if q <= p < q + d {
      SameRemainder(b.page, p);
      assert b.page <= base + p < b.page + d;
    }
    if WrapsTo(b.page, d, p) {
      var x :| b.page <= x < b.page + d && x % PAGE_LIMIT == p;
      SameRemainder(b.page, x - base);
    }
  }

  /** Adding the multiple of `PAGE_LIMIT` below `n` does not change a remainder. */
  lemma SameRemainder(n: nat, r: nat)
    requires r < PAGE_LIMIT
    ensures (n - n % PAGE_LIMIT + r) % PAGE_LIMIT == r
  {
    DivModUnique(n - n % PAGE_LIMIT + r, PAGE_LIMIT, n / PAGE_LIMIT, r);
  }

  /** A multiple of `d`, reduced modulo `d * f`. */
  lemma MultipleRemainder(n: nat, d: nat, f: nat) returns (h: nat)
    requires d > 0 && f > 0 && d * f > 0 && n % d == 0
    ensures n % (d * f) == d * h && h < f
  {
    var g := n / d;
    var a := g / f;
    h := g % f;
    LessTimes(d, h, f);
    Distribute(d, f, a, h);
    DivModUnique(n, d * f, a, d * h);
  }

  lemma Distribute(d: nat, f: nat, a: nat, h: nat)
    ensures d * (f * a + h) == (d * f) * a + d * h
  {
    calc {
      d * (f * a + h);
      d * (f * a) + d * h;
      (d * f) * a + d * h;
    }
  }

  lemma LessTimes(d: nat, h: nat, f: nat)
    requires h < f
    ensures d * h + d <= d * f
  {
    assert d * f == d * h + d * (f - h);
    MultipleBound(d, f - h);
  }

  /** An aligned block no larger than the address space does not cross a multiple of it. */
  lemma RemainderAligned(b: Block)
    requires b.Natural() && b.mask <= PAGE_BITS
    ensures Block(b.page % PAGE_LIMIT, b.mask).Natural()
    ensures b.page % PAGE_LIMIT + b.Size() <= PAGE_LIMIT
  {
    var f := Pow2(PAGE_BITS - b.mask);
    PageLimitIsPow2();
    Pow2Add(b.mask, PAGE_BITS - b.mask);
    AlignedIsMultiple(b.page, b.mask);
    AlignedIsMultiple(b.page % PAGE_LIMIT, b.mask);
    hide Pow2, Bits.Aligned;
    var h := MultipleRemainder(b.page, b.Size(), f);
    LessTimes(b.Size(), h, f);
    DivModUnique(b.page % PAGE_LIMIT, b.Size(), h, 0);
  }

  /** A block at least as large as the address space applies to every page. */
  lemma LargeBlockWraps(b: Block, p: nat)
    requires b.mask >= PAGE_BITS && p < PAGE_LIMIT
    ensures SameBlock(p, b.page % PAGE_LIMIT, b.mask) && WrapsTo(b.page, b.Size(), p)
  {
    PageLimitIsPow2();
    Pow2Mono(PAGE_BITS, b.mask);
    hide Pow2;
    DivModUnique(p, b.Size(), 0, p);
    DivModUnique(b.page % PAGE_LIMIT, b.Size(), 0, b.page % PAGE_LIMIT);
    SameRemainder(b.page, p);
    var base := b.page - b.page % PAGE_LIMIT;
    if base + p < b.page {
      SameRemainder(b.page + PAGE_LIMIT, p);
      DivModUnique(b.page + PAGE_LIMIT, PAGE_LIMIT, b.page / PAGE_LIMIT + 1, b.page % PAGE_LIMIT);
      assert b.page <= base + PAGE_LIMIT + p < b.page + b.Size();
    } else {
      assert b.page <= base + p < b.page + b.Size();
    }
  }

  lemma BlockWraps(b: Block, p: nat)
    requires (b.Natural() || b.mask >= PAGE_BITS) && p < PAGE_LIMIT
    ensures SameBlock(p, b.page % PAGE_LIMIT, b.mask) <==> WrapsTo(b.page, b.Size(), p)
  {
    hide SameBlock, WrapsTo;
    if b.mask >= PAGE_BITS {
      LargeBlockWraps(b, p);
    } else {
      SmallBlockWraps(b, p);
    }
  }

  ghost predicate SomeWraps(bs: seq<Block>, p: nat) {
    exists i :: 0 <= i < |bs| && WrapsTo(bs[i].page, bs[i].Size(), p)
  }

  lemma BlockDescriptorsWrap(domain: nat, bs: seq<Block>, cap: Capability, e: Entry)
    requires domain < DOMAIN_LIMIT && Encodable(bs, cap) && e.page < PAGE_LIMIT
    requires forall i :: 0 <= i < |bs| ==> bs[i].Natural()
    ensures HitBySome(BlockDescriptors(domain, bs, cap), e) <==> e.domain == domain && SomeWraps(bs, e.page)
  {
    hide WrapsTo, SameBlock, Hits, Bits.Aligned;
    var ds := BlockDescriptors(domain, bs, cap);
    forall i | 0 <= i < |bs|
      ensures Hits(ds[i], e) <==> e.domain == domain && WrapsTo(bs[i].page, bs[i].Size(), e.page)
    {
      WrappedWordsHit(domain, bs[i], cap, e);
      BlockWraps(bs[i], e.page);
    }
  }

  /** Tiles wrap to what their range wraps to. */
  lemma TilesWrap(bs: seq<Block>, first: nat, pages: nat, p: nat)
    requires forall x: nat :: first <= x < first + pages <==> Covered(bs, x)
    ensures SomeWraps(bs, p) <==> WrapsTo(first, pages, p)
  {
    if WrapsTo(first, pages, p) {
      var x :| first <= x < first + pages && x % PAGE_LIMIT == p;
      assert Covered(bs, x);
      var i :| 0 <= i < |bs| && bs[i].Contains(x);
      assert WrapsTo(bs[i].page, bs[i].Size(), p);
    }
    if SomeWraps(bs, p) {
      var i :| 0 <= i < |bs| && WrapsTo(bs[i].page, bs[i].Size(), p);
      var x :| bs[i].page <= x < bs[i].page + bs[i].Size() && x % PAGE_LIMIT == p;
      assert bs[i].Contains(x) && Covered(bs, x);
    }
  }

  lemma {:induction false} BlocksEncodable(page: nat, remaining: nat, lo: nat, hi: nat, cap: Capability)
    requires PlanShape(page, remaining, lo, hi) && MaskBound(hi, cap)
    ensures Encodable(Blocks(page, remaining, lo, hi), cap)
    decreases remaining
  {
    if remaining > 0 {
      NextMaskRuns(page, remaining, lo, hi);
      var m := NextMask(page, remaining, lo, hi);
      BlocksEncodable(SaturatingAdd(page, Pow2(m)), remaining - Pow2(m), lo, hi, cap);
    }
  }

  /** The plan of a range below `2^64` pages, as far as the planner is concerned. */
  lemma PlanRemovesWrapped(tlb: set<Entry>, domain: nat, first: nat, pages: nat, lo: nat, hi: nat, cap: Capability)
    requires PlanOk(first, pages, lo, hi) && MaskBound(hi, cap) && domain < DOMAIN_LIMIT && Addressable(tlb)
    ensures var bs := Blocks(first, pages, lo, hi);
            && Encodable(bs, cap)
            && RemoveAll(tlb, BlockDescriptors(domain, bs, cap)) == RemoveWrapped(tlb, domain, first, pages)
  {
    hide Blocks, Tiles, RemoveAll, HitBySome, WrapsTo, SomeWraps, Covered;
    BlocksEncodable(first, pages, lo, hi, cap);
    var bs := Blocks(first, pages, lo, hi);
    BlocksTile(first, pages, lo, hi);
    TilesPartition(bs, first, pages, lo, hi);
    var ds := BlockDescriptors(domain, bs, cap);
    forall i | 0 <= i < |bs|
      ensures bs[i].Natural()
    {
      assert Allowed(bs[i], first, pages, lo, hi);
    }
    forall e | e in tlb
      ensures e in RemoveAll(tlb, ds) <==> e in RemoveWrapped(tlb, domain, first, pages)
    {
      RemoveAllIff(tlb, ds, e);
      BlockDescriptorsWrap(domain, bs, cap, e);
      TilesWrap(bs, first, pages, e.page);
    }
    forall e
      ensures e in RemoveAll(tlb, ds) ==> e in tlb
    {
      RemoveAllIff(tlb, ds, e);
    }
  }

  // Ranges too long for the planner's page numbers.

  lemma {:induction false} BlocksSum(page: nat, remaining: nat, lo: nat, hi: nat)
    requires PlanShape(page, remaining, lo, hi)
    requires forall b :: b in Blocks(page, remaining, lo, hi) ==> b.mask < PAGE_BITS
    ensures remaining <= |Blocks(page, remaining, lo, hi)| * PAGE_LIMIT
    decreases remaining
  {
    if remaining > 0 {
      NextMaskRuns(page, remaining, lo, hi);
      var m := NextMask(page, remaining, lo, hi);
      var rest := Blocks(SaturatingAdd(page, Pow2(m)), remaining - Pow2(m), lo, hi);
      assert Blocks(page, remaining, lo, hi) == [Block(page, m)] + rest;
      assert Block(page, m) in Blocks(page, remaining, lo, hi);
      PageLimitIsPow2();
      Pow2Mono(m, PAGE_BITS);
      BlocksSum(SaturatingAdd(page, Pow2(m)), remaining - Pow2(m), lo, hi);
    }
  }

  /** If 32 blocks suffice for a range whose page numbers overflow, one of them is as large as
      the address space, and the whole domain is removed. */
  lemma LongPlanRemovesWrapped(tlb: set<Entry>, domain: nat, first: nat, pages: nat, lo: nat, hi: nat, cap: Capability)
    requires PlanShape(first, pages, lo, hi) && first < PAGE_LIMIT && first + pages >= USIZE_LIMIT
    requires |Blocks(first, pages, lo, hi)| <= MAX_DESCRIPTORS
    requires MaskBound(hi, cap) && domain < DOMAIN_LIMIT && Addressable(tlb)
    ensures var bs := Blocks(first, pages, lo, hi);
            && Encodable(bs, cap)
            && RemoveAll(tlb, BlockDescriptors(domain, bs, cap)) == RemoveWrapped(tlb, domain, first, pages)
  {
    BlocksEncodable(first, pages, lo, hi, cap);
    var bs := Blocks(first, pages, lo, hi);
    if forall b :: b in bs ==> b.mask < PAGE_BITS {
      BlocksSum(first, pages, lo, hi);
      assert false;
    }
    var b :| b in bs && b.mask >= PAGE_BITS;
    var i :| 0 <= i < |bs| && bs[i] == b;
    hide Blocks, RemoveAll, WrapsTo, SameBlock, Hits, PlanShape;
    var ds := BlockDescriptors(domain, bs, cap);
    forall e | e in tlb
      ensures e in RemoveAll(tlb, ds) <==> e in RemoveWrapped(tlb, domain, first, pages)
    {
      RemoveAllIff(tlb, ds, e);
      WrappedWordsHit(domain, b, cap, e);
      LargeBlockWraps(b, e.page);
      LongRangeWraps(first, pages, e.page);
      OnlyThisDomain(domain, bs, cap, e);
    }
    forall e
      ensures e in RemoveAll(tlb, ds) ==> e in tlb
    {
      RemoveAllIff(tlb, ds, e);
    }
  }

  lemma OnlyThisDomain(domain: nat, bs: seq<Block>, cap: Capability, e: Entry)
    requires domain < DOMAIN_LIMIT && Encodable(bs, cap)
    ensures HitBySome(BlockDescriptors(domain, bs, cap), e) ==> e.domain == domain
  {
    hide SameBlock, Hits;
    forall i | 0 <= i < |bs|
      ensures Hits(BlockDescriptors(domain, bs, cap)[i], e) ==> e.domain == domain
    {
      WrappedWordsHit(domain, bs[i], cap, e);
    }
  }

  lemma LongRangeWraps(first: nat, pages: nat, p: nat)
    requires pages >= PAGE_LIMIT && p < PAGE_LIMIT
    ensures WrapsTo(first, pages, p)
  {
    SameRemainder(first, p);
    SameRemainder(first + PAGE_LIMIT, p);
    DivModUnique(first + PAGE_LIMIT, PAGE_LIMIT, first / PAGE_LIMIT + 1, first % PAGE_LIMIT);
    var base := first - first % PAGE_LIMIT;
    assert (base + p) % PAGE_LIMIT == p && (base + PAGE_LIMIT + p) % PAGE_LIMIT == p;
    assert first <= base + p < first + pages || first <= base + PAGE_LIMIT + p < first + pages;
  }

  /** Any range that at most 32 descriptors are planned for. */
  lemma AnyPlanRemovesWrapped(tlb: set<Entry>, domain: nat, first: nat, pages: nat, lo: nat, hi: nat, cap: Capability)
    requires PlanShape(first, pages, lo, hi) && Bits.Aligned(first, lo) && first < PAGE_LIMIT
    requires |Blocks(first, pages, lo, hi)| <= MAX_DESCRIPTORS
    requires MaskBound(hi, cap) && domain < DOMAIN_LIMIT && Addressable(tlb)
    ensures var bs := Blocks(first, pages, lo, hi);
            && Encodable(bs, cap)
            && RemoveAll(tlb, BlockDescriptors(domain, bs, cap)) == RemoveWrapped(tlb, domain, first, pages)
  {
    hide Blocks, RemoveAll, RemoveWrapped;
    if first + pages < USIZE_LIMIT {
      PlanRemovesWrapped(tlb, domain, first, pages, lo, hi, cap);
    } else {
      LongPlanRemovesWrapped(tlb, domain, first, pages, lo, hi, cap);
    }
  }
}
