/**
 Queued IOTLB invalidation: descriptor words, what the hardware removes for them,
 and range invalidation against flushing page by page.

 The source joins bit fields with `|`; the fields are disjoint, so words are sums here.
 */
module VtdInvalidation {
  import opened Basics
  import opened Bits
  import opened Errors
  import opened RangePlanner

  const PAGE_BYTES: nat := 0x1000
  const PAGE_LIMIT: nat := 0x10_0000_0000_0000
  const DOMAIN_LIMIT: nat := 0x1_0000
  const MAX_DESCRIPTORS: nat := 32

  datatype PageSize = Size4K | Size2M | Size1G | OtherSize

  datatype Scope = GlobalScope | DomainScope | LeafScope

  datatype Capability = Capability(pageSelective: bool, maxAddressMask: nat, readDraining: bool, writeDraining: bool) {
    predicate Valid() { maxAddressMask < 64 }
  }

  datatype Descriptor = Descriptor(low: nat, high: nat)

  /** One cached translation. */
  datatype Entry = Entry(domain: nat, page: nat, frame: nat)

  function DrainBits(cap: Capability): nat {
    (if cap.readDraining then 0x80 else 0) + (if cap.writeDraining then 0x40 else 0)
  }

  function IotlbDomain(domain: nat, cap: Capability): Descriptor {
    Descriptor(0x2 + 0x20 + DrainBits(cap) + domain * 0x1_0000, 0)
  }

  function IotlbPageWithMask(domain: nat, iova: nat, mask: nat, cap: Capability): Result<Descriptor> {
    if !cap.pageSelective || mask > cap.maxAddressMask || mask > 0x3f then Err(FeatureUnavailable)
    else Ok(Descriptor(0x2 + 0x30 + DrainBits(cap) + domain * 0x1_0000, iova / PAGE_BYTES * PAGE_BYTES + mask))
  }

  function GranuleMask(size: PageSize): Option<nat> {
    match size
    case Size4K => Some(0)
    case Size2M => Some(9)
    case Size1G => Some(18)
    case OtherSize => None
  }

  function IotlbPage(domain: nat, iova: nat, size: PageSize, cap: Capability): Result<Descriptor> {
    match GranuleMask(size)
    case None => Err(FeatureUnavailable)
    case Some(mask) =>
      if cap.pageSelective && cap.maxAddressMask >= mask then IotlbPageWithMask(domain, iova, mask, cap)
      else Err(FeatureUnavailable)
  }

  // The hardware's reading of a descriptor.

  predicate SameBlock(p: nat, q: nat, mask: nat) {
    p / Pow2(mask) == q / Pow2(mask)
  }

  /** Does an invalidation descriptor apply to a cached translation? */
  predicate Hits(d: Descriptor, e: Entry) {
    var granularity := d.low / 0x10 % 4;
    var domain := d.low / 0x1_0000 % 0x1_0000;
    && d.low % 0x10 == 2
    && (granularity == 1
        || (granularity == 2 && e.domain == domain)
        || (granularity == 3 && e.domain == domain && SameBlock(e.page, d.high / PAGE_BYTES, d.high % 0x40)))
  }

  function Remove(tlb: set<Entry>, d: Descriptor): set<Entry> {
    set e | e in tlb && !Hits(d, e)
  }

  function RemoveAll(tlb: set<Entry>, ds: seq<Descriptor>): set<Entry> {
    if ds == [] then tlb else Remove(RemoveAll(tlb, ds[..|ds| - 1]), ds[|ds| - 1])
  }

  ghost predicate HitBySome(ds: seq<Descriptor>, e: Entry) {
    exists i :: 0 <= i < |ds| && Hits(ds[i], e)
  }

  lemma {:induction false} RemoveAllIff(tlb: set<Entry>, ds: seq<Descriptor>, e: Entry)
    ensures e in RemoveAll(tlb, ds) <==> e in tlb && !HitBySome(ds, e)
    decreases |ds|
  {
    if ds != [] {
      var init := ds[..|ds| - 1];
      RemoveAllIff(tlb, init, e);
      assert HitBySome(ds, e) <==> HitBySome(init, e) || Hits(ds[|ds| - 1], e) by {
        if HitBySome(init, e) {
          var i :| 0 <= i < |init| && Hits(init[i], e);
          assert Hits(ds[i], e);
        }
        if HitBySome(ds, e) && !Hits(ds[|ds| - 1], e) {
          var i :| 0 <= i < |ds| && Hits(ds[i], e);
          assert Hits(init[i], e);
        }
      }
    }
  }

  lemma LowWord(granularity: nat, domain: nat, cap: Capability)
    requires granularity < 4 && domain < DOMAIN_LIMIT
    ensures var low := 0x2 + granularity * 0x10 + DrainBits(cap) + domain * 0x1_0000;
            && low % 0x10 == 2
            && low / 0x10 % 4 == granularity
            && low / 0x1_0000 % 0x1_0000 == domain
  {
    var k := (if cap.readDraining then 2 else 0) + (if cap.writeDraining then 1 else 0);
    var low := 0x2 + granularity * 0x10 + DrainBits(cap) + domain * 0x1_0000;
    assert DrainBits(cap) == 0x40 * k;
    var q := granularity + 4 * (k + 0x400 * domain);
    DivModUnique(low, 0x10, q, 2);
    DivModUnique(q, 4, k + 0x400 * domain, granularity);
    DivModUnique(low, 0x1_0000, domain, 0x2 + granularity * 0x10 + DrainBits(cap));
  }

  lemma DomainDescriptorHits(domain: nat, cap: Capability, e: Entry)
    requires domain < DOMAIN_LIMIT
    ensures Hits(IotlbDomain(domain, cap), e) <==> e.domain == domain
  {
    LowWord(2, domain, cap);
  }

  /** Bit 7 of a descriptor asks for reads to be drained and bit 6 for writes, as the hardware can. */
  lemma DescriptorDrains(granularity: nat, domain: nat, cap: Capability)
    requires granularity < 4 && domain < DOMAIN_LIMIT
    ensures var low := 0x2 + granularity * 0x10 + DrainBits(cap) + domain * 0x1_0000;
            && (low / 0x80 % 2 == 1 <==> cap.readDraining)
            && (low / 0x40 % 2 == 1 <==> cap.writeDraining)
  {
    var r, w := if cap.readDraining then 1 else 0, if cap.writeDraining then 1 else 0;
    var low := 0x2 + granularity * 0x10 + DrainBits(cap) + domain * 0x1_0000;
    DivModUnique(low, 0x80, r + 0x200 * domain, 0x2 + granularity * 0x10 + 0x40 * w);
    DivModUnique(r + 0x200 * domain, 2, 0x100 * domain, r);
    DivModUnique(low, 0x40, w + 2 * r + 0x400 * domain, 0x2 + granularity * 0x10);
    DivModUnique(w + 2 * r + 0x400 * domain, 2, r + 0x200 * domain, w);
  }

  lemma SameBlockIsContains(b: Block, p: nat)
    requires b.Natural()
    ensures SameBlock(p, b.page, b.mask) <==> b.Contains(p)
  {
    var d := b.Size();
    AlignedIsMultiple(b.page, b.mask);
    var q, q' := b.page / d, p / d;
    assert b.page == d * q && p == d * q' + p % d;
    assert d * (q' - q) == d * q' - d * q;
    MultipleBound(d, q' - q);
  }

  function BlockIova(page: nat): nat {
    (page * PAGE_BYTES) % USIZE_LIMIT
  }

  lemma HighWord(page: nat, mask: nat)
    requires page < PAGE_LIMIT && mask <= 0x3f
    ensures BlockIova(page) == page * PAGE_BYTES && BlockIova(page) / PAGE_BYTES == page
    ensures (page * PAGE_BYTES + mask) / PAGE_BYTES == page
    ensures (page * PAGE_BYTES + mask) % 0x40 == mask
  {
    DivModUnique(page * PAGE_BYTES, USIZE_LIMIT, 0, page * PAGE_BYTES);
    DivModUnique(page * PAGE_BYTES, PAGE_BYTES, page, 0);
    DivModUnique(page * PAGE_BYTES + mask, PAGE_BYTES, page, mask);
    DivModUnique(page * PAGE_BYTES + mask, 0x40, page * 0x40, mask);
  }

  /** A page descriptor applies exactly to its block, as long as the block's address fits
      in 64 bits. */
  lemma PageDescriptorHits(domain: nat, b: Block, cap: Capability, e: Entry)
    requires domain < DOMAIN_LIMIT && b.page < PAGE_LIMIT && b.Natural()
    requires cap.pageSelective && b.mask <= cap.maxAddressMask && b.mask <= 0x3f
    ensures var r := IotlbPageWithMask(domain, BlockIova(b.page), b.mask, cap);
            r.Ok? && (Hits(r.value, e) <==> e.domain == domain && b.Contains(e.page))
  {
    HighWord(b.page, b.mask);
    var d := IotlbPageWithMask(domain, BlockIova(b.page), b.mask, cap).value;
    assert d.high == b.page * PAGE_BYTES + b.mask;
    assert Hits(d, e) <==> e.domain == domain && SameBlock(e.page, b.page, b.mask) by {
      LowWord(3, domain, cap);
    }
    SameBlockIsContains(b, e.page);
  }

  /** The shift to an address drops the top bits without reporting it: the descriptor names
      its block exactly when the page number is below `2^52`. */
  lemma BlockAddressExact(page: nat)
    requires page < USIZE_LIMIT
    ensures BlockIova(page) / PAGE_BYTES == page <==> page < PAGE_LIMIT
  {
    if page < PAGE_LIMIT {
      HighWord(page, 0);
    }
  }

  // What a range invalidation removes.

  predicate InRange(domain: nat, first: nat, pages: nat, e: Entry) {
    e.domain == domain && first <= e.page < first + pages
  }

  function RemoveRange(tlb: set<Entry>, domain: nat, first: nat, pages: nat): set<Entry> {
    set e | e in tlb && !InRange(domain, first, pages, e)
  }

  function RemoveDomain(tlb: set<Entry>, domain: nat): set<Entry> {
    set e | e in tlb && e.domain != domain
  }

  /** How many bytes a page of this size has, for the sizes that can be invalidated as pages. */
  predicate HasBytes(size: PageSize, bytes: nat) {
    || (size == Size4K && bytes == 0x1000)
    || (size == Size2M && bytes == 0x20_0000)
    || (size == Size1G && bytes == 0x4000_0000)
  }

  /** A granule mask counts 4 KiB pages of exactly that many bytes. */
  lemma GranuleBytes(size: PageSize, bytes: nat)
    ensures HasBytes(size, bytes) <==>
            GranuleMask(size).Some? && bytes == 0x1000 * Pow2(GranuleMask(size).value)
  {
    assert Pow2(5) == 32 && Pow2(4) == 16;
    Pow2Add(5, 4);
    Pow2Add(9, 9);
  }

  /** The entry's page lies in `[start, start + length)`. */
  predicate InBytes(domain: nat, start: nat, length: nat, e: Entry) {
    e.domain == domain && start <= e.page * 0x1000 < start + length
  }

  ghost function RemoveBytes(tlb: set<Entry>, domain: nat, start: nat, length: nat): set<Entry> {
    set e | e in tlb && !InBytes(domain, start, length, e)
  }

  /** What a page descriptor applies to: the page of its size that holds the address. */
  lemma PageBytesHit(domain: nat, iova: nat, size: PageSize, bytes: nat, cap: Capability, e: Entry)
    requires domain < DOMAIN_LIMIT && iova < USIZE_LIMIT && HasBytes(size, bytes) && cap.Valid()
    ensures var r := IotlbPage(domain, iova, size, cap);
            && (r.Ok? <==> cap.pageSelective && bytes <= 0x1000 * Pow2(cap.maxAddressMask))
            && (r.Ok? ==> (Hits(r.value, e) <==> InBytes(domain, iova / bytes * bytes, bytes, e)))
  {
    GranuleBytes(size, bytes);
    var mask := GranuleMask(size).value;
    MaskOrder(mask, cap.maxAddressMask);
    var page := iova / PAGE_BYTES;
    HighWord(page, mask);
    LowWord(3, domain, cap);
    DivTwice(iova, Pow2(mask));
    SameBlockInBytes(e.page, page, mask, iova / bytes);
  }

  lemma MaskOrder(a: nat, b: nat)
    ensures a <= b <==> Pow2(a) <= Pow2(b)
  {
    if a <= b {
      Pow2Mono(a, b);
    } else {
      Pow2Mono(b, a);
    }
  }

  lemma DivTwice(n: nat, d: nat)
    requires d > 0
    ensures n / PAGE_BYTES / d == n / (0x1000 * d)
  {
    var q, r := n / PAGE_BYTES, n % PAGE_BYTES;
    var q', r' := q / d, q % d;
    assert q == d * q' + r' && n == PAGE_BYTES * q + r;
    assert n == (0x1000 * d) * q' + (0x1000 * r' + r);
    DivModUnique(n, 0x1000 * d, q', 0x1000 * r' + r);
  }

  lemma QuotientIs(p: nat, d: nat, k: nat)
    requires d > 0
    ensures p / d == k <==> d * k <= p < d * k + d
  {
    if d * k <= p < d * k + d {
      DivModUnique(p, d, k, p - d * k);
    }
  }

  lemma SameBlockInBytes(p: nat, q: nat, mask: nat, k: nat)
    requires k == q / Pow2(mask)
    ensures var bytes := 0x1000 * Pow2(mask);
            SameBlock(p, q, mask) <==> k * bytes <= p * 0x1000 < k * bytes + bytes
  {
    var d := Pow2(mask);
    QuotientIs(p, d, k);
    hide Pow2;
    assert k * (0x1000 * d) == 0x1000 * (d * k);
  }

  /** Pages from a page-aligned address on, as bytes. */
  lemma RangeInBytes(tlb: set<Entry>, domain: nat, first: nat, pages: nat)
    ensures RemoveRange(tlb, domain, first, pages) == RemoveBytes(tlb, domain, first * 0x1000, pages * 0x1000)
  {
  }

  predicate Encodable(bs: seq<Block>, cap: Capability) {
    && cap.pageSelective
    && forall i :: 0 <= i < |bs| ==> bs[i].mask <= cap.maxAddressMask && bs[i].mask <= 0x3f
  }

  function BlockDescriptors(domain: nat, bs: seq<Block>, cap: Capability): (ds: seq<Descriptor>)
    requires Encodable(bs, cap)
    ensures |ds| == |bs|
    ensures forall i :: 0 <= i < |bs| ==>
              Ok(ds[i]) == IotlbPageWithMask(domain, BlockIova(bs[i].page), bs[i].mask, cap)
  {
    seq(|bs|, i requires 0 <= i < |bs| =>
      IotlbPageWithMask(domain, BlockIova(bs[i].page), bs[i].mask, cap).value)
  }

  lemma BlockDescriptorsHit(domain: nat, bs: seq<Block>, cap: Capability, e: Entry)
    requires domain < DOMAIN_LIMIT && Encodable(bs, cap)
    requires forall i :: 0 <= i < |bs| ==> bs[i].page < PAGE_LIMIT && bs[i].Natural()
    ensures HitBySome(BlockDescriptors(domain, bs, cap), e) <==> e.domain == domain && Covered(bs, e.page)
  {
    var ds := BlockDescriptors(domain, bs, cap);
    forall i | 0 <= i < |bs|
      ensures Hits(ds[i], e) <==> e.domain == domain && bs[i].Contains(e.page)
    {
      PageDescriptorHits(domain, bs[i], cap, e);
    }
  }

  /** A range of IOVA pages that exists: it ends inside the 64-bit address space. */
  predicate RealRange(first: nat, pages: nat) {
    first + pages <= PAGE_LIMIT
  }

  /** The masks a plan may use under a capability. */
  predicate MaskBound(hi: nat, cap: Capability) {
    cap.pageSelective && hi <= cap.maxAddressMask && hi <= 0x3f
  }

  /** The planned descriptors remove exactly the range, nothing else of this domain and
      nothing of any other. */
  lemma PlanRemovesExactly(tlb: set<Entry>, domain: nat, first: nat, pages: nat, lo: nat, hi: nat, cap: Capability)
    requires PlanOk(first, pages, lo, hi) && RealRange(first, pages) && MaskBound(hi, cap)
    requires domain < DOMAIN_LIMIT
    ensures var bs := Blocks(first, pages, lo, hi);
            Encodable(bs, cap) && RemoveAll(tlb, BlockDescriptors(domain, bs, cap)) == RemoveRange(tlb, domain, first, pages)
  {
    hide Blocks, Tiles, RemoveAll, HitBySome;
    var bs := Blocks(first, pages, lo, hi);
    BlocksTile(first, pages, lo, hi);
    TilesPartition(bs, first, pages, lo, hi);
    var ds := BlockDescriptors(domain, bs, cap);
    forall i | 0 <= i < |bs|
      ensures bs[i].page < PAGE_LIMIT && bs[i].Natural()
    {
      assert Allowed(bs[i], first, pages, lo, hi);
    }
    forall e
      ensures e in RemoveAll(tlb, ds) <==> e in RemoveRange(tlb, domain, first, pages)
    {
      RemoveAllIff(tlb, ds, e);
      BlockDescriptorsHit(domain, bs, cap, e);
    }
  }

  /** The page flushed at step `i` of the default `flush_iotlb_range`: its addresses stop at the
      end of the 64-bit address space. */
  function StepPage(start: nat, stride: nat, i: nat): (page: nat)
    ensures page < PAGE_LIMIT
  {
    Min(start + i * stride, USIZE_LIMIT - 1) / PAGE_BYTES
  }

  /** One 4 KiB page at each step. */
  function SteppedPages(start: nat, stride: nat, count: nat): (bs: seq<Block>)
    ensures |bs| == count
    ensures forall i :: 0 <= i < count ==> bs[i] == Block(StepPage(start, stride, i), 0)
  {
    seq(count, i requires 0 <= i < count => Block(StepPage(start, stride, i), 0))
  }

  ghost predicate AtStep(start: nat, stride: nat, count: nat, x: nat) {
    exists i :: 0 <= i < count && x == StepPage(start, stride, i)
  }

  ghost function RemoveSteps(tlb: set<Entry>, domain: nat, start: nat, stride: nat, count: nat): set<Entry> {
    set e | e in tlb && !(e.domain == domain && AtStep(start, stride, count, e.page))
  }

  lemma SteppedCover(start: nat, stride: nat, count: nat, x: nat)
    ensures Covered(SteppedPages(start, stride, count), x) <==> AtStep(start, stride, count, x)
  {
    hide StepPage;
    var bs := SteppedPages(start, stride, count);
    if AtStep(start, stride, count, x) {
      var i :| 0 <= i < count && x == StepPage(start, stride, i);
      assert bs[i].Contains(x);
    }
    if Covered(bs, x) {
      var i :| 0 <= i < |bs| && bs[i].Contains(x);
      assert x == StepPage(start, stride, i);
    }
  }

  lemma SinglePage(start: nat, i: nat)
    requires start < USIZE_LIMIT
    ensures StepPage(start, PAGE_BYTES, i) == Min(start / PAGE_BYTES + i, PAGE_LIMIT - 1)
  {
    if start + i * PAGE_BYTES < USIZE_LIMIT {
      DivModUnique(start + i * PAGE_BYTES, PAGE_BYTES, start / PAGE_BYTES + i, start % PAGE_BYTES);
    }
  }

  /** The part of a range of 4 KiB pages that lies inside the address space. */
  function InSpace(first: nat, count: nat): nat
    requires first < PAGE_LIMIT
  {
    Min(count, PAGE_LIMIT - first)
  }

  /** With 4 KiB pages the steps are that part of the range. */
  lemma SinglePagesAreTheRange(start: nat, count: nat, x: nat)
    requires start < USIZE_LIMIT
    ensures var first := start / PAGE_BYTES;
            AtStep(start, PAGE_BYTES, count, x) <==> first <= x < first + InSpace(first, count)
  {
    hide StepPage;
    var first := start / PAGE_BYTES;
    if first <= x < first + InSpace(first, count) {
      SinglePage(start, x - first);
    }
    if AtStep(start, PAGE_BYTES, count, x) {
      var i :| 0 <= i < count && x == StepPage(start, PAGE_BYTES, i);
      SinglePage(start, i);
    }
  }

  /** The loop's descriptors remove exactly the 4 KiB page of each step, for any start, page size
      and count. */
  lemma PageLoopRemovesExactly(tlb: set<Entry>, domain: nat, start: nat, stride: nat, count: nat, cap: Capability)
    requires cap.pageSelective && domain < DOMAIN_LIMIT
    ensures var bs := SteppedPages(start, stride, count);
            Encodable(bs, cap)
            && RemoveAll(tlb, BlockDescriptors(domain, bs, cap)) == RemoveSteps(tlb, domain, start, stride, count)
  {
    hide RemoveAll, HitBySome, Covered, AtStep, StepPage;
    var bs := SteppedPages(start, stride, count);
    var ds := BlockDescriptors(domain, bs, cap);
    forall e
      ensures e in RemoveAll(tlb, ds) <==> e in RemoveSteps(tlb, domain, start, stride, count)
    {
      RemoveAllIff(tlb, ds, e);
      BlockDescriptorsHit(domain, bs, cap, e);
      SteppedCover(start, stride, count, e.page);
    }
  }

  /** With 4 KiB pages it removes the range, up to the end of the address space. */
  lemma SinglePagesRemoveTheRange(tlb: set<Entry>, domain: nat, start: nat, count: nat)
    requires start < USIZE_LIMIT
    ensures var first := start / PAGE_BYTES;
            RemoveSteps(tlb, domain, start, PAGE_BYTES, count) == RemoveRange(tlb, domain, first, InSpace(first, count))
  {
    hide AtStep, InSpace;
    var first := start / PAGE_BYTES;
    forall e
      ensures e in RemoveSteps(tlb, domain, start, PAGE_BYTES, count)
         <==> e in RemoveRange(tlb, domain, first, InSpace(first, count))
    {
      SinglePagesAreTheRange(start, count, e.page);
    }
  }

  /** The plan refines the simple page-by-page loop. */
  lemma PlanRefinesPageLoop(tlb: set<Entry>, domain: nat, first: nat, pages: nat, lo: nat, hi: nat, cap: Capability)
    requires PlanOk(first, pages, lo, hi) && RealRange(first, pages) && MaskBound(hi, cap)
    requires domain < DOMAIN_LIMIT
    ensures var planned, single := Blocks(first, pages, lo, hi), SteppedPages(first * PAGE_BYTES, PAGE_BYTES, pages);
            && Encodable(planned, cap) && Encodable(single, cap)
            && RemoveAll(tlb, BlockDescriptors(domain, planned, cap)) == RemoveAll(tlb, BlockDescriptors(domain, single, cap))
            && |planned| <= |single|
  {
    PlanRemovesExactly(tlb, domain, first, pages, lo, hi, cap);
    PageLoopRemovesExactly(tlb, domain, first * PAGE_BYTES, PAGE_BYTES, pages, cap);
    if pages > 0 {
      DivModUnique(first * PAGE_BYTES, PAGE_BYTES, first, 0);
      SinglePagesRemoveTheRange(tlb, domain, first * PAGE_BYTES, pages);
    }
    BlocksAtMostPages(first, pages, lo, hi);
  }

  lemma {:induction false} BlocksAtMostPages(page: nat, remaining: nat, lo: nat, hi: nat)
    requires PlanShape(page, remaining, lo, hi)
    ensures |Blocks(page, remaining, lo, hi)| <= remaining
    decreases remaining
  {
    if remaining > 0 {
      NextMaskRuns(page, remaining, lo, hi);
      var m := NextMask(page, remaining, lo, hi);
      BlocksAtMostPages(SaturatingAdd(page, Pow2(m)), remaining - Pow2(m), lo, hi);
    }
  }
}
