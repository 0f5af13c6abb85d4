/**
 The IOTLB range planner: a page range is cut greedily into naturally aligned
 power-of-two blocks whose address masks lie between two bounds.
 */
module RangePlanner {
  import opened Basics
  import opened Bits
  import opened Errors

  datatype Block = Block(page: nat, mask: nat) {
    function Size(): nat { Pow2(mask) }
    function End(): nat { page + Size() }
    predicate Contains(x: nat) { page <= x < End() }
    predicate Natural() { Bits.Aligned(page, mask) }
  }

  function AlignmentMask(page: nat): nat {
    if page == 0 then USIZE_BITS - 1 else Min(TrailingZeros(page), USIZE_BITS - 1)
  }

  /** The greedy choice, with the source's clamps in the source's order. */
  function NextMask(page: nat, remaining: nat, lo: nat, hi: nat): nat
    requires remaining > 0
  {
    Max(Min(Min(FloorLog2(remaining), AlignmentMask(page)), hi), lo)
  }

  function SaturatingAdd(a: nat, b: nat): (r: nat) {
    Min(a + b, USIZE_LIMIT - 1)
  }

  /** What `VtdIotlbRangePlan::new` establishes and `next_block` keeps on any input. */
  predicate PlanShape(page: nat, remaining: nat, lo: nat, hi: nat) {
    lo <= hi && page < USIZE_LIMIT && remaining < USIZE_LIMIT && Bits.Aligned(remaining, lo)
  }

  /** A plan whose range is aligned at both ends and stays inside `usize`. */
  predicate PlanOk(page: nat, remaining: nat, lo: nat, hi: nat) {
    && lo <= hi
    && page + remaining < USIZE_LIMIT
    && Bits.Aligned(page, lo)
    && Bits.Aligned(remaining, lo)
  }

  /** A block the invalidation hardware may be given for this range. */
  predicate Allowed(b: Block, page: nat, remaining: nat, lo: nat, hi: nat) {
    && b.Natural()
    && lo <= b.mask <= hi
    && page <= b.page && b.End() <= page + remaining
  }

  lemma MaskBounds(page: nat, remaining: nat, lo: nat, hi: nat)
    requires PlanOk(page, remaining, lo, hi) && remaining > 0
    ensures lo <= FloorLog2(remaining) < USIZE_BITS
    ensures lo <= AlignmentMask(page)
  {
    AlignedAtLeast(remaining, lo);
    Pow2Order(lo, FloorLog2(remaining));
    UsizeLimitIsPow2();
    Pow2Order(FloorLog2(remaining), USIZE_BITS - 1);
    if page > 0 {
      AlignedIffTrailing(page, lo);
    }
  }

  lemma {:induction false} AlignedZero(k: nat)
    ensures Bits.Aligned(0, k)
  {
    if k > 0 {
      AlignedZero(k - 1);
      AlignedHalf(0, k);
    }
  }

  lemma AlignmentMaskAligns(page: nat, k: nat)
    requires k <= AlignmentMask(page)
    ensures Bits.Aligned(page, k)
  {
    if page > 0 {
      AlignedIffTrailing(page, k);
    } else {
      AlignedZero(k);
    }
  }

  /** The chosen mask is in bounds without the final clamp raising it, the block is aligned
      and fits, and what is left is again a plan. */
  lemma NextMaskFits(page: nat, remaining: nat, lo: nat, hi: nat)
    requires PlanOk(page, remaining, lo, hi) && remaining > 0
    ensures var m := NextMask(page, remaining, lo, hi);
            && lo <= m <= hi
            && m == Min(Min(FloorLog2(remaining), AlignmentMask(page)), hi)
            && Pow2(m) <= remaining
            && Bits.Aligned(page, m)
            && PlanOk(page + Pow2(m), remaining - Pow2(m), lo, hi)
  {
    MaskBounds(page, remaining, lo, hi);
    var m := NextMask(page, remaining, lo, hi);
    Pow2Mono(m, FloorLog2(remaining));
    AlignmentMaskAligns(page, m);
    AlignedPow2(m, lo);
    AlignedSum(page, Pow2(m), lo);
    AlignedSum(remaining, Pow2(m), lo);
  }

  /** The greedy block is the largest allowed block that starts here. */
  lemma NextMaskLargest(page: nat, remaining: nat, lo: nat, hi: nat, b: Block)
    requires PlanOk(page, remaining, lo, hi) && remaining > 0
    requires Allowed(b, page, remaining, lo, hi) && b.page == page
    ensures b.mask <= NextMask(page, remaining, lo, hi)
  {
    Pow2Order(b.mask, FloorLog2(remaining));
    MaskBounds(page, remaining, lo, hi);
    if page > 0 {
      AlignedIffTrailing(page, b.mask);
    }
  }

  /** `next_block` never underflows `remaining_pages`, whatever the range. */
  lemma NextMaskRuns(page: nat, remaining: nat, lo: nat, hi: nat)
    requires PlanShape(page, remaining, lo, hi) && remaining > 0
    ensures var m := NextMask(page, remaining, lo, hi);
            && lo <= m <= hi && m < USIZE_BITS && Pow2(m) <= remaining
            && PlanShape(SaturatingAdd(page, Pow2(m)), remaining - Pow2(m), lo, hi)
  {
    var m := NextMask(page, remaining, lo, hi);
    AlignedAtLeast(remaining, lo);
    Pow2Order(lo, FloorLog2(remaining));
    UsizeLimitIsPow2();
    Pow2Order(FloorLog2(remaining), USIZE_BITS - 1);
    Pow2Mono(m, FloorLog2(remaining));
    AlignedPow2(m, lo);
    AlignedSum(remaining, Pow2(m), lo);
  }

  /** The blocks a plan still has to emit. */
  function Blocks(page: nat, remaining: nat, lo: nat, hi: nat): (bs: seq<Block>)
    requires PlanShape(page, remaining, lo, hi)
    decreases remaining
  {
    if remaining == 0 then []
    else
      NextMaskRuns(page, remaining, lo, hi);
      var m := NextMask(page, remaining, lo, hi);
      [Block(page, m)] + Blocks(SaturatingAdd(page, Pow2(m)), remaining - Pow2(m), lo, hi)
  }

  lemma BlocksUnfold(page: nat, remaining: nat, lo: nat, hi: nat)
    returns (m: nat, first: Block, rest: seq<Block>)
    requires PlanOk(page, remaining, lo, hi) && remaining > 0
    ensures m == NextMask(page, remaining, lo, hi) && first == Block(page, m)
    ensures lo <= m <= hi && Pow2(m) <= remaining && first.Natural()
    ensures PlanOk(page + Pow2(m), remaining - Pow2(m), lo, hi)
    ensures rest == Blocks(page + Pow2(m), remaining - Pow2(m), lo, hi)
    ensures Blocks(page, remaining, lo, hi) == [first] + rest
  {
    NextMaskFits(page, remaining, lo, hi);
    m := NextMask(page, remaining, lo, hi);
    first := Block(page, m);
    rest := Blocks(page + Pow2(m), remaining - Pow2(m), lo, hi);
  }

  /** `bs` tiles `[page, page + remaining)` from left to right with allowed blocks. */
  predicate Tiles(bs: seq<Block>, page: nat, remaining: nat, lo: nat, hi: nat)
    decreases |bs|
  {
    if bs == [] then remaining == 0
    else
      && bs[0].page == page && bs[0].Natural() && lo <= bs[0].mask <= hi
      && bs[0].Size() <= remaining
      && Tiles(bs[1..], bs[0].End(), remaining - bs[0].Size(), lo, hi)
  }

  lemma {:induction false} BlocksTile(page: nat, remaining: nat, lo: nat, hi: nat)
    requires PlanOk(page, remaining, lo, hi)
    ensures Tiles(Blocks(page, remaining, lo, hi), page, remaining, lo, hi)
    decreases remaining
  {
    hide NextMask;
    if remaining > 0 {
      var m, first, rest := BlocksUnfold(page, remaining, lo, hi);
      BlocksTile(page + Pow2(m), remaining - Pow2(m), lo, hi);
      assert ([first] + rest)[1..] == rest;
    }
  }

  /** In a tiling every page of the range is in exactly one block, every other page in
      none, and block `i` is an allowed one. */
  lemma {:induction false} TilesAt(bs: seq<Block>, page: nat, remaining: nat, lo: nat, hi: nat, i: nat)
    requires Tiles(bs, page, remaining, lo, hi) && i < |bs|
    ensures Allowed(bs[i], page, remaining, lo, hi)
    ensures i + 1 < |bs| ==> bs[i].End() == bs[i + 1].page
    ensures i + 1 == |bs| ==> bs[i].End() == page + remaining
    decreases |bs|
  {
    if i > 0 {
      TilesAt(bs[1..], bs[0].End(), remaining - bs[0].Size(), lo, hi, i - 1);
    }
  }

  lemma {:induction false} TileOf(bs: seq<Block>, page: nat, remaining: nat, lo: nat, hi: nat, x: nat)
    returns (i: nat)
    requires Tiles(bs, page, remaining, lo, hi) && page <= x < page + remaining
    ensures i < |bs| && bs[i].Contains(x)
    ensures forall j :: 0 <= j < |bs| && bs[j].Contains(x) ==> j == i
    decreases |bs|
  {
    if bs[0].Contains(x) {
      i := 0;
      forall j | 1 <= j < |bs|
        ensures !bs[j].Contains(x)
      {
        TilesAt(bs[1..], bs[0].End(), remaining - bs[0].Size(), lo, hi, j - 1);
      }
    } else {
      var k := TileOf(bs[1..], bs[0].End(), remaining - bs[0].Size(), lo, hi, x);
      i := k + 1;
      forall j | 0 <= j < |bs| && bs[j].Contains(x)
        ensures j == i
      {
        assert j > 0 ==> bs[j] == bs[1..][j - 1];
      }
    }
  }

  ghost predicate Covered(bs: seq<Block>, x: nat) {
    exists i :: 0 <= i < |bs| && bs[i].Contains(x)
  }

  /** Exact partition: the blocks are contiguous, ascending and disjoint, their union is
      exactly the range, and each is aligned to its own size with its mask in bounds. */
  lemma ExactPartition(page: nat, remaining: nat, lo: nat, hi: nat)
    requires PlanOk(page, remaining, lo, hi)
    ensures var bs := Blocks(page, remaining, lo, hi);
            && (forall i :: 0 <= i < |bs| ==> Allowed(bs[i], page, remaining, lo, hi))
            && (forall i :: 0 <= i < |bs| - 1 ==> bs[i].End() == bs[i + 1].page)
            && (forall x: nat :: page <= x < page + remaining <==> Covered(bs, x))
            && (forall x: nat, i, j :: CoveredTwice(bs, x, i, j) ==> i == j)
  {
    BlocksTile(page, remaining, lo, hi);
    TilesPartition(Blocks(page, remaining, lo, hi), page, remaining, lo, hi);
  }

  predicate CoveredTwice(bs: seq<Block>, x: nat, i: int, j: int) {
    0 <= i < |bs| && 0 <= j < |bs| && bs[i].Contains(x) && bs[j].Contains(x)
  }

  lemma TilesPartition(bs: seq<Block>, page: nat, remaining: nat, lo: nat, hi: nat)
    requires Tiles(bs, page, remaining, lo, hi)
    ensures forall i :: 0 <= i < |bs| ==> Allowed(bs[i], page, remaining, lo, hi)
    ensures forall i :: 0 <= i < |bs| - 1 ==> bs[i].End() == bs[i + 1].page
    ensures forall x: nat :: page <= x < page + remaining <==> Covered(bs, x)
    ensures forall x: nat, i, j :: CoveredTwice(bs, x, i, j) ==> i == j
  {
    forall i | 0 <= i < |bs|
      ensures Allowed(bs[i], page, remaining, lo, hi)
      ensures i + 1 < |bs| ==> bs[i].End() == bs[i + 1].page
    {
      TilesAt(bs, page, remaining, lo, hi, i);
    }
    forall x: nat | page <= x < page + remaining
      ensures Covered(bs, x)
    {
      var i := TileOf(bs, page, remaining, lo, hi, x);
    }
    forall x: nat, i, j | CoveredTwice(bs, x, i, j)
      ensures i == j
    {
      assert Allowed(bs[i], page, remaining, lo, hi);
      var k := TileOf(bs, page, remaining, lo, hi, x);
    }
  }

  // Minimality.

  /** Naturally aligned blocks are nested or disjoint. */
  lemma {:induction false} NaturalNested(a: Block, b: Block, x: nat)
    requires a.Natural() && b.Natural() && a.mask <= b.mask
    requires a.Contains(x) && b.Contains(x)
    ensures b.page <= a.page && a.End() <= b.End()
    decreases a.mask
  {
    if a.mask > 0 {
      AlignedHalf(a.page, a.mask);
      AlignedHalf(b.page, b.mask);
      NaturalNested(Block(a.page / 2, a.mask - 1), Block(b.page / 2, b.mask - 1), x / 2);
    }
  }

  /** An allowed block lies inside the greedy block or behind it. */
  lemma InsideOrBehind(page: nat, remaining: nat, lo: nat, hi: nat, b: Block)
    requires PlanOk(page, remaining, lo, hi) && remaining > 0
    requires Allowed(b, page, remaining, lo, hi)
    ensures var m := NextMask(page, remaining, lo, hi);
            b.End() <= page + Pow2(m) || page + Pow2(m) <= b.page
  {
    var m := NextMask(page, remaining, lo, hi);
    NextMaskFits(page, remaining, lo, hi);
    var g := Block(page, m);
    if b.page < g.End() && g.End() < b.End() {
      if b.mask <= m {
        NaturalNested(b, g, b.page);
      } else {
        NaturalNested(g, b, b.page);
        NextMaskLargest(page, remaining, lo, hi, b);
      }
    }
  }

  ghost predicate InSome(cover: set<Block>, x: nat) {
    exists b :: b in cover && b.Contains(x)
  }

  ghost predicate CoversRange(cover: set<Block>, page: nat, remaining: nat) {
    forall x :: page <= x < page + remaining ==> InSome(cover, x)
  }

  /** Greedy minimality: no cover of the range by allowed blocks uses fewer of them. */
  lemma {:induction false} GreedyIsMinimal(page: nat, remaining: nat, lo: nat, hi: nat, cover: set<Block>)
    requires PlanOk(page, remaining, lo, hi)
    requires forall b :: b in cover ==> Allowed(b, page, remaining, lo, hi)
    requires CoversRange(cover, page, remaining)
    ensures |Blocks(page, remaining, lo, hi)| <= |cover|
    decreases remaining
  {
    hide NextMask;
    if remaining > 0 {
      var m, _, _ := BlocksUnfold(page, remaining, lo, hi);
      var behind := Behind(page, remaining, lo, hi, cover);
      GreedyIsMinimal(page + Pow2(m), remaining - Pow2(m), lo, hi, behind);
    }
  }

  /** Dropping the blocks inside the first greedy block leaves a smaller cover of the rest. */
  lemma Behind(page: nat, remaining: nat, lo: nat, hi: nat, cover: set<Block>) returns (behind: set<Block>)
    requires PlanOk(page, remaining, lo, hi) && remaining > 0
    requires forall b :: b in cover ==> Allowed(b, page, remaining, lo, hi)
    requires CoversRange(cover, page, remaining)
    ensures var m := NextMask(page, remaining, lo, hi);
            && Pow2(m) <= remaining
            && (forall b :: b in behind ==> Allowed(b, page + Pow2(m), remaining - Pow2(m), lo, hi))
            && CoversRange(behind, page + Pow2(m), remaining - Pow2(m))
    ensures |behind| < |cover|
  {
    hide Blocks, NextMask;
    var m, g, _ := BlocksUnfold(page, remaining, lo, hi);
    behind := set b | b in cover && g.End() <= b.page;
    forall x: nat | g.End() <= x < page + remaining
      ensures InSome(behind, x)
    {
      assert InSome(cover, x);
      var b :| b in cover && b.Contains(x);
      InsideOrBehind(page, remaining, lo, hi, b);
      assert b in behind;
    }
    assert InSome(cover, page);
    var first :| first in cover && first.Contains(page);
    SubsetSize(behind, cover - {first});
  }

  lemma {:induction false} SubsetSize<T>(a: set<T>, b: set<T>)
    requires a <= b
    ensures |a| <= |b|
    decreases |a|
  {
    if x :| x in a {
      SubsetSize(a - {x}, b - {x});
    }
  }

  // Number of blocks.

  lemma FallingMask(page: nat, remaining: nat, lo: nat, hi: nat, k: nat)
    requires PlanOk(page, remaining, lo, hi) && remaining > 0
    requires lo <= k <= hi && Bits.Aligned(page, k) && remaining < Pow2(k)
    ensures NextMask(page, remaining, lo, hi) == FloorLog2(remaining) < k
  {
    var j := FloorLog2(remaining);
    MaskBounds(page, remaining, lo, hi);
    if j >= k {
      Pow2Mono(k, j);
    }
    if page > 0 {
      AlignedIffTrailing(page, j);
    }
  }

  lemma FallingStep(page: nat, remaining: nat, lo: nat, hi: nat, k: nat) returns (j: nat)
    requires PlanOk(page, remaining, lo, hi) && remaining > 0
    requires lo <= k <= hi && Bits.Aligned(page, k) && remaining < Pow2(k)
    ensures lo <= j < k && Pow2(j) <= remaining < 2 * Pow2(j)
    ensures PlanOk(page + Pow2(j), remaining - Pow2(j), lo, hi)
    ensures Bits.Aligned(page + Pow2(j), j)
    ensures |Blocks(page, remaining, lo, hi)| == 1 + |Blocks(page + Pow2(j), remaining - Pow2(j), lo, hi)|
  {
    hide Blocks, NextMask;
    FallingMask(page, remaining, lo, hi, k);
    var m, _, _ := BlocksUnfold(page, remaining, lo, hi);
    j := m;
    AlignedPow2(j, j);
    AlignedSum(page, Pow2(j), j);
  }

  /** Once the rest fits under an aligned boundary, the masks strictly fall. */
  lemma {:induction false} FallingCount(page: nat, remaining: nat, lo: nat, hi: nat, k: nat)
    requires PlanOk(page, remaining, lo, hi)
    requires lo <= k <= hi && Bits.Aligned(page, k) && remaining < Pow2(k)
    ensures |Blocks(page, remaining, lo, hi)| <= k - lo
    decreases remaining
  {
    hide NextMask;
    if remaining > 0 {
      var j := FallingStep(page, remaining, lo, hi, k);
      FallingCount(page + Pow2(j), remaining - Pow2(j), lo, hi, j);
    }
  }

  /** How many blocks of `d` pages fit. */
  function Quotient(n: nat, d: nat): (q: nat)
    requires d > 0
    decreases n
  {
    if n < d then 0 else 1 + Quotient(n - d, d)
  }

  lemma {:induction false} QuotientIsDiv(n: nat, d: nat)
    requires d > 0
    ensures Quotient(n, d) == n / d
    decreases n
  {
    if n < d {
      DivModUnique(n, d, 0, n);
    } else {
      QuotientIsDiv(n - d, d);
      DivSub(n, d);
    }
  }

  lemma {:induction false} QuotientMono(a: nat, b: nat, d: nat)
    requires a <= b && d > 0
    ensures Quotient(a, d) <= Quotient(b, d)
    decreases a
  {
    if a >= d {
      QuotientMono(a - d, b - d, d);
    }
  }

  lemma RisingMask(page: nat, remaining: nat, lo: nat, hi: nat, k: nat)
    requires PlanOk(page, remaining, lo, hi) && lo <= k <= hi && Bits.Aligned(page, k)
    requires Pow2(k) <= remaining && (k == hi || !Bits.Aligned(page, k + 1))
    ensures NextMask(page, remaining, lo, hi) == k
  {
    NextMaskFits(page, remaining, lo, hi);
    NextMaskLargest(page, remaining, lo, hi, Block(page, k));
    var m := NextMask(page, remaining, lo, hi);
  }

  /** A block of mask `k` is next when it fits and no larger one may start here. */
  lemma RisingStep(page: nat, remaining: nat, lo: nat, hi: nat, k: nat)
    requires PlanOk(page, remaining, lo, hi) && lo <= k <= hi && Bits.Aligned(page, k)
    requires Pow2(k) <= remaining && (k == hi || !Bits.Aligned(page, k + 1))
    ensures PlanOk(page + Pow2(k), remaining - Pow2(k), lo, hi)
    ensures |Blocks(page, remaining, lo, hi)| == 1 + |Blocks(page + Pow2(k), remaining - Pow2(k), lo, hi)|
  {
    hide Blocks, NextMask;
    RisingMask(page, remaining, lo, hi, k);
    var m, _, _ := BlocksUnfold(page, remaining, lo, hi);
  }

  /** From a boundary aligned to the largest block, full blocks and then a falling tail. */
  lemma {:induction false} LevelCount(page: nat, remaining: nat, lo: nat, hi: nat)
    requires PlanOk(page, remaining, lo, hi) && Bits.Aligned(page, hi)
    ensures |Blocks(page, remaining, lo, hi)| <= Quotient(remaining, Pow2(hi)) + (hi - lo)
    decreases remaining
  {
    hide Blocks, NextMask, Pow2, Bits.Aligned;
    if remaining < Pow2(hi) {
      FallingCount(page, remaining, lo, hi, hi);
    } else {
      RisingStep(page, remaining, lo, hi, hi);
      AlignedPow2(hi, hi);
      AlignedSum(page, Pow2(hi), hi);
      LevelCount(page + Pow2(hi), remaining - Pow2(hi), lo, hi);
    }
  }

  /** Below the largest block the masks strictly rise until alignment is reached. */
  lemma {:induction false} RisingCount(page: nat, remaining: nat, lo: nat, hi: nat, k: nat)
    requires PlanOk(page, remaining, lo, hi) && lo <= k <= hi && Bits.Aligned(page, k)
    ensures |Blocks(page, remaining, lo, hi)| <= (hi - k) + (hi - lo) + Quotient(remaining, Pow2(hi))
    decreases hi - k
  {
    hide Blocks, NextMask, Pow2, Bits.Aligned, Quotient;
    if k == hi {
      LevelCount(page, remaining, lo, hi);
    } else if Bits.Aligned(page, k + 1) {
      RisingCount(page, remaining, lo, hi, k + 1);
    } else if remaining < Pow2(k) {
      FallingCount(page, remaining, lo, hi, k);
    } else {
      RisingStep(page, remaining, lo, hi, k);
      AlignedCarry(page, k);
      RisingCount(page + Pow2(k), remaining - Pow2(k), lo, hi, k + 1);
      QuotientMono(remaining - Pow2(k), remaining, Pow2(hi));
    }
  }

  /** Descriptor count bound. */
  lemma CountBound(page: nat, remaining: nat, lo: nat, hi: nat)
    requires PlanOk(page, remaining, lo, hi)
    ensures |Blocks(page, remaining, lo, hi)| <= 2 * (hi - lo) + remaining / Pow2(hi)
  {
    RisingCount(page, remaining, lo, hi, lo);
    QuotientIsDiv(remaining, Pow2(hi));
  }

  /** A plan under execution: the source's cursor. */
  class RangePlan {
    var nextPage: nat
    var remainingPages: nat
    const minMask: nat
    const maxMask: nat

    ghost predicate Valid()
      reads this
    {
      PlanShape(nextPage, remainingPages, minMask, maxMask)
    }

    ghost function Rest(): seq<Block>
      requires Valid()
      reads this
    {
      Blocks(nextPage, remainingPages, minMask, maxMask)
    }

    constructor (page: nat, remaining: nat, lo: nat, hi: nat)
      ensures nextPage == page && remainingPages == remaining
      ensures minMask == lo && maxMask == hi
    {
      nextPage, remainingPages, minMask, maxMask := page, remaining, lo, hi;
    }

    method NextBlock() returns (b: Option<Block>)
      requires Valid()
      modifies this
      ensures Valid()
      ensures b == if old(Rest()) == [] then None else Some(old(Rest())[0])
      ensures Rest() == if old(Rest()) == [] then [] else old(Rest())[1..]
      ensures remainingPages < old(remainingPages) || (b.None? && remainingPages == old(remainingPages))
    {
      if remainingPages == 0 {
        return None;
      }
      NextMaskRuns(nextPage, remainingPages, minMask, maxMask);
      var mask := NextMask(nextPage, remainingPages, minMask, maxMask);
      var pages := Pow2(mask);
      b := Some(Block(nextPage, mask));
      nextPage := SaturatingAdd(nextPage, pages);
      remainingPages := remainingPages - pages;
    }

    /** The dry run: it advances a copy of the cursor, so its answer is the number of blocks
        that `NextBlock` will emit. */
    method DescriptorCount() returns (count: nat)
      requires Valid()
      ensures count == |Rest()|
    {
      var cursor := new RangePlan(nextPage, remainingPages, minMask, maxMask);
      count := 0;
      var more := true;
      while more
        invariant cursor.Valid() && fresh(cursor)
        invariant count + |cursor.Rest()| == |Rest()|
        invariant !more ==> cursor.Rest() == []
        decreases cursor.remainingPages, more
      {
        var block := cursor.NextBlock();
        more := block.Some?;
        if more {
          count := count + 1;
        }
      }
    }
  }

  /** The checks of `VtdIotlbRangePlan::new`. */
  method NewPlan(startPage: nat, pageCount: nat, lo: nat, hi: nat) returns (r: Result<RangePlan>)
    requires startPage < USIZE_LIMIT && pageCount < USIZE_LIMIT
    ensures r.Ok? <==> pageCount == 0 || (lo <= hi && lo < USIZE_BITS && Bits.Aligned(startPage, lo) && Bits.Aligned(pageCount, lo))
    ensures r.Ok? ==> fresh(r.value) && r.value.nextPage == startPage && r.value.remainingPages == pageCount
    ensures r.Ok? ==> r.value.minMask == lo && r.value.maxMask == hi
    ensures r.Ok? && lo <= hi ==> r.value.Valid()
    ensures r.Err? ==> r.error == if hi < lo then FeatureUnavailable
                                  else if lo >= USIZE_BITS then AddressOverflow else InvalidRange
  {
    if pageCount == 0 {
      if lo <= hi {
        AlignedZero(lo);
      }
      var plan := new RangePlan(startPage, 0, lo, hi);
      return Ok(plan);
    }
    if hi < lo {
      return Err(FeatureUnavailable);
    }
    if lo >= USIZE_BITS {
      return Err(AddressOverflow);
    }
    var minPages := Pow2(lo);
    MaskTestsAlignment(startPage, lo);
    MaskTestsAlignment(pageCount, lo);
    if BitAnd(startPage, minPages - 1) != 0 || BitAnd(pageCount, minPages - 1) != 0 {
      return Err(InvalidRange);
    }
    var plan := new RangePlan(startPage, pageCount, lo, hi);
    r := Ok(plan);
  }

  lemma MaskTestsAlignment(x: nat, k: nat)
    ensures BitAnd(x, Pow2(k) - 1) == 0 <==> Bits.Aligned(x, k)
  {
    MaskIsModulo(x, k);
    AlignedIsMultiple(x, k);
  }
}
