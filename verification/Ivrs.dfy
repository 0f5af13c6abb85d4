/** The blocks of an AMD IVRS table, and the requesters an IOMMU's IVHD blocks name. A table
    here is the validated SDT, so it is at least 48 bytes long. */
module Ivrs {
  import opened Basics
  import opened Bits
  import opened TableBytes
  import opened BdfRanges
  import opened BdfRangeSets
  import opened IvrsEntries

  const BLOCKS_OFFSET: nat := 48
  const REGISTER_WINDOW_SIZE: nat := 0x4000
  const IVMD_MIN_LENGTH: nat := 24
  const WINDOW_CAPACITY: nat := 16

  predicate IsTable(t: seq<Byte>) {
    BLOCKS_OFFSET <= |t| < U32_LIMIT
  }

  /** The fields the requester queries use; a register window is named by its base. */
  datatype Block =
    | Ivhd(kind: nat, base: nat, includeAll: bool, hasDeviceScopes: bool, offset: nat, length: nat)
    | Ivmd(kind: nat, offset: nat, length: nat)
    | Other(kind: nat, offset: nat, length: nat)
  {
    function End(): nat { offset + length }
  }

  predicate IsIvhd(kind: nat) { kind in {0x10, 0x11, 0x40} }

  predicate IsIvmd(kind: nat) { kind in {0x20, 0x21, 0x22} }

  function EntriesOffset(kind: nat): nat {
    if kind in {0x11, 0x40} then 40 else 24
  }

  function MinLength(kind: nat): nat {
    if kind == 0x10 then 24 else 40
  }

  /** The entries of an IVHD block. */
  function EntriesOf(t: seq<Byte>, offset: nat, length: nat, kind: nat): Walked
    requires offset + length <= |t|
  {
    Walk(t, offset + EntriesOffset(kind), offset + length, None)
  }

  function ParseIvhd(t: seq<Byte>, offset: nat, length: nat, kind: nat): (r: Parsed<Block>)
    requires offset + length <= |t| && IsIvhd(kind)
    ensures r.Ok? ==> r.value.Ivhd? && r.value.offset == offset && r.value.length == length && r.value.kind == kind
  {
    if length < MinLength(kind) then Err(Malformed("IVHD block shorter than minimum for its type"))
    else
      var walked := EntriesOf(t, offset, length, kind);
      if walked.error.Some? then Err(walked.error.value)
      else
        var base := ReadU64(t, offset + 8).value;
        if base + REGISTER_WINDOW_SIZE >= U64_LIMIT then Err(Malformed("IVHD register window overflows"))
        else Ok(Ivhd(
          kind,
          base,
          exists e :: e in walked.entries && e.All?,
          exists e :: e in walked.entries && !e.All? && !e.Pad?,
          offset,
          length))
  }

  function ParseIvmd(t: seq<Byte>, offset: nat, length: nat, kind: nat): (r: Parsed<Block>)
    requires offset + length <= |t|
    ensures r.Ok? ==> r.value.Ivmd? && r.value.offset == offset && r.value.length == length && r.value.kind == kind
  {
    if length < IVMD_MIN_LENGTH then Err(Malformed("IVMD block too short"))
    else
      var start, size := ReadU64(t, offset + 8).value, ReadU64(t, offset + 16).value;
      if size == 0 || start + size >= U64_LIMIT then Err(Malformed("IVMD memory range overflows"))
      else Ok(Ivmd(kind, offset, length))
  }

  function ParseBlock(t: seq<Byte>, offset: nat, length: nat, kind: nat): (r: Parsed<Block>)
    requires offset + length <= |t|
    ensures r.Ok? ==> r.value.offset == offset && r.value.length == length && r.value.kind == kind
    ensures r.Ok? ==> (r.value.Ivhd? <==> IsIvhd(kind)) && (r.value.Ivmd? <==> IsIvmd(kind))
  {
    if IsIvhd(kind) then ParseIvhd(t, offset, length, kind)
    else if IsIvmd(kind) then ParseIvmd(t, offset, length, kind)
    else Ok(Other(kind, offset, length))
  }

  function BlockAt(t: seq<Byte>, offset: nat): (r: Parsed<Block>)
    requires offset < |t|
    ensures r.Ok? ==> r.value.offset == offset && FrameAt(t, offset) == Ok(r.value.length) && r.value.kind == t[offset]
  {
    match FrameAt(t, offset)
    case Err(e) => Err(e)
    case Ok(length) => ParseBlock(t, offset, length, t[offset])
  }

  /** When a block with a sound header is accepted: an IVHD block has its fixed part, entries that
      walk without error, and a 16 KiB register window inside the address space; an IVMD block has
      its fixed part and a memory range inside the address space; others are passed over. */
  lemma BlockAccepted(t: seq<Byte>, offset: nat)
    requires offset < |t|
    ensures BlockAt(t, offset).Ok? <==>
            FrameAt(t, offset).Ok? &&
            var kind, length := t[offset], FrameAt(t, offset).value;
            if kind in {0x10, 0x11, 0x40} then
              && length >= (if kind == 0x10 then 24 else 40)
              && Walk(t, offset + (if kind == 0x10 then 24 else 40), offset + length, None).error == None
              && ReadU64(t, offset + 8).value + 0x4000 < 0x1_0000_0000_0000_0000
            else kind in {0x20, 0x21, 0x22} ==>
              && length >= 24 && ReadU64(t, offset + 16).value > 0
              && ReadU64(t, offset + 8).value + ReadU64(t, offset + 16).value < 0x1_0000_0000_0000_0000
  {
    hide Walk, FrameAt;
  }

  /** The bytes of an IVHD block before its entries. */
  function FixedLength(kind: Byte): nat {
    if kind == 0x10 then 24 else 40
  }

  /** An IVHD block: its fixed part, of the length its kind has, and its entries. */
  function EncodeIvhd(kind: Byte, flags: Byte, idAndCap: nat, base: nat, middle: seq<Byte>, es: seq<DeviceEntry>): (b: seq<Byte>)
    requires IsIvhd(kind) && |middle| == FixedLength(kind) - 16
    requires forall e :: e in es ==> e.WellFormed()
    ensures |b| == FixedLength(kind) + |EncodeEntries(es)|
  {
    [kind, flags] + Encode(FixedLength(kind) + |EncodeEntries(es)|, 2) + Encode(idAndCap, 4) + Encode(base, 8)
    + middle + EncodeEntries(es)
  }

  /** A block written anywhere in a table is read back: its place, its registers, and whether
      its entries include everything or name something. */
  lemma IvhdRoundTrip(before: seq<Byte>, kind: Byte, flags: Byte, idAndCap: nat, base: nat, middle: seq<Byte>,
                      es: seq<DeviceEntry>, after: seq<Byte>)
    requires IsIvhd(kind) && |middle| == FixedLength(kind) - 16
    requires forall e :: e in es ==> e.WellFormed()
    requires FixedLength(kind) + |EncodeEntries(es)| < U16_LIMIT && base + REGISTER_WINDOW_SIZE < U64_LIMIT
    ensures var t := before + EncodeIvhd(kind, flags, idAndCap, base, middle, es) + after;
            BlockAt(t, |before|) == Ok(Ivhd(
              kind, base,
              exists e :: e in es && e.All?,
              exists e :: e in es && !e.All? && !e.Pad?,
              |before|,
              FixedLength(kind) + |EncodeEntries(es)|))
  {
    hide ReadU16, ReadU64, Encode, EncodeEntries, Walk;
    var entries := EncodeEntries(es);
    var length := FixedLength(kind) + |entries|;
    var t := before + EncodeIvhd(kind, flags, idAndCap, base, middle, es) + after;
    ReadEncoded16(before + [kind, flags], length, Encode(idAndCap, 4) + Encode(base, 8) + middle + entries + after);
    ReadEncoded64(before + [kind, flags] + Encode(length, 2) + Encode(idAndCap, 4), base, middle + entries + after);
    assert t == before + [kind, flags] + Encode(length, 2)
                + (Encode(idAndCap, 4) + Encode(base, 8) + middle + entries + after);
    assert t == before + [kind, flags] + Encode(length, 2) + Encode(idAndCap, 4) + Encode(base, 8)
                + (middle + entries + after);
    assert t[|before|] == kind;
    var head := before + [kind, flags] + Encode(length, 2) + Encode(idAndCap, 4) + Encode(base, 8) + middle;
    assert t == head + entries + after && |head| == |before| + FixedLength(kind);
    RoundTrip(head, es, after);
    assert EntriesOf(t, |before|, length, kind) == Walked(es, None);
  }

  /** What `parse_ivhd` accumulates over the entries of a block. */
  method ScanEntries(t: seq<Byte>, offset: nat, length: nat, kind: nat)
    returns (includeAll: bool, hasDeviceScopes: bool, error: Option<ParseError>)
    requires offset + length <= |t|
    ensures var walked := EntriesOf(t, offset, length, kind);
            && error == walked.error
            && (includeAll <==> exists e :: e in walked.entries && e.All?)
            && (hasDeviceScopes <==> exists e :: e in walked.entries && !e.All? && !e.Pad?)
  {
    hide Walk;
    var entries;
    entries, error := WalkDeviceEntries(t, offset, EntriesOffset(kind), length);
    includeAll, hasDeviceScopes := false, false;
    for i := 0 to |entries|
      invariant includeAll <==> exists j :: 0 <= j < i && entries[j].All?
      invariant hasDeviceScopes <==> exists j :: 0 <= j < i && !entries[j].All? && !entries[j].Pad?
    {
      if entries[i].All? {
        includeAll := true;
      } else if !entries[i].Pad? {
        hasDeviceScopes := true;
      }
    }
  }

  /** `parse_ivhd`. */
  method ReadIvhd(t: seq<Byte>, offset: nat, length: nat, kind: nat) returns (r: Parsed<Block>)
    requires offset + length <= |t| && IsIvhd(kind)
    ensures r == ParseIvhd(t, offset, length, kind)
  {
    hide EntriesOf;
    if length < MinLength(kind) {
      return Err(Malformed("IVHD block shorter than minimum for its type"));
    }
    var includeAll, hasDeviceScopes, error := ScanEntries(t, offset, length, kind);
    if error.Some? {
      return Err(error.value);
    }
    var base := ReadU64(t, offset + 8).value;
    if base + REGISTER_WINDOW_SIZE >= U64_LIMIT {
      return Err(Malformed("IVHD register window overflows"));
    }
    r := Ok(Ivhd(kind, base, includeAll, hasDeviceScopes, offset, length));
  }

  /** The block iterator: `IvrsBlocks`. */
  class BlockCursor {
    const table: seq<Byte>
    var offset: nat

    constructor (table: seq<Byte>, offset: nat)
      ensures this.table == table && this.offset == offset
    {
      this.table, this.offset := table, offset;
    }

    /** Steps over the block at the cursor; a block that is sound but does not parse is stepped
        over too, and a block with a broken frame ends the iteration. */
    method Next() returns (item: Option<Parsed<Block>>)
      modifies this
      ensures item == if old(offset) >= |table| then None else Some(BlockAt(table, old(offset)))
      ensures offset == if old(offset) >= |table| then old(offset)
                        else match FrameAt(table, old(offset))
                             case Err(_) => |table|
                             case Ok(length) => old(offset) + length
    {
      hide ParseIvhd, ParseIvmd;
      if offset >= |table| {
        return None;
      }
      if offset + 4 > |table| {
        offset := |table|;
        return Some(Err(Malformed("block truncated before header")));
      }
      var here, kind := offset, table[offset];
      var length := ReadU16(table, offset + 2).value;
      if length < 4 {
        offset := |table|;
        return Some(Err(Malformed("block length smaller than header")));
      }
      if here + length > |table| {
        offset := |table|;
        return Some(Err(Malformed("block extends past table length")));
      }
      offset := offset + length;
      if IsIvhd(kind) {
        var block := ReadIvhd(table, here, length, kind);
        return Some(block);
      }
      item := Some(ParseBlock(table, here, length, kind));
    }
  }

  /** The blocks met before the end of the table or the first error, and that error. */
  datatype Listed = Listed(blocks: seq<Block>, error: Option<ParseError>)

  function Blocks(t: seq<Byte>, offset: nat): Listed
    decreases |t| - offset
  {
    if offset >= |t| then Listed([], None)
    else match BlockAt(t, offset)
      case Err(e) => Listed([], Some(e))
      case Ok(block) =>
        var rest := Blocks(t, block.End());
        Listed([block] + rest.blocks, rest.error)
  }

  /** Consecutive blocks from `from` to exactly `to`. */
  predicate Tiles(blocks: seq<Block>, from: nat, to: nat) {
    if blocks == [] then from == to
    else blocks[0].offset == from && blocks[0].length >= 4 && Tiles(blocks[1..], blocks[0].End(), to)
  }

  /** Block iteration either tiles the table from its first block to its end, or reports an
      error after tiling up to the block that has it. */
  lemma {:induction false} BlocksTile(t: seq<Byte>, offset: nat)
    requires offset <= |t|
    ensures var listed := Blocks(t, offset);
            if listed.error.None? then Tiles(listed.blocks, offset, |t|)
            else exists bad: nat :: bad < |t| && Tiles(listed.blocks, offset, bad) && BlockAt(t, bad) == Err(listed.error.value)
    decreases |t| - offset
  {
    hide BlockAt;
    if offset < |t| {
      match BlockAt(t, offset)
      case Err(e) => assert Tiles([], offset, offset);
      case Ok(block) =>
        BlocksTile(t, block.End());
        var rest, all := Blocks(t, block.End()), Blocks(t, offset);
        assert all.blocks[1..] == rest.blocks;
        if rest.error.Some? {
          var bad: nat :| bad < |t| && Tiles(rest.blocks, block.End(), bad) && BlockAt(t, bad) == Err(rest.error.value);
          assert Tiles(all.blocks, offset, bad);
        }
    }
  }

  /** Every block listed parses where it lies. */
  lemma {:induction false} BlocksParse(t: seq<Byte>, offset: nat, i: nat)
    requires i < |Blocks(t, offset).blocks|
    ensures var block := Blocks(t, offset).blocks[i];
            block.offset < |t| && BlockAt(t, block.offset) == Ok(block) && block.End() <= |t|
    decreases i
  {
    hide ParseBlock;
    if i > 0 {
      BlocksParse(t, BlockAt(t, offset).value.End(), i - 1);
    }
  }

  // The requesters of one IOMMU.

  /** The requesters an entry names by itself. */
  function Named(e: DeviceEntry): Option<Range> {
    match e
    case Pad => None
    case All(_) => None
    case Select(device, _) => Some(Single(device))
    case AliasSelect(device, _, _) => Some(Single(device))
    case ExtendedSelect(device, _, _) => Some(Single(device))
    case Special(device, _) => Some(Single(device))
    case AcpiNamed(device, _, _, _, _, _) => Some(Single(device))
    case DeviceRange(start, end, _) => Some(Range(start, end + 1))
    case AliasRange(start, end, _, _) => Some(Range(start, end + 1))
    case ExtendedRange(start, end, _, _) => Some(Range(start, end + 1))
  }

  function NamedRanges(es: seq<DeviceEntry>): (rs: seq<Range>) {
    if es == [] then []
    else match Named(es[0])
      case None => NamedRanges(es[1..])
      case Some(range) => [range] + NamedRanges(es[1..])
  }

  datatype Gathered = Gathered(foundUnit: bool, sawAll: bool, ranges: seq<Range>)

  /** The units of the table whose registers are at `base`, folded in table order. */
  function Gather(t: seq<Byte>, blocks: seq<Block>, base: nat): Gathered
    requires forall b :: b in blocks ==> b.End() <= |t|
  {
    if blocks == [] then Gathered(false, false, [])
    else
      var before := Gather(t, blocks[..|blocks| - 1], base);
      var block := blocks[|blocks| - 1];
      assert block in blocks && block.End() <= |t|;
      if !block.Ivhd? || block.base != base then before
      else if block.includeAll then before.(foundUnit := true, sawAll := true)
      else
        var entries := EntriesOf(t, block.offset, block.length, block.kind).entries;
        Gathered(true, before.sawAll, before.ranges + NamedRanges(entries))
  }

  /** What the requesters of the IOMMU at `base` come to: an overflow of the bounded set is
      reported before a later broken block is met. */
  ghost function RangesAt(t: seq<Byte>, base: nat): Parsed<Option<seq<Range>>>
    requires IsTable(t)
  {
    var listed := Blocks(t, BLOCKS_OFFSET);
    AllInside(t, BLOCKS_OFFSET);
    var g := Gather(t, listed.blocks, base);
    if !Fits(g.ranges, WINDOW_CAPACITY) then Err(RangesFull)
    else if listed.error.Some? then Err(listed.error.value)
    else if !g.foundUnit || g.sawAll || UnionAll(g.ranges) == [] then Ok(None)
    else Ok(Some(UnionAll(g.ranges)))
  }

  lemma AllInside(t: seq<Byte>, offset: nat)
    ensures forall b :: b in Blocks(t, offset).blocks ==> b.End() <= |t|
  {
    forall b | b in Blocks(t, offset).blocks
      ensures b.End() <= |t|
    {
      var i :| 0 <= i < |Blocks(t, offset).blocks| && Blocks(t, offset).blocks[i] == b;
      BlocksParse(t, offset, i);
    }
  }

  /** The second walk over a unit that does not include everything neither fails nor meets an
      entry for everything, so the query's own handling of those never acts. */
  lemma SecondWalkIsClean(t: seq<Byte>, offset: nat)
    requires offset < |t| && BlockAt(t, offset).Ok?
    requires var block := BlockAt(t, offset).value; block.Ivhd? && !block.includeAll
    ensures var block := BlockAt(t, offset).value;
            var walked := EntriesOf(t, block.offset, block.length, block.kind);
            && walked.error == None
            && (forall e :: e in walked.entries ==> !e.All? && e.WellFormed())
  {
    hide Walk;
    var block := BlockAt(t, offset).value;
    WalkedAreWellFormed(t, offset + EntriesOffset(block.kind), block.End(), None);
  }

  /** One block of the query: what it adds to the fold, and to the set. */
  method AddBlock(t: seq<Byte>, ghost before: seq<Block>, block: Block, base: nat, g: Gathered, ranges: BdfRangeSet)
    returns (h: Gathered, r: Outcome)
    requires block.End() <= |t| && forall b :: b in before ==> b.End() <= |t|
    requires g == Gather(t, before, base)
    requires block.offset < |t| && BlockAt(t, block.offset) == Ok(block)
    requires ranges.Valid() && Fits(g.ranges, ranges.windows.Length) && ranges.Windows() == UnionAll(g.ranges)
    modifies ranges`count, ranges.windows
    ensures h == Gather(t, before + [block], base) && ranges.Valid()
    ensures r == if Fits(h.ranges, ranges.windows.Length) then Pass else Fail(Full)
    ensures r.Pass? ==> ranges.Windows() == UnionAll(h.ranges)
  {
    hide Walk, UnionAll, BlockAt, Fits;
    ghost var blocks := before + [block];
    assert blocks[..|blocks| - 1] == before;
    if !block.Ivhd? || block.base != base {
      return g, Pass;
    }
    if block.includeAll {
      return g.(foundUnit := true, sawAll := true), Pass;
    }
    var entries, error := WalkDeviceEntries(t, block.offset, EntriesOffset(block.kind), block.length);
    SecondWalkIsClean(t, block.offset);
    NamedAreValid(entries);
    r := InsertEach(ranges, NamedRanges(entries), g.ranges);
    h := Gathered(true, g.sawAll, g.ranges + NamedRanges(entries));
  }

  lemma {:induction false} NamedAreValid(es: seq<DeviceEntry>)
    requires forall e :: e in es ==> e.WellFormed()
    ensures forall i :: 0 <= i < |NamedRanges(es)| ==> NamedRanges(es)[i].Proper() && NamedRanges(es)[i].Valid()
    decreases |es|
  {
    if es != [] {
      assert es[0] in es;
      assert Named(es[0]).Some? ==> Named(es[0]).value.Proper();
      NamedAreValid(es[1..]);
    }
  }

  /** The loop of the query: the folded units, or the error that ends it. */
  method CollectUnits(t: seq<Byte>, base: nat)
    returns (ranges: BdfRangeSet, g: Gathered, failure: Option<ParseError>)
    requires IsTable(t)
    ensures fresh(ranges) && fresh(ranges.windows) && ranges.Valid()
    ensures failure.Some? ==> RangesAt(t, base) == Err(failure.value)
    ensures failure.None? ==>
              var listed := Blocks(t, BLOCKS_OFFSET);
              && listed.error.None? && (forall b :: b in listed.blocks ==> b.End() <= |t|)
              && g == Gather(t, listed.blocks, base)
              && Fits(g.ranges, WINDOW_CAPACITY) && ranges.Windows() == UnionAll(g.ranges)
  {
    hide BlockAt, Blocks, UnionAll, Fits, Gather, Canonical;
    ranges := new BdfRangeSet(WINDOW_CAPACITY);
    var cursor := new BlockCursor(t, BLOCKS_OFFSET);
    g := Gathered(false, false, []);
    ghost var listed := Blocks(t, BLOCKS_OFFSET);
    ghost var seen: seq<Block> := [];
    AllInside(t, BLOCKS_OFFSET);
    assert [] + listed.blocks == listed.blocks;
    NothingGathered(t, base);
    while cursor.offset < |t|
      invariant fresh(ranges) && fresh(ranges.windows) && fresh(cursor) && cursor.table == t
      invariant ranges.Valid() && ranges.windows.Length == WINDOW_CAPACITY
      invariant listed == Listed(seen + Blocks(t, cursor.offset).blocks, Blocks(t, cursor.offset).error)
      invariant forall b :: b in seen ==> b in listed.blocks
      invariant g == Gather(t, seen, base)
      invariant Fits(g.ranges, WINDOW_CAPACITY) && ranges.Windows() == UnionAll(g.ranges)
      decreases |t| - cursor.offset
    {
      FirstBlock(t, cursor.offset);
      ghost var rest := Blocks(t, cursor.offset).blocks;
      var item := cursor.Next();
      if item.value.Err? {
        assert listed == Listed(seen, Some(item.value.error));
        return ranges, g, Some(item.value.error);
      }
      var block := item.value.value;
      var h, outcome := AddBlock(t, seen, block, base, g, ranges);
      seen := seen + [block];
      assert listed.blocks == seen + rest[1..];
      if outcome.Fail? {
        assert listed.blocks[..|seen|] == seen;
        GatherGrows(t, listed.blocks, |seen|, base);
        return ranges, g, Some(RangesFull);
      }
      g := h;
    }
    NoBlock(t, cursor.offset);
    assert listed.blocks == seen;
    failure := None;
  }

  lemma FirstBlock(t: seq<Byte>, offset: nat)
    requires offset < |t|
    ensures var listed := Blocks(t, offset);
            match BlockAt(t, offset)
            case Err(e) => listed == Listed([], Some(e))
            case Ok(block) =>
              && listed.blocks != [] && listed.blocks[0] == block
              && Listed(listed.blocks[1..], listed.error) == Blocks(t, block.End())
  {
  }

  lemma NoBlock(t: seq<Byte>, offset: nat)
    requires offset >= |t|
    ensures Blocks(t, offset) == Listed([], None)
  {
  }

  /** `ivhd_bdf_ranges`. */
  method IvhdBdfRanges(t: seq<Byte>, base: nat) returns (r: Parsed<Option<BdfRangeSet>>)
    requires IsTable(t)
    ensures r.Ok? && r.value.Some? ==>
              && fresh(r.value.value) && fresh(r.value.value.windows) && r.value.value.Valid()
              && RangesAt(t, base) == Ok(Some(r.value.value.Windows()))
    ensures r == Ok(None) ==> RangesAt(t, base) == Ok(None)
    ensures r.Err? ==> RangesAt(t, base) == Err(r.error)
    ensures r.Ok? && r.value.Some? ==>
              forall x: nat :: In(r.value.value.Windows(), x) <==>
                               exists b :: b in Blocks(t, 48).blocks && Names(t, b, base, x)
  {
    MembersAreNamed(t, base);
    hide Blocks, UnionAll, Fits, Gather, In, Names;
    var ranges, g, failure := CollectUnits(t, base);
    if failure.Some? {
      return Err(failure.value);
    }
    if !g.foundUnit || g.sawAll || ranges.count == 0 {
      return Ok(None);
    }
    r := Ok(Some(ranges));
  }

  lemma MembersAreNamed(t: seq<Byte>, base: nat)
    requires IsTable(t)
    ensures var r := RangesAt(t, base);
            r.Ok? && r.value.Some? ==>
              forall x: nat :: In(r.value.value, x) <==>
                               exists b :: b in Blocks(t, 48).blocks && Names(t, b, base, x)
  {
    hide RangesAt, In, Names, Blocks;
    var r := RangesAt(t, base);
    if r.Ok? && r.value.Some? {
      forall x: nat
        ensures In(r.value.value, x) <==> exists b :: b in Blocks(t, 48).blocks && Names(t, b, base, x)
      {
        RangesAreNamed(t, base, x, r.value.value);
      }
    }
  }

  lemma NothingGathered(t: seq<Byte>, base: nat)
    ensures Gather(t, [], base) == Gathered(false, false, []) && Fits([], WINDOW_CAPACITY) && UnionAll([]) == []
  {
  }

  /** What earlier blocks gathered is a prefix, so a set they overflow stays overflowed. */
  lemma {:induction false} GatherGrows(t: seq<Byte>, blocks: seq<Block>, i: nat, base: nat)
    requires i <= |blocks| && forall b :: b in blocks ==> b.End() <= |t|
    ensures Gather(t, blocks[..i], base).ranges <= Gather(t, blocks, base).ranges
    ensures Fits(Gather(t, blocks, base).ranges, WINDOW_CAPACITY) ==>
              Fits(Gather(t, blocks[..i], base).ranges, WINDOW_CAPACITY)
    decreases |blocks|
  {
    hide Walk, UnionAll, Fits;
    if i == |blocks| {
      assert blocks[..i] == blocks;
    } else {
      GatherGrows(t, blocks[..|blocks| - 1], i, base);
      assert blocks[..|blocks| - 1][..i] == blocks[..i];
    }
    var a, b := Gather(t, blocks[..i], base).ranges, Gather(t, blocks, base).ranges;
    assert a <= b && b == a + b[|a|..];
    if Fits(b, WINDOW_CAPACITY) {
      FitsPrefix(a, b[|a|..], WINDOW_CAPACITY);
    }
  }

  /** Which requesters the answer holds: those that some entry of some unit at the base stands
      for, and there is an answer only if no such unit includes everything. */
  lemma RangesAreNamed(t: seq<Byte>, base: nat, x: nat, ws: seq<Range>)
    requires IsTable(t) && RangesAt(t, base) == Ok(Some(ws))
    ensures Canonical(ws) && |ws| <= WINDOW_CAPACITY
    ensures forall b :: b in Blocks(t, BLOCKS_OFFSET).blocks && b.Ivhd? && b.base == base ==> !b.includeAll
    ensures In(ws, x) <==> exists b :: b in Blocks(t, BLOCKS_OFFSET).blocks && Names(t, b, base, x)
  {
    hide UnionAll, Blocks;
    var blocks := Blocks(t, BLOCKS_OFFSET).blocks;
    AllInside(t, BLOCKS_OFFSET);
    forall b | b in blocks
      ensures b.End() <= |t| && b.offset < |t| && BlockAt(t, b.offset) == Ok(b)
    {
      var i :| 0 <= i < |blocks| && blocks[i] == b;
      BlocksParse(t, BLOCKS_OFFSET, i);
    }
    var g := Gather(t, blocks, base);
    GatheredShape(t, blocks, base);
    GatheredMembers(t, blocks, base, x);
    UnionAllCanonical(g.ranges);
    assert g.ranges[..|g.ranges|] == g.ranges;
  }

  /** The requesters an entry stands for: its device, or every device from its start to its end
      inclusive; never an alias source. */
  predicate StandsFor(e: DeviceEntry, x: nat) {
    match e
    case Pad => false
    case All(_) => false
    case Select(device, _) => x == device
    case AliasSelect(device, source, _) => x == device
    case ExtendedSelect(device, _, _) => x == device
    case Special(device, _) => x == device
    case AcpiNamed(device, _, _, _, _, _) => x == device
    case DeviceRange(start, end, _) => start <= x <= end
    case AliasRange(start, end, source, _) => start <= x <= end
    case ExtendedRange(start, end, _, _) => start <= x <= end
  }

  lemma NamedMeans(e: DeviceEntry, x: nat)
    ensures Named(e).Some? && Named(e).value.Contains(x) <==> StandsFor(e, x)
  {
  }

  /** Some entry of an IVHD block at the base stands for the requester. */
  ghost predicate Names(t: seq<Byte>, b: Block, base: nat, x: nat) {
    && b.Ivhd? && b.base == base && b.End() <= |t|
    && exists e :: e in EntriesOf(t, b.offset, b.length, b.kind).entries && StandsFor(e, x)
  }

  lemma {:induction false} NamedMembers(es: seq<DeviceEntry>, x: nat)
    ensures In(NamedRanges(es), x) <==> exists e :: e in es && StandsFor(e, x)
    decreases |es|
  {
    if es != [] {
      NamedMembers(es[1..], x);
      NamedMeans(es[0], x);
      hide StandsFor;
      assert forall e :: e in es <==> e == es[0] || e in es[1..];
      if Named(es[0]).Some? {
        InCons(Named(es[0]).value, NamedRanges(es[1..]), x);
      }
    }
  }

  lemma {:induction false} GatheredShape(t: seq<Byte>, blocks: seq<Block>, base: nat)
    requires forall b :: b in blocks ==> b.End() <= |t| && b.offset < |t| && BlockAt(t, b.offset) == Ok(b)
    ensures var g := Gather(t, blocks, base);
            && (forall i :: 0 <= i < |g.ranges| ==> g.ranges[i].Valid() && g.ranges[i].Proper())
            && (g.sawAll <==> exists b :: b in blocks && b.Ivhd? && b.base == base && b.includeAll)
            && (g.foundUnit <==> exists b :: b in blocks && b.Ivhd? && b.base == base)
    decreases |blocks|
  {
    hide Walk, BlockAt, NamedRanges;
    if blocks != [] {
      var init, b := blocks[..|blocks| - 1], blocks[|blocks| - 1];
      assert forall c :: c in blocks <==> c in init || c == b;
      assert b in blocks;
      GatheredShape(t, init, base);
      if b.Ivhd? && b.base == base && !b.includeAll {
        SecondWalkIsClean(t, b.offset);
        NamedAreValid(EntriesOf(t, b.offset, b.length, b.kind).entries);
      }
    }
  }

  lemma {:induction false} GatheredMembers(t: seq<Byte>, blocks: seq<Block>, base: nat, x: nat)
    requires forall b :: b in blocks ==> b.End() <= |t| && b.offset < |t| && BlockAt(t, b.offset) == Ok(b)
    requires forall b :: b in blocks && b.Ivhd? && b.base == base ==> !b.includeAll
    ensures In(Gather(t, blocks, base).ranges, x) <==> exists b :: b in blocks && Names(t, b, base, x)
    decreases |blocks|
  {
    hide Walk, BlockAt, NamedRanges, In, StandsFor;
    if blocks == [] {
      EmptyDenotes([]);
    } else {
      var init, b := blocks[..|blocks| - 1], blocks[|blocks| - 1];
      assert forall c :: c in blocks <==> c in init || c == b;
      assert b in blocks;
      GatheredMembers(t, init, base, x);
      if b.Ivhd? && b.base == base {
        var entries := EntriesOf(t, b.offset, b.length, b.kind).entries;
        NamedMembers(entries, x);
        InAppend(Gather(t, init, base).ranges, NamedRanges(entries), x);
      }
    }
  }

  /** When a set is returned: the table has no broken block, what the units name fits as it is
      inserted, no unit at the base includes everything, and some entry of one of them stands
      for a requester. */
  lemma SetReturnedIff(t: seq<Byte>, base: nat)
    requires IsTable(t)
    ensures forall b :: b in Blocks(t, 48).blocks ==> b.End() <= |t|
    ensures RangesAt(t, base).Ok? && RangesAt(t, base).value.Some? <==>
            && Blocks(t, 48).error.None?
            && Fits(Gather(t, Blocks(t, 48).blocks, base).ranges, 16)
            && (forall b :: b in Blocks(t, 48).blocks && b.Ivhd? && b.base == base ==> !b.includeAll)
            && (exists b, x :: b in Blocks(t, 48).blocks && Names(t, b, base, x))
    ensures RangesAt(t, base).Err? <==>
            !Fits(Gather(t, Blocks(t, 48).blocks, base).ranges, 16) || Blocks(t, 48).error.Some?
  {
    hide UnionAll, Blocks, Fits, Gather, In, Names;
    var blocks := Blocks(t, BLOCKS_OFFSET).blocks;
    AllInside(t, BLOCKS_OFFSET);
    AllParse(t);
    var g := Gather(t, blocks, base);
    GatheredShape(t, blocks, base);
    NonEmptyUnion(g.ranges);
    if !g.sawAll {
      if g.ranges != [] {
        GatheredMembers(t, blocks, base, g.ranges[0].start);
        FirstIsIn(g.ranges);
      }
      if b, x :| b in blocks && Names(t, b, base, x) {
        GatheredMembers(t, blocks, base, x);
        NamingIsUnit(t, b, base, x);
        SomeIfIn(g.ranges, x);
      }
    }
  }

  lemma AllParse(t: seq<Byte>)
    requires IsTable(t)
    ensures forall b :: b in Blocks(t, 48).blocks ==>
              b.End() <= |t| && b.offset < |t| && BlockAt(t, b.offset) == Ok(b)
  {
    forall b | b in Blocks(t, 48).blocks
      ensures b.End() <= |t| && b.offset < |t| && BlockAt(t, b.offset) == Ok(b)
    {
      var i :| 0 <= i < |Blocks(t, 48).blocks| && Blocks(t, 48).blocks[i] == b;
      BlocksParse(t, 48, i);
    }
  }

  lemma NamingIsUnit(t: seq<Byte>, b: Block, base: nat, x: nat)
    requires Names(t, b, base, x)
    ensures b.Ivhd? && b.base == base
  {
  }

  /** An entry names one range at most. */
  lemma {:induction false} FewNamed(es: seq<DeviceEntry>)
    ensures |NamedRanges(es)| <= |es|
    decreases |es|
  {
    if es != [] {
      FewNamed(es[1..]);
    }
  }

  /** The canonical windows of what a list of entries names. */
  lemma WindowsOf(es: seq<DeviceEntry>, x: nat)
    requires forall e :: e in es ==> e.WellFormed()
    ensures In(UnionAll(NamedRanges(es)), x) <==> exists e :: e in es && StandsFor(e, x)
    ensures UnionAll(NamedRanges(es)) != [] <==> exists e, y :: e in es && StandsFor(e, y)
    ensures |es| <= 16 ==> Fits(NamedRanges(es), 16)
  {
    hide UnionAll, Fits, In, StandsFor, NamedRanges;
    NamedAreValid(es);
    NonEmptyUnion(NamedRanges(es));
    UnionAllCanonical(NamedRanges(es));
    NamedMembers(es, x);
    FewNamed(es);
    if |es| <= 16 {
      FewFit(NamedRanges(es), 16);
    }
    if e, y :| e in es && StandsFor(e, y) {
      NamedMembers(es, y);
      SomeIfIn(NamedRanges(es), y);
    } else if NamedRanges(es) != [] {
      FirstIsIn(NamedRanges(es));
      NamedMembers(es, NamedRanges(es)[0].start);
    }
  }

  /** A table whose one block is a unit at the base. */
  lemma OneUnit(t: seq<Byte>, unit: Block, es: seq<DeviceEntry>, base: nat)
    requires IsTable(t) && Blocks(t, 48) == Listed([unit], None)
    requires unit.Ivhd? && unit.base == base && unit.End() <= |t|
    requires EntriesOf(t, unit.offset, unit.length, unit.kind) == Walked(es, None)
    requires unit.includeAll <==> exists e :: e in es && e.All?
    ensures RangesAt(t, base) ==
            if exists e :: e in es && e.All? then Ok(None)
            else if !Fits(NamedRanges(es), 16) then Err(RangesFull)
            else if UnionAll(NamedRanges(es)) == [] then Ok(None)
            else Ok(Some(UnionAll(NamedRanges(es))))
  {
    hide Walk, UnionAll, Fits, Blocks, NamedRanges;
    OneBlock(t, unit, es, base);
    NothingGathered(t, base);
  }

  lemma BlockReadBack(fixed: seq<Byte>, kind: Byte, flags: Byte, idAndCap: nat, base: nat, middle: seq<Byte>,
                      es: seq<DeviceEntry>) returns (unit: Block)
    requires |fixed| == 48 && IsIvhd(kind) && |middle| == FixedLength(kind) - 16
    requires forall e :: e in es ==> e.WellFormed()
    requires 40 + |EncodeEntries(es)| < U16_LIMIT && base + REGISTER_WINDOW_SIZE < U64_LIMIT
    ensures var t := fixed + EncodeIvhd(kind, flags, idAndCap, base, middle, es);
            && IsTable(t) && Blocks(t, 48) == Listed([unit], None)
            && unit.Ivhd? && unit.base == base && unit.End() == |t|
            && EntriesOf(t, unit.offset, unit.length, unit.kind) == Walked(es, None)
            && (unit.includeAll <==> exists e :: e in es && e.All?)
  {
    hide EncodeIvhd, EncodeEntries, Walk, BlockAt;
    var block := EncodeIvhd(kind, flags, idAndCap, base, middle, es);
    var t := fixed + block;
    IvhdRoundTrip(fixed, kind, flags, idAndCap, base, middle, es, []);
    assert t == fixed + block + [];
    unit := BlockAt(t, 48).value;
    assert Blocks(t, unit.End()) == Listed([], None);
    assert [unit] + [] == [unit];
    EntriesReadBack(fixed, kind, flags, idAndCap, base, middle, es);
  }

  /** From the bytes of a block to the answer. A table with one IVHD block, whose entries were
      written out: it answers with a set if and only if no entry is for all devices and some entry
      stands for a requester; the set holds exactly the requesters that the entries stand for;
      and the only error is that 16 windows do not suffice, which 16 entries never cause. */
  lemma QueryRoundTrip(fixed: seq<Byte>, kind: Byte, flags: Byte, idAndCap: nat, base: nat, middle: seq<Byte>,
                       es: seq<DeviceEntry>, x: nat)
    requires |fixed| == 48 && kind in {0x10, 0x11, 0x40} && |middle| == (if kind == 0x10 then 8 else 24)
    requires forall e :: e in es ==> e.WellFormed()
    requires 40 + |EncodeEntries(es)| < U16_LIMIT && base + REGISTER_WINDOW_SIZE < U64_LIMIT
    ensures var t := fixed + EncodeIvhd(kind, flags, idAndCap, base, middle, es);
            IsTable(t) &&
            var r := RangesAt(t, base);
            && (r.Err? ==> r.error == RangesFull && |es| > 16)
            && (r.Ok? ==>
                  (r.value.Some? <==> (forall e :: e in es ==> !e.All?) && exists e, y :: e in es && StandsFor(e, y)))
            && (r.Ok? && r.value.Some? ==> (In(r.value.value, x) <==> exists e :: e in es && StandsFor(e, x)))
  {
    var unit := BlockReadBack(fixed, kind, flags, idAndCap, base, middle, es);
    hide EncodeIvhd, EncodeEntries, Blocks, EntriesOf, RangesAt, UnionAll, Fits, In, StandsFor, NamedRanges;
    OneUnit(fixed + EncodeIvhd(kind, flags, idAndCap, base, middle, es), unit, es, base);
    WindowsOf(es, x);
  }

  lemma EntriesReadBack(fixed: seq<Byte>, kind: Byte, flags: Byte, idAndCap: nat, base: nat, middle: seq<Byte>,
                        es: seq<DeviceEntry>)
    requires IsIvhd(kind) && |middle| == FixedLength(kind) - 16 && forall e :: e in es ==> e.WellFormed()
    ensures var t := fixed + EncodeIvhd(kind, flags, idAndCap, base, middle, es);
            EntriesOf(t, |fixed|, FixedLength(kind) + |EncodeEntries(es)|, kind) == Walked(es, None)
  {
    hide Encode, EncodeEntries, Walk;
    var entries := EncodeEntries(es);
    var t := fixed + EncodeIvhd(kind, flags, idAndCap, base, middle, es);
    var head := fixed + [kind, flags] + Encode(FixedLength(kind) + |entries|, 2) + Encode(idAndCap, 4) + Encode(base, 8)
                + middle;
    assert t == head + entries + [] && |head| == |fixed| + FixedLength(kind);
    RoundTrip(head, es, []);
  }

  lemma OneBlock(t: seq<Byte>, unit: Block, es: seq<DeviceEntry>, base: nat)
    requires unit.Ivhd? && unit.base == base && unit.End() <= |t|
    requires EntriesOf(t, unit.offset, unit.length, unit.kind) == Walked(es, None)
    ensures Gather(t, [unit], base) ==
            if unit.includeAll then Gathered(true, true, []) else Gathered(true, false, NamedRanges(es))
  {
    assert [unit][..0] == [];
    assert Gather(t, [], base) == Gathered(false, false, []);
    assert [] + NamedRanges(es) == NamedRanges(es);
  }
}
