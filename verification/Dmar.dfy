/** The remapping structures of an Intel DMAR table, and the requesters a DRHD unit covers: as
    a set of ranges, and asked directly for one requester. A table here is the validated SDT,
    so it is at least 48 bytes long. */
module Dmar {
  import opened Basics
  import opened Bits
  import opened TableBytes
  import opened BdfRanges
  import opened BdfRangeSets

  const STRUCTURES_OFFSET: nat := 48
  const SCOPE_HEADER_LENGTH: nat := 6
  const DRHD_MIN_LENGTH: nat := 16
  const RMRR_MIN_LENGTH: nat := 24
  const RHSA_MIN_LENGTH: nat := 20
  const PLAIN_MIN_LENGTH: nat := 8
  const REGISTER_WINDOW_SIZE: nat := 0x1000
  const WINDOW_CAPACITY: nat := 16

  predicate IsTable(t: seq<Byte>) {
    STRUCTURES_OFFSET <= |t| < U32_LIMIT
  }

  // Device scopes.

  datatype Scope = Scope(kind: nat, flags: nat, enumerationId: nat, startBus: nat, path: seq<Byte>,
                         requester: Option<nat>, length: nat)
  {
    /** What a scope record can hold. Its requester is known only for a path of one hop: the
        device byte, then the function byte, below the start bus. */
    predicate WellFormed() {
      && kind < 256 && flags < 256 && enumerationId < 256 && startBus < 256
      && |path| % 2 == 0 && length == 6 + |path| < 256
      && requester == if |path| == 2 && path[0] < 32 && path[1] < 8 then Some(startBus * 256 + path[0] * 8 + path[1])
                      else None
    }
  }

  /** `Bdf::new`. */
  function NewBdf(bus: nat, device: nat, function_: nat): (r: Option<nat>)
    requires bus < 256
    ensures r.Some? <==> device < 32 && function_ < 8
    ensures r.Some? ==> r.value < BDF_LIMIT
  {
    if device >= 32 || function_ >= 8 then None else Some(bus * 256 + device * 8 + function_)
  }

  /** A requester id gives back its bus, device and function. */
  lemma BdfFields(bus: nat, device: nat, function_: nat)
    requires bus < 256 && device < 32 && function_ < 8
    ensures var r := NewBdf(bus, device, function_);
            r.Some? && r.value / 256 == bus && r.value % 256 / 8 == device && r.value % 256 % 8 == function_
  {
    DivModUnique(bus * 256 + device * 8 + function_, 256, bus, device * 8 + function_);
    DivModUnique(device * 8 + function_, 8, device, function_);
  }

  /** The requester of a path that is one device below the start bus. */
  function SingleRequester(path: seq<Byte>, startBus: nat): Option<nat>
    requires startBus < 256
  {
    if |path| / 2 != 1 then None else NewBdf(startBus, path[0], path[1])
  }

  function ScopeAt(t: seq<Byte>, at: nat, end: nat): (r: Parsed<Scope>)
    requires at < end <= |t|
    ensures r.Ok? ==> r.value.length >= SCOPE_HEADER_LENGTH && at + r.value.length <= end
    ensures r.Ok? ==> r.value.WellFormed()
  {
    if at + SCOPE_HEADER_LENGTH > end then Err(Malformed("device scope truncated before fixed header"))
    else
      var length := t[at + 1];
      if length < SCOPE_HEADER_LENGTH then Err(Malformed("device scope shorter than minimum"))
      else if at + length > end then Err(Malformed("device scope extends past structure"))
      else if (length - SCOPE_HEADER_LENGTH) % 2 != 0 then Err(Malformed("device scope path has odd byte length"))
      else
        var path := t[at + SCOPE_HEADER_LENGTH..at + length];
        Ok(Scope(t[at], t[at + 2], t[at + 4], t[at + 5], path, SingleRequester(path, t[at + 5]), length))
  }

  /** When a scope is accepted: a header of six bytes, a length that covers it, stays inside the
      structure and leaves a path of whole hops. */
  lemma ScopeAccepted(t: seq<Byte>, at: nat, end: nat)
    requires at < end <= |t|
    ensures ScopeAt(t, at, end).Ok? <==>
            at + 6 <= end && 6 <= t[at + 1] && at + t[at + 1] <= end && t[at + 1] % 2 == 0
  {
  }

  /** The scopes a walk passes to its callback, and the error that ended it, if any. */
  datatype ScopeWalk = ScopeWalk(scopes: seq<Scope>, error: Option<ParseError>)

  function Scopes(t: seq<Byte>, at: nat, end: nat): (w: ScopeWalk)
    requires end <= |t|
    ensures forall s :: s in w.scopes ==> s.WellFormed()
    decreases end - at
  {
    if at >= end then ScopeWalk([], None)
    else match ScopeAt(t, at, end)
      case Err(e) => ScopeWalk([], Some(e))
      case Ok(scope) =>
        var rest := Scopes(t, at + scope.length, end);
        ScopeWalk([scope] + rest.scopes, rest.error)
  }

  /** `walk_device_scopes`. */
  method WalkDeviceScopes(t: seq<Byte>, structureOffset: nat, scopesOffset: nat, structureLength: nat)
    returns (scopes: seq<Scope>, error: Option<ParseError>)
    requires structureOffset + structureLength <= |t|
    ensures ScopeWalk(scopes, error) == Scopes(t, structureOffset + scopesOffset, structureOffset + structureLength)
  {
    hide ScopeAt;
    var offset := scopesOffset;
    scopes, error := [], None;
    ghost var end := structureOffset + structureLength;
    while offset < structureLength
      invariant Scopes(t, structureOffset + scopesOffset, end) ==
                ScopeWalk(scopes + Scopes(t, structureOffset + offset, end).scopes,
                          Scopes(t, structureOffset + offset, end).error)
      decreases structureLength - offset
    {
      var scope := ScopeAt(t, structureOffset + offset, structureOffset + structureLength);
      if scope.Err? {
        return scopes, Some(scope.error);
      }
      scopes := scopes + [scope.value];
      offset := offset + scope.value.length;
    }
  }

  // Writing scopes, and reading them back.

  function EncodeScopes(ss: seq<Scope>): seq<Byte>
    requires forall s :: s in ss ==> s.WellFormed()
  {
    if ss == [] then [] else EncodeScope(ss[0]) + EncodeScopes(ss[1..])
  }

  function EncodeScope(s: Scope): (b: seq<Byte>)
    requires s.WellFormed()
    ensures |b| == s.length
  {
    [s.kind, s.length, s.flags, 0, s.enumerationId, s.startBus] + s.path
  }

  /** Scopes written anywhere in a table are walked back, in order, with no error. */
  lemma {:induction false} ScopesRoundTrip(before: seq<Byte>, ss: seq<Scope>, after: seq<Byte>)
    requires forall s :: s in ss ==> s.WellFormed()
    ensures var end := |before| + |EncodeScopes(ss)|;
            Scopes(before + EncodeScopes(ss) + after, |before|, end) == ScopeWalk(ss, None)
    decreases |ss|
  {
    hide ScopeAt, EncodeScope;
    if ss != [] {
      var b, rest := EncodeScope(ss[0]), EncodeScopes(ss[1..]);
      var t := before + EncodeScopes(ss) + after;
      assert t == before + b + (rest + after) && t == (before + b) + rest + after;
      ScopeRoundTrip(before, ss[0], rest + after, |before| + |EncodeScopes(ss)|);
      ScopesRoundTrip(before + b, ss[1..], after);
    }
  }

  lemma ScopeRoundTrip(before: seq<Byte>, s: Scope, after: seq<Byte>, end: nat)
    requires s.WellFormed() && |before| + s.length <= end <= |before| + s.length + |after|
    ensures ScopeAt(before + EncodeScope(s) + after, |before|, end) == Ok(s)
  {
    var b := EncodeScope(s);
    var t := before + b + after;
    assert t[|before|..|before| + s.length] == b;
    assert t[|before| + SCOPE_HEADER_LENGTH..|before| + s.length] == s.path;
  }

  // Structures.

  /** The fields the requester queries use; a register window is named by its base. */
  datatype Structure =
    | Drhd(segment: nat, base: nat, includeAll: bool, offset: nat, length: nat)
    | Other(kind: nat, offset: nat, length: nat)
  {
    predicate In(t: seq<Byte>) { offset + length <= |t| }
    predicate IsUnit(registers: nat) { Drhd? && base == registers }
  }

  function ParseDrhd(t: seq<Byte>, offset: nat, length: nat): Parsed<Structure>
    requires offset + length <= |t|
  {
    if length < DRHD_MIN_LENGTH then Err(Malformed("DRHD structure shorter than minimum"))
    else
      var base := ReadU64(t, offset + 8).value;
      if base + REGISTER_WINDOW_SIZE >= U64_LIMIT then Err(Malformed("DRHD register window overflows"))
      else Ok(Drhd(ReadU16(t, offset + 6).value, base, t[offset + 4] % 2 == 1, offset, length))
  }

  /** Why a structure other than a DRHD does not parse, if it does not. */
  function OtherError(t: seq<Byte>, offset: nat, length: nat, kind: nat): Option<ParseError>
    requires offset + length <= |t|
  {
    if kind == 1 then
      if length < RMRR_MIN_LENGTH then Some(Malformed("RMRR structure shorter than minimum"))
      else if ReadU64(t, offset + 16).value < ReadU64(t, offset + 8).value then
        Some(Malformed("RMRR limit smaller than base"))
      else if ReadU64(t, offset + 16).value + 1 >= U64_LIMIT then Some(Malformed("RMRR inclusive limit overflows"))
      else None
    else if kind == 3 then
      if length < RHSA_MIN_LENGTH then Some(Malformed("RHSA structure shorter than minimum"))
      else if ReadU64(t, offset + 8).value + REGISTER_WINDOW_SIZE >= U64_LIMIT then
        Some(Malformed("RHSA register window overflows"))
      else None
    else if kind in {2, 4, 5, 6} && length < PLAIN_MIN_LENGTH then Some(Malformed("structure shorter than minimum"))
    else None
  }

  function ParseStructure(t: seq<Byte>, offset: nat, length: nat, kind: nat): (r: Parsed<Structure>)
    requires offset + length <= |t|
    ensures r.Ok? ==> r.value.offset == offset && r.value.length == length
    ensures r.Ok? ==> (r.value.Drhd? <==> kind == 0)
  {
    if kind == 0 then ParseDrhd(t, offset, length)
    else match OtherError(t, offset, length, kind)
      case Some(e) => Err(e)
      case None => Ok(Other(kind, offset, length))
  }

  function StructureAt(t: seq<Byte>, offset: nat): (r: Parsed<Structure>)
    requires offset < |t|
    ensures r.Ok? ==> r.value.offset == offset && FrameAt(t, offset) == Ok(r.value.length)
  {
    match FrameAt(t, offset)
    case Err(e) => Err(e)
    case Ok(length) => ParseStructure(t, offset, length, ReadU16(t, offset).value)
  }

  /** When a structure with a sound header is accepted, by its 16-bit type: a DRHD or an RHSA has its
      fixed part and a 4 KiB register window inside the address space; an RMRR has its fixed part
      and a range that is not reversed; types 2 and 4 to 6 have 8 bytes; others are passed over. */
  lemma StructureAccepted(t: seq<Byte>, offset: nat)
    requires offset < |t|
    ensures StructureAt(t, offset).Ok? <==>
            FrameAt(t, offset).Ok? &&
            var kind, length := ReadU16(t, offset).value, FrameAt(t, offset).value;
            if kind == 0 then length >= 16 && ReadU64(t, offset + 8).value + 0x1000 < 0x1_0000_0000_0000_0000
            else if kind == 1 then
              length >= 24 && ReadU64(t, offset + 8).value <= ReadU64(t, offset + 16).value < 0xffff_ffff_ffff_ffff
            else if kind == 3 then length >= 20 && ReadU64(t, offset + 8).value + 0x1000 < 0x1_0000_0000_0000_0000
            else kind in {2, 4, 5, 6} ==> length >= 8
  {
    hide FrameAt;
  }

  function EncodeDrhd(flags: Byte, size: Byte, segment: nat, base: nat, scopes: seq<Byte>): (b: seq<Byte>)
    ensures |b| == 16 + |scopes|
  {
    [0, 0] + Encode(16 + |scopes|, 2) + [flags, size] + Encode(segment, 2) + Encode(base, 8) + scopes
  }

  /** A unit written anywhere in a table is read back, with its place and its scopes. */
  lemma DrhdRoundTrip(before: seq<Byte>, flags: Byte, size: Byte, segment: nat, base: nat, ss: seq<Scope>,
                      after: seq<Byte>)
    requires forall s :: s in ss ==> s.WellFormed()
    requires DRHD_MIN_LENGTH + |EncodeScopes(ss)| < U16_LIMIT
    requires segment < U16_LIMIT && base + REGISTER_WINDOW_SIZE < U64_LIMIT
    ensures var t := before + EncodeDrhd(flags, size, segment, base, EncodeScopes(ss)) + after;
            var unit := Drhd(segment, base, flags % 2 == 1, |before|, DRHD_MIN_LENGTH + |EncodeScopes(ss)|);
            StructureAt(t, |before|) == Ok(unit) && ScopesOf(t, unit) == ScopeWalk(ss, None)
  {
    hide ReadU16, ReadU64, Encode, Scopes, EncodeScopes;
    var scopes := EncodeScopes(ss);
    var length := DRHD_MIN_LENGTH + |scopes|;
    var t := before + EncodeDrhd(flags, size, segment, base, scopes) + after;
    var fixed := before + [0, 0] + Encode(length, 2) + [flags, size];
    ReadEncoded16(before + [0, 0], length, [flags, size] + Encode(segment, 2) + Encode(base, 8) + scopes + after);
    ReadEncoded16(fixed, segment, Encode(base, 8) + scopes + after);
    ReadEncoded64(fixed + Encode(segment, 2), base, scopes + after);
    assert t == before + [0, 0] + Encode(length, 2)
                + ([flags, size] + Encode(segment, 2) + Encode(base, 8) + scopes + after);
    assert t == fixed + Encode(segment, 2) + (Encode(base, 8) + scopes + after);
    assert t == fixed + Encode(segment, 2) + Encode(base, 8) + (scopes + after);
    assert t[|before| + 4] == flags;
    ZeroKind(t, |before|);
    var head := fixed + Encode(segment, 2) + Encode(base, 8);
    assert t == head + scopes + after && |head| == |before| + DRHD_MIN_LENGTH;
    ScopesRoundTrip(head, ss, after);
  }

  lemma ZeroKind(t: seq<Byte>, at: nat)
    requires at + 2 <= |t| && t[at] == 0 && t[at + 1] == 0
    ensures ReadU16(t, at) == Ok(0)
  {
    assert t[at..at + 2] == [0, 0];
    LittleCons2(t[at..at + 2], 0);
  }

  /** The structure iterator: `DmarStructures`. */
  class StructureCursor {
    const table: seq<Byte>
    var offset: nat

    constructor (table: seq<Byte>, offset: nat)
      ensures this.table == table && this.offset == offset
    {
      this.table, this.offset := table, offset;
    }

    method Next() returns (item: Option<Parsed<Structure>>)
      modifies this
      ensures item == if old(offset) >= |table| then None else Some(StructureAt(table, old(offset)))
      ensures offset == if old(offset) >= |table| then old(offset)
                        else match FrameAt(table, old(offset))
                             case Err(_) => |table|
                             case Ok(length) => old(offset) + length
    {
      hide ParseStructure;
      if offset >= |table| {
        return None;
      }
      if offset + 4 > |table| {
        offset := |table|;
        return Some(Err(Malformed("block truncated before header")));
      }
      var here, kind := offset, ReadU16(table, offset).value;
      var length := ReadU16(table, offset + 2).value;
      if length < 4 {
        offset := |table|;
        return Some(Err(Malformed("block length smaller than header")));
      }
      if here + length > |table| {
        offset := |table|;
        return Some(Err(Malformed("block extends past table length")));
      }
      offset := offset + length;
      item := Some(ParseStructure(table, here, length, kind));
    }
  }

  /** The structures met before the end of the table or the first error, and that error. */
  datatype Listed = Listed(structures: seq<Structure>, error: Option<ParseError>)

  function Structures(t: seq<Byte>, offset: nat): (l: Listed)
    ensures forall s :: s in l.structures ==> s.In(t)
    decreases |t| - offset
  {
    if offset >= |t| then Listed([], None)
    else match StructureAt(t, offset)
      case Err(e) => Listed([], Some(e))
      case Ok(s) =>
        var rest := Structures(t, offset + s.length);
        Listed([s] + rest.structures, rest.error)
  }

  // The ranges of one unit.

  function ScopesOf(t: seq<Byte>, s: Structure): ScopeWalk
    requires s.In(t)
  {
    Scopes(t, s.offset + DRHD_MIN_LENGTH, s.offset + s.length)
  }

  function Requesters(scopes: seq<Scope>): seq<Range> {
    if scopes == [] then []
    else match scopes[0].requester
      case None => Requesters(scopes[1..])
      case Some(bdf) => [Single(bdf)] + Requesters(scopes[1..])
  }

  predicate HasUnresolved(scopes: seq<Scope>) {
    exists s :: s in scopes && s.requester.None?
  }

  /** The state of the range query between structures; a failed walk ends it. */
  datatype Gathered = Gathered(foundUnit: bool, unresolved: bool, ranges: seq<Range>, error: Option<ParseError>)

  const NOTHING := Gathered(false, false, [], None)

  function AddUnit(t: seq<Byte>, g: Gathered, s: Structure, base: nat): Gathered
    requires s.In(t)
  {
    if g.error.Some? || !s.IsUnit(base) then g
    else if s.includeAll then g.(foundUnit := true)
    else
      var walk := ScopesOf(t, s);
      Gathered(true, g.unresolved || HasUnresolved(walk.scopes), g.ranges + Requesters(walk.scopes), walk.error)
  }

  function Gather(t: seq<Byte>, structures: seq<Structure>, base: nat, g: Gathered): Gathered
    requires forall s :: s in structures ==> s.In(t)
  {
    if structures == [] then g else Gather(t, structures[1..], base, AddUnit(t, g, structures[0], base))
  }

  /** What the requesters of the unit at `base` come to: an overflow of the bounded set is
      reported before a later error is met. */
  ghost function RangesAt(t: seq<Byte>, base: nat): Parsed<Option<seq<Range>>>
    requires IsTable(t)
  {
    var listed := Structures(t, STRUCTURES_OFFSET);
    var g := Gather(t, listed.structures, base, NOTHING);
    if !Fits(g.ranges, WINDOW_CAPACITY) then Err(RangesFull)
    else if g.error.Some? then Err(g.error.value)
    else if listed.error.Some? then Err(listed.error.value)
    else if !g.foundUnit || g.unresolved || UnionAll(g.ranges) == [] then Ok(None)
    else Ok(Some(UnionAll(g.ranges)))
  }

  lemma {:induction false} RequestersAreValid(scopes: seq<Scope>)
    requires forall s :: s in scopes ==> s.WellFormed()
    ensures forall i :: 0 <= i < |Requesters(scopes)| ==> Requesters(scopes)[i].Valid()
    decreases |scopes|
  {
    if scopes != [] {
      assert scopes[0] in scopes;
      RequestersAreValid(scopes[1..]);
    }
  }

  method AnyUnresolved(scopes: seq<Scope>) returns (r: bool)
    ensures r == HasUnresolved(scopes)
  {
    r := false;
    for i := 0 to |scopes|
      invariant r <==> exists j :: 0 <= j < i && scopes[j].requester.None?
    {
      if scopes[i].requester.None? {
        r := true;
      }
    }
  }

  /** One structure of the range query. */
  method AddStructure(t: seq<Byte>, g: Gathered, s: Structure, base: nat, ranges: BdfRangeSet)
    returns (h: Gathered, r: Outcome)
    requires s.In(t) && g.error.None?
    requires ranges.Valid() && Fits(g.ranges, ranges.windows.Length) && ranges.Windows() == UnionAll(g.ranges)
    modifies ranges`count, ranges.windows
    ensures h == AddUnit(t, g, s, base) && ranges.Valid()
    ensures r == if Fits(h.ranges, ranges.windows.Length) then Pass else Fail(Full)
    ensures r.Pass? ==> ranges.Windows() == UnionAll(h.ranges)
  {
    hide UnionAll, Fits;
    if !s.IsUnit(base) {
      return g, Pass;
    }
    if s.includeAll {
      return g.(foundUnit := true), Pass;
    }
    var scopes, error := WalkDeviceScopes(t, s.offset, DRHD_MIN_LENGTH, s.length);
    assert ScopeWalk(scopes, error) == ScopesOf(t, s);
    RequestersAreValid(scopes);
    var unresolved := AnyUnresolved(scopes);
    r := InsertEach(ranges, Requesters(scopes), g.ranges);
    h := Gathered(true, g.unresolved || unresolved, g.ranges + Requesters(scopes), error);
  }

  /** `drhd_bdf_ranges`. */
  method DrhdBdfRanges(t: seq<Byte>, base: nat) returns (r: Parsed<Option<BdfRangeSet>>)
    requires IsTable(t)
    ensures r.Ok? && r.value.Some? ==>
              && fresh(r.value.value) && fresh(r.value.value.windows) && r.value.value.Valid()
              && RangesAt(t, base) == Ok(Some(r.value.value.Windows()))
    ensures r == Ok(None) ==> RangesAt(t, base) == Ok(None)
    ensures r.Err? ==> RangesAt(t, base) == Err(r.error)
  {
    hide StructureAt, UnionAll, Fits, AddUnit;
    var ranges := new BdfRangeSet(WINDOW_CAPACITY);
    var cursor := new StructureCursor(t, STRUCTURES_OFFSET);
    var g := NOTHING;
    ghost var listed := Structures(t, STRUCTURES_OFFSET);
    ghost var all := Gather(t, listed.structures, base, NOTHING);
    NothingFits();
    while cursor.offset < |t|
      invariant fresh(ranges) && fresh(ranges.windows) && fresh(cursor) && cursor.table == t
      invariant ranges.Valid() && ranges.windows.Length == WINDOW_CAPACITY
      invariant listed.error == Structures(t, cursor.offset).error
      invariant all == Gather(t, Structures(t, cursor.offset).structures, base, g)
      invariant g.error.None?
      invariant Fits(g.ranges, WINDOW_CAPACITY) && ranges.Windows() == UnionAll(g.ranges)
      decreases |t| - cursor.offset
    {
      ghost var rest := Structures(t, cursor.offset);
      var item := cursor.Next();
      if item.value.Err? {
        return Err(item.value.error);
      }
      assert rest.structures[1..] == Structures(t, cursor.offset).structures;
      var h, outcome := AddStructure(t, g, item.value.value, base, ranges);
      if outcome.Fail? {
        GatherGrows(t, rest.structures[1..], base, h);
        return Err(RangesFull);
      }
      g := h;
      if g.error.Some? {
        GatherStops(t, rest.structures[1..], base, g);
        return Err(g.error.value);
      }
    }
    if !g.foundUnit || g.unresolved || ranges.count == 0 {
      return Ok(None);
    }
    r := Ok(Some(ranges));
  }

  lemma NothingFits()
    ensures Fits([], WINDOW_CAPACITY) && UnionAll([]) == []
  {
  }

  lemma {:induction false} GatherStops(t: seq<Byte>, structures: seq<Structure>, base: nat, g: Gathered)
    requires forall s :: s in structures ==> s.In(t)
    requires g.error.Some?
    ensures Gather(t, structures, base, g) == g
    decreases |structures|
  {
    if structures != [] {
      GatherStops(t, structures[1..], base, g);
    }
  }

  /** A set that has overflowed stays overflowed. */
  lemma {:induction false} GatherGrows(t: seq<Byte>, structures: seq<Structure>, base: nat, g: Gathered)
    requires forall s :: s in structures ==> s.In(t)
    ensures Fits(Gather(t, structures, base, g).ranges, WINDOW_CAPACITY) ==> Fits(g.ranges, WINDOW_CAPACITY)
    decreases |structures|
  {
    hide Fits, ScopesOf;
    if structures != [] {
      var h := AddUnit(t, g, structures[0], base);
      GatherGrows(t, structures[1..], base, h);
      if Fits(h.ranges, WINDOW_CAPACITY) && h.ranges != g.ranges {
        FitsPrefix(g.ranges, Requesters(ScopesOf(t, structures[0]).scopes), WINDOW_CAPACITY);
      }
    }
  }

  // Asking for one requester.

  datatype RequesterMatch = Covered | NotCovered | Unresolved

  predicate AnyHas(scopes: seq<Scope>, bdf: nat) {
    exists s :: s in scopes && s.requester == Some(bdf)
  }

  /** The answer of one unit, or the error of its walk. */
  function UnitMatch(t: seq<Byte>, s: Structure, segment: nat, bdf: nat): Parsed<RequesterMatch>
    requires s.In(t) && s.Drhd?
  {
    if s.segment != segment then Ok(NotCovered)
    else if s.includeAll then Ok(Covered)
    else
      var walk := ScopesOf(t, s);
      if walk.error.Some? then Err(walk.error.value)
      else if AnyHas(walk.scopes, bdf) then Ok(Covered)
      else if HasUnresolved(walk.scopes) then Ok(Unresolved)
      else Ok(NotCovered)
  }

  /** The answer of the last unit at the base, or the first error. */
  function MatchFrom(t: seq<Byte>, structures: seq<Structure>, base: nat, segment: nat, bdf: nat,
                     found: Option<RequesterMatch>): Parsed<Option<RequesterMatch>>
    requires forall s :: s in structures ==> s.In(t)
  {
    if structures == [] then Ok(found)
    else if !structures[0].IsUnit(base) then MatchFrom(t, structures[1..], base, segment, bdf, found)
    else
      match UnitMatch(t, structures[0], segment, bdf)
      case Err(e) => Err(e)
      case Ok(m) => MatchFrom(t, structures[1..], base, segment, bdf, Some(m))
  }

  function MatchAt(t: seq<Byte>, base: nat, segment: nat, bdf: nat): Parsed<Option<RequesterMatch>>
    requires IsTable(t)
  {
    var listed := Structures(t, STRUCTURES_OFFSET);
    match MatchFrom(t, listed.structures, base, segment, bdf, None)
    case Err(e) => Err(e)
    case Ok(found) => if listed.error.Some? then Err(listed.error.value) else Ok(found)
  }

  /** The callback of `drhd_requester_match` on a unit. */
  method MatchUnit(t: seq<Byte>, s: Structure, segment: nat, bdf: nat) returns (r: Parsed<RequesterMatch>)
    requires s.In(t) && s.Drhd?
    ensures r == UnitMatch(t, s, segment, bdf)
  {
    hide Scopes;
    if s.segment != segment {
      return Ok(NotCovered);
    }
    if s.includeAll {
      return Ok(Covered);
    }
    var scopes, error := WalkDeviceScopes(t, s.offset, DRHD_MIN_LENGTH, s.length);
    if error.Some? {
      return Err(error.value);
    }
    var exactMatch, unresolved := false, false;
    for i := 0 to |scopes|
      invariant exactMatch <==> exists j :: 0 <= j < i && scopes[j].requester == Some(bdf)
      invariant unresolved <==> exists j :: 0 <= j < i && scopes[j].requester.None?
    {
      match scopes[i].requester {
        case Some(requester) =>
          if Single(requester).Contains(bdf) {
            exactMatch := true;
          }
        case None => unresolved := true;
      }
    }
    assert exactMatch == AnyHas(scopes, bdf) && unresolved == HasUnresolved(scopes);
    r := Ok(if exactMatch then Covered else if unresolved then Unresolved else NotCovered);
  }

  /** `drhd_requester_match`. */
  method DrhdRequesterMatch(t: seq<Byte>, base: nat, segment: nat, bdf: nat)
    returns (r: Parsed<Option<RequesterMatch>>)
    requires IsTable(t)
    ensures r == MatchAt(t, base, segment, bdf)
    ensures LastDecidesTable(t, base, segment, bdf, r)
  {
    MatchDecides(t, base, segment, bdf);
    hide StructureAt, UnitMatch, LastDecidesTable;
    var found: Option<RequesterMatch> := None;
    var cursor := new StructureCursor(t, STRUCTURES_OFFSET);
    ghost var listed := Structures(t, STRUCTURES_OFFSET);
    ghost var whole := MatchFrom(t, listed.structures, base, segment, bdf, None);
    while cursor.offset < |t|
      invariant cursor.table == t && fresh(cursor)
      invariant listed.error == Structures(t, cursor.offset).error
      invariant whole == MatchFrom(t, Structures(t, cursor.offset).structures, base, segment, bdf, found)
      decreases |t| - cursor.offset
    {
      ghost var rest := Structures(t, cursor.offset);
      var item := cursor.Next();
      if item.value.Err? {
        return Err(item.value.error);
      }
      var s := item.value.value;
      assert rest.structures[1..] == Structures(t, cursor.offset).structures;
      if s.IsUnit(base) {
        var answer := MatchUnit(t, s, segment, bdf);
        if answer.Err? {
          return Err(answer.error);
        }
        found := Some(answer.value);
      }
    }
    r := Ok(found);
  }

  // Both views agree.

  /** Only structure `i` is a unit at the base. */
  predicate Unique(structures: seq<Structure>, i: nat, base: nat) {
    i < |structures| && forall j :: 0 <= j < |structures| ==> (structures[j].IsUnit(base) <==> j == i)
  }

  lemma {:induction false} NoMoreUnits(t: seq<Byte>, structures: seq<Structure>, base: nat, segment: nat, bdf: nat,
                                       g: Gathered, found: Option<RequesterMatch>)
    requires forall s :: s in structures ==> s.In(t)
    requires forall j :: 0 <= j < |structures| ==> !structures[j].IsUnit(base)
    ensures Gather(t, structures, base, g) == g
    ensures MatchFrom(t, structures, base, segment, bdf, found) == Ok(found)
    decreases |structures|
  {
    if structures != [] {
      NoMoreUnits(t, structures[1..], base, segment, bdf, g, found);
    }
  }

  lemma {:induction false} OneUnit(t: seq<Byte>, structures: seq<Structure>, i: nat, base: nat, segment: nat, bdf: nat)
    requires forall s :: s in structures ==> s.In(t)
    requires Unique(structures, i, base)
    ensures structures[i].In(t)
    ensures Gather(t, structures, base, NOTHING) == AddUnit(t, NOTHING, structures[i], base)
    ensures UnitMatch(t, structures[i], segment, bdf).Ok? ==>
              MatchFrom(t, structures, base, segment, bdf, None) ==
              Ok(Some(UnitMatch(t, structures[i], segment, bdf).value))
    decreases i
  {
    hide AddUnit, UnitMatch;
    assert structures[i] in structures && structures[0] in structures;
    if i == 0 {
      var g := AddUnit(t, NOTHING, structures[0], base);
      var m := UnitMatch(t, structures[0], segment, bdf);
      NoMoreUnits(t, structures[1..], base, segment, bdf, g, if m.Ok? then Some(m.value) else None);
    } else {
      NotAUnit(t, NOTHING, structures[0], base);
      OneUnit(t, structures[1..], i - 1, base, segment, bdf);
    }
  }

  lemma NotAUnit(t: seq<Byte>, g: Gathered, s: Structure, base: nat)
    requires s.In(t) && !s.IsUnit(base)
    ensures AddUnit(t, g, s, base) == g
  {
  }

  lemma {:induction false} RequesterMembers(scopes: seq<Scope>, bdf: nat)
    ensures In(Requesters(scopes), bdf) <==> AnyHas(scopes, bdf)
    decreases |scopes|
  {
    if scopes != [] {
      RequesterMembers(scopes[1..], bdf);
      assert forall s :: s in scopes <==> s == scopes[0] || s in scopes[1..];
      if scopes[0].requester.Some? {
        InCons(Single(scopes[0].requester.value), Requesters(scopes[1..]), bdf);
      }
    }
  }

  // The answers in terms of the units' scopes.

  /** A unit whose registers are at the base. */
  predicate UnitAt(s: Structure, base: nat) { s.Drhd? && s.base == base }

  /** The unit's scopes are asked, and their walk fails. */
  predicate BrokenFor(t: seq<Byte>, s: Structure, base: nat, segment: nat)
    requires s.In(t)
  {
    UnitAt(s, base) && s.segment == segment && !s.includeAll && ScopesOf(t, s).error.Some?
  }

  /** The verdict of a unit: a unit for everything covers each requester of its segment; another
      covers those that are the requester of some scope; if none is, but some scope's requester is
      not known, the answer is open. */
  ghost predicate IsVerdict(t: seq<Byte>, s: Structure, segment: nat, bdf: nat, m: RequesterMatch)
    requires s.In(t) && s.Drhd?
  {
    var scopes := ScopesOf(t, s).scopes;
    && (m == Covered <==>
        s.segment == segment && (s.includeAll || exists x :: x in scopes && x.requester == Some(bdf)))
    && (m == Unresolved <==>
        && s.segment == segment && !s.includeAll
        && (forall x :: x in scopes ==> x.requester != Some(bdf))
        && exists x :: x in scopes && x.requester == None)
  }

  lemma UnitMatchMeans(t: seq<Byte>, s: Structure, base: nat, segment: nat, bdf: nat)
    requires s.In(t) && UnitAt(s, base)
    ensures var r := UnitMatch(t, s, segment, bdf);
            && (r.Err? <==> BrokenFor(t, s, base, segment))
            && (r.Err? ==> Some(r.error) == ScopesOf(t, s).error)
            && (r.Ok? ==> IsVerdict(t, s, segment, bdf, r.value))
  {
    hide Scopes;
  }

  ghost predicate LastUnit(structures: seq<Structure>, i: nat, base: nat) {
    i < |structures| && UnitAt(structures[i], base) && forall j :: i < j < |structures| ==> !UnitAt(structures[j], base)
  }

  ghost predicate FirstBroken(t: seq<Byte>, structures: seq<Structure>, i: nat, base: nat, segment: nat)
    requires forall s :: s in structures ==> s.In(t)
  {
    && i < |structures| && BrokenFor(t, structures[i], base, segment)
    && forall j :: 0 <= j < i ==> !BrokenFor(t, structures[j], base, segment)
  }

  ghost predicate NoneBroken(t: seq<Byte>, structures: seq<Structure>, base: nat, segment: nat)
    requires forall s :: s in structures ==> s.In(t)
  {
    forall s :: s in structures ==> !BrokenFor(t, s, base, segment)
  }

  /** The first unit whose walk fails gives the error. */
  lemma {:induction false} BrokenAnswers(t: seq<Byte>, structures: seq<Structure>, i: nat, base: nat, segment: nat,
                                         bdf: nat, found: Option<RequesterMatch>)
    requires forall s :: s in structures ==> s.In(t)
    requires FirstBroken(t, structures, i, base, segment)
    ensures structures[i].In(t) && ScopesOf(t, structures[i]).error.Some?
    ensures MatchFrom(t, structures, base, segment, bdf, found) == Err(ScopesOf(t, structures[i]).error.value)
    decreases i
  {
    hide UnitMatch, ScopesOf, IsVerdict;
    var s := structures[0];
    assert s in structures && structures[i] in structures;
    if UnitAt(s, base) {
      UnitMatchMeans(t, s, base, segment, bdf);
    }
    if i > 0 {
      var next := if UnitAt(s, base) then Some(UnitMatch(t, s, segment, bdf).value) else found;
      BrokenAnswers(t, structures[1..], i - 1, base, segment, bdf, next);
    }
  }

  /** With no failing walk, no unit leaves the earlier answer as it is. */
  lemma {:induction false} SoundAnswers(t: seq<Byte>, structures: seq<Structure>, base: nat, segment: nat, bdf: nat,
                                        found: Option<RequesterMatch>)
    requires forall s :: s in structures ==> s.In(t)
    requires NoneBroken(t, structures, base, segment)
    ensures MatchFrom(t, structures, base, segment, bdf, found).Ok?
    ensures (forall s :: s in structures ==> !UnitAt(s, base)) ==>
              MatchFrom(t, structures, base, segment, bdf, found) == Ok(found)
    decreases |structures|
  {
    hide UnitMatch, BrokenFor, IsVerdict;
    if structures != [] {
      var s := structures[0];
      assert s in structures;
      if UnitAt(s, base) {
        UnitMatchMeans(t, s, base, segment, bdf);
        SoundAnswers(t, structures[1..], base, segment, bdf, Some(UnitMatch(t, s, segment, bdf).value));
      } else {
        SoundAnswers(t, structures[1..], base, segment, bdf, found);
      }
    }
  }

  /** With no failing walk, the last unit decides. */
  lemma {:induction false} LastDecides(t: seq<Byte>, structures: seq<Structure>, i: nat, base: nat, segment: nat, bdf: nat,
                                       found: Option<RequesterMatch>)
    requires forall s :: s in structures ==> s.In(t)
    requires NoneBroken(t, structures, base, segment) && LastUnit(structures, i, base)
    ensures structures[i].In(t)
    ensures var r := MatchFrom(t, structures, base, segment, bdf, found);
            r.Ok? && r.value.Some? && IsVerdict(t, structures[i], segment, bdf, r.value.value)
    decreases i
  {
    hide UnitMatch, BrokenFor, IsVerdict;
    var s := structures[0];
    assert s in structures && structures[i] in structures;
    if UnitAt(s, base) {
      UnitMatchMeans(t, s, base, segment, bdf);
    }
    var next := if UnitAt(s, base) then Some(UnitMatch(t, s, segment, bdf).value) else found;
    if i == 0 {
      SoundAnswers(t, structures[1..], base, segment, bdf, next);
    } else {
      LastDecides(t, structures[1..], i - 1, base, segment, bdf, next);
    }
  }

  /** The last unit at the base decides. */
  ghost predicate LastDecidesTable(t: seq<Byte>, base: nat, segment: nat, bdf: nat, r: Parsed<Option<RequesterMatch>>)
    requires IsTable(t)
  {
    forall i: nat :: r.Ok? && LastUnit(Structures(t, 48).structures, i, base) ==>
                       r.value.Some? && IsVerdict(t, Structures(t, 48).structures[i], segment, bdf, r.value.value)
  }

  /** The match on a whole table. It fails exactly if a unit's walk fails or the table has a broken
      structure, and the first unit with a failing walk gives the error; with no unit at the base
      there is no answer; otherwise the last unit at the base decides. */
  lemma MatchMeans(t: seq<Byte>, base: nat, segment: nat, bdf: nat)
    requires IsTable(t)
    ensures var listed, r := Structures(t, 48), MatchAt(t, base, segment, bdf);
            && (r.Ok? <==> NoneBroken(t, listed.structures, base, segment) && listed.error == None)
            && (forall i: nat :: FirstBroken(t, listed.structures, i, base, segment) ==>
                  r.Err? && ScopesOf(t, listed.structures[i]).error == Some(r.error))
            && (NoneBroken(t, listed.structures, base, segment) && listed.error.Some? ==> r == Err(listed.error.value))
            && (r.Ok? && (forall s :: s in listed.structures ==> !UnitAt(s, base)) ==> r.value == None)
            && LastDecidesTable(t, base, segment, bdf, r)
  {
    hide Structures, MatchFrom, BrokenFor, IsVerdict, ScopesOf;
    var structures := Structures(t, STRUCTURES_OFFSET).structures;
    if NoneBroken(t, structures, base, segment) {
      SoundAnswers(t, structures, base, segment, bdf, None);
      forall i: nat | LastUnit(structures, i, base)
        ensures var r := MatchFrom(t, structures, base, segment, bdf, None);
                r.value.Some? && structures[i].In(t) && IsVerdict(t, structures[i], segment, bdf, r.value.value)
      {
        LastDecides(t, structures, i, base, segment, bdf, None);
      }
    } else {
      var i := SomeFirstBroken(t, structures, base, segment);
      BrokenAnswers(t, structures, i, base, segment, bdf, None);
    }
    forall i: nat | FirstBroken(t, structures, i, base, segment)
      ensures structures[i].In(t) && ScopesOf(t, structures[i]).error.Some?
      ensures MatchFrom(t, structures, base, segment, bdf, None) == Err(ScopesOf(t, structures[i]).error.value)
    {
      BrokenAnswers(t, structures, i, base, segment, bdf, None);
    }
  }

  lemma MatchDecides(t: seq<Byte>, base: nat, segment: nat, bdf: nat)
    requires IsTable(t)
    ensures LastDecidesTable(t, base, segment, bdf, MatchAt(t, base, segment, bdf))
  {
    hide MatchAt, LastDecidesTable, NoneBroken, FirstBroken;
    MatchMeans(t, base, segment, bdf);
  }

  lemma SomeFirstBroken(t: seq<Byte>, structures: seq<Structure>, base: nat, segment: nat) returns (i: nat)
    requires forall s :: s in structures ==> s.In(t)
    requires !NoneBroken(t, structures, base, segment)
    ensures FirstBroken(t, structures, i, base, segment)
  {
    hide BrokenFor;
    i := 0;
    while !(structures[i] in structures && BrokenFor(t, structures[i], base, segment))
      invariant i < |structures|
      invariant forall j :: 0 <= j < i ==> !BrokenFor(t, structures[j], base, segment)
      decreases |structures| - i
    {
      i := i + 1;
    }
  }

  /** A scope of a unit at the base that is not for everything. */
  ghost predicate ScopeAtBase(t: seq<Byte>, s: Structure, base: nat, x: Scope)
    requires s.In(t)
  {
    UnitAt(s, base) && !s.includeAll && x in ScopesOf(t, s).scopes
  }

  predicate WalkFails(t: seq<Byte>, s: Structure, base: nat)
    requires s.In(t)
  {
    UnitAt(s, base) && !s.includeAll && ScopesOf(t, s).error.Some?
  }

  lemma {:induction false} RequestersProper(scopes: seq<Scope>)
    requires forall s :: s in scopes ==> s.WellFormed()
    ensures forall i :: 0 <= i < |Requesters(scopes)| ==> Requesters(scopes)[i].Proper()
    decreases |scopes|
  {
    if scopes != [] {
      assert scopes[0] in scopes;
      RequestersProper(scopes[1..]);
    }
  }

  /** One unit more: what it adds to the fold. */
  lemma AddMeans(t: seq<Byte>, g: Gathered, s: Structure, base: nat, bdf: nat)
    requires s.In(t) && g.error.None? && !WalkFails(t, s, base)
    requires forall i :: 0 <= i < |g.ranges| ==> g.ranges[i].Proper()
    ensures var h := AddUnit(t, g, s, base);
            && h.error.None? && (forall i :: 0 <= i < |h.ranges| ==> h.ranges[i].Proper())
            && (h.foundUnit <==> g.foundUnit || UnitAt(s, base))
            && (h.unresolved <==> g.unresolved || exists x :: ScopeAtBase(t, s, base, x) && x.requester == None)
            && (In(h.ranges, bdf) <==>
                In(g.ranges, bdf) || exists x :: ScopeAtBase(t, s, base, x) && x.requester == Some(bdf))
  {
    hide Scopes, In;
    if UnitAt(s, base) && !s.includeAll {
      var scopes := ScopesOf(t, s).scopes;
      RequestersProper(scopes);
      RequesterMembers(scopes, bdf);
      InAppend(g.ranges, Requesters(scopes), bdf);
    }
  }

  ghost predicate SomeScope(t: seq<Byte>, structures: seq<Structure>, base: nat, requester: Option<nat>)
    requires forall s :: s in structures ==> s.In(t)
  {
    exists s, x :: s in structures && ScopeAtBase(t, s, base, x) && x.requester == requester
  }

  lemma {:induction false} GatherMeans(t: seq<Byte>, structures: seq<Structure>, base: nat, g: Gathered, bdf: nat)
    requires forall s :: s in structures ==> s.In(t) && !WalkFails(t, s, base)
    requires g.error.None? && forall i :: 0 <= i < |g.ranges| ==> g.ranges[i].Proper()
    ensures var h := Gather(t, structures, base, g);
            && h.error.None? && (forall i :: 0 <= i < |h.ranges| ==> h.ranges[i].Proper())
            && (h.foundUnit <==> g.foundUnit || exists s :: s in structures && UnitAt(s, base))
            && (h.unresolved <==> g.unresolved || SomeScope(t, structures, base, None))
            && (In(h.ranges, bdf) <==> In(g.ranges, bdf) || SomeScope(t, structures, base, Some(bdf)))
    decreases |structures|
  {
    hide AddUnit, WalkFails, ScopeAtBase, In, UnitAt;
    if structures != [] {
      var s := structures[0];
      assert s in structures;
      AddMeans(t, g, s, base, bdf);
      GatherMeans(t, structures[1..], base, AddUnit(t, g, s, base), bdf);
      assert forall u :: u in structures <==> u == s || u in structures[1..];
    }
  }

  lemma {:induction false} GatherFails(t: seq<Byte>, structures: seq<Structure>, base: nat, g: Gathered, s: Structure)
    requires forall s :: s in structures ==> s.In(t)
    requires s in structures && WalkFails(t, s, base)
    ensures Gather(t, structures, base, g).error.Some?
    decreases |structures|
  {
    hide ScopesOf;
    assert structures[0] in structures;
    var h := AddUnit(t, g, structures[0], base);
    if structures[0] == s {
      GatherStops(t, structures[1..], base, h);
    } else {
      GatherFails(t, structures[1..], base, h, s);
    }
  }

  /** When a set is returned: no structure is broken, no unit's walk fails, the requesters fit as
      they are inserted, some scope of a unit at the base has a known requester, and each has. The
      set holds exactly those requesters. */
  lemma SetReturnedIff(t: seq<Byte>, base: nat, bdf: nat)
    requires IsTable(t)
    ensures var structures, r := Structures(t, 48).structures, RangesAt(t, base);
            && (r.Ok? && r.value.Some? <==>
                && Structures(t, 48).error.None?
                && (forall s :: s in structures ==> !WalkFails(t, s, base))
                && Fits(Gather(t, structures, base, NOTHING).ranges, 16)
                && !SomeScope(t, structures, base, None)
                && exists x: nat :: SomeScope(t, structures, base, Some(x)))
            && (r.Ok? && r.value.Some? ==> (In(r.value.value, bdf) <==> SomeScope(t, structures, base, Some(bdf))))
  {
    hide Structures, Gather, UnionAll, Fits, WalkFails, SomeScope, In, UnitAt;
    var structures := Structures(t, STRUCTURES_OFFSET).structures;
    var g := Gather(t, structures, base, NOTHING);
    NothingIn(bdf);
    if s :| s in structures && WalkFails(t, s, base) {
      GatherFails(t, structures, base, NOTHING, s);
    } else {
      GatherMeans(t, structures, base, NOTHING, bdf);
      NonEmptyUnion(g.ranges);
      UnionAllCanonical(g.ranges);
      if x: nat :| SomeScope(t, structures, base, Some(x)) {
        GatherMeans(t, structures, base, NOTHING, x);
        SomeIfIn(g.ranges, x);
        ScopeNeedsUnit(t, structures, base, Some(x));
      } else if g.ranges != [] {
        FirstIsIn(g.ranges);
        NothingIn(g.ranges[0].start);
        GatherMeans(t, structures, base, NOTHING, g.ranges[0].start);
      }
    }
  }

  lemma NothingIn(x: nat)
    ensures !In(NOTHING.ranges, x)
  {
  }

  lemma ScopeNeedsUnit(t: seq<Byte>, structures: seq<Structure>, base: nat, requester: Option<nat>)
    requires forall s :: s in structures ==> s.In(t)
    requires SomeScope(t, structures, base, requester)
    ensures exists s :: s in structures && UnitAt(s, base)
  {
  }

  lemma OneStructure(fixed: seq<Byte>, flags: Byte, size: Byte, segment: nat, base: nat, ss: seq<Scope>)
    returns (unit: Structure)
    requires |fixed| == 48 && forall s :: s in ss ==> s.WellFormed()
    requires 16 + |EncodeScopes(ss)| < U16_LIMIT && segment < U16_LIMIT && base + REGISTER_WINDOW_SIZE < U64_LIMIT
    ensures var t := fixed + EncodeDrhd(flags, size, segment, base, EncodeScopes(ss));
            && IsTable(t) && Structures(t, 48) == Listed([unit], None)
            && unit.Drhd? && unit.segment == segment && unit.base == base && unit.includeAll == (flags % 2 == 1)
            && unit.In(t) && ScopesOf(t, unit) == ScopeWalk(ss, None)
  {
    hide EncodeDrhd, EncodeScopes, Scopes, StructureAt;
    var t := fixed + EncodeDrhd(flags, size, segment, base, EncodeScopes(ss));
    DrhdRoundTrip(fixed, flags, size, segment, base, ss, []);
    assert t == t + [];
    unit := StructureAt(t, 48).value;
    assert Structures(t, |t|) == Listed([], None);
    assert [unit] + [] == [unit];
  }

  /** From the bytes of a unit to the match. A table with one DRHD whose scopes were written out:
      a unit for everything covers each requester of its segment; another covers the requesters
      of its scopes, is open if a scope has none, and otherwise covers nothing. */
  lemma MatchRoundTrip(fixed: seq<Byte>, flags: Byte, size: Byte, segment: nat, base: nat, ss: seq<Scope>,
                       asked: nat, bdf: nat)
    requires |fixed| == 48 && forall s :: s in ss ==> s.WellFormed()
    requires 16 + |EncodeScopes(ss)| < U16_LIMIT && segment < U16_LIMIT && base + REGISTER_WINDOW_SIZE < U64_LIMIT
    ensures var t := fixed + EncodeDrhd(flags, size, segment, base, EncodeScopes(ss));
            IsTable(t) &&
            MatchAt(t, base, asked, bdf) == Ok(Some(
              if asked != segment then NotCovered
              else if flags % 2 == 1 || exists s :: s in ss && s.requester == Some(bdf) then Covered
              else if exists s :: s in ss && s.requester == None then Unresolved
              else NotCovered))
  {
    var unit := OneStructure(fixed, flags, size, segment, base, ss);
    var t := fixed + EncodeDrhd(flags, size, segment, base, EncodeScopes(ss));
    hide EncodeDrhd, EncodeScopes, Structures, ScopesOf, MatchAt;
    assert [unit][0] == unit;
    MatchMeans(t, base, asked, bdf);
    assert LastUnit([unit], 0, base);
  }

  /** From the bytes of a unit to its set: returned if the unit is not for everything, has scopes,
      at most 16 of them, and each has a requester; and it holds exactly those requesters. */
  lemma SetRoundTrip(fixed: seq<Byte>, flags: Byte, size: Byte, segment: nat, base: nat, ss: seq<Scope>, bdf: nat)
    requires |fixed| == 48 && forall s :: s in ss ==> s.WellFormed()
    requires 16 + |EncodeScopes(ss)| < U16_LIMIT && segment < U16_LIMIT && base + REGISTER_WINDOW_SIZE < U64_LIMIT
    ensures var t := fixed + EncodeDrhd(flags, size, segment, base, EncodeScopes(ss));
            IsTable(t) &&
            var r := RangesAt(t, base);
            && (r.Ok? && r.value.Some? ==>
                  && flags % 2 == 0 && ss != [] && (forall s :: s in ss ==> s.requester.Some?)
                  && (In(r.value.value, bdf) <==> exists s :: s in ss && s.requester == Some(bdf)))
            && (flags % 2 == 0 && 0 < |ss| <= 16 && (forall s :: s in ss ==> s.requester.Some?) ==>
                  r.Ok? && r.value.Some?)
  {
    var unit := OneStructure(fixed, flags, size, segment, base, ss);
    var t := fixed + EncodeDrhd(flags, size, segment, base, EncodeScopes(ss));
    hide EncodeDrhd, EncodeScopes, Structures, ScopesOf, RangesAt, In, Gather, Fits, WalkFails;
    SetReturnedIff(t, base, bdf);
    ScopesOfOne(t, unit, base, ss, bdf);
    hide SomeScope;
    FewRequesters(ss);
  }

  lemma ScopesOfOne(t: seq<Byte>, unit: Structure, base: nat, ss: seq<Scope>, bdf: nat)
    requires unit.In(t) && UnitAt(unit, base) && ScopesOf(t, unit) == ScopeWalk(ss, None)
    ensures !WalkFails(t, unit, base)
    ensures forall q :: SomeScope(t, [unit], base, q) <==> !unit.includeAll && exists s :: s in ss && s.requester == q
    ensures ss != [] && (forall s :: s in ss ==> s.requester.Some?) && !unit.includeAll ==>
              exists x: nat :: SomeScope(t, [unit], base, Some(x))
    ensures Gather(t, [unit], base, NOTHING).ranges == if unit.includeAll then [] else Requesters(ss)
  {
    hide Scopes;
    assert unit in [unit] && [unit][1..] == [];
    assert [] + Requesters(ss) == Requesters(ss);
    if ss != [] && (forall s :: s in ss ==> s.requester.Some?) && !unit.includeAll {
      assert ss[0] in ss && ScopeAtBase(t, unit, base, ss[0]);
      assert SomeScope(t, [unit], base, Some(ss[0].requester.value));
    }
    forall q
      ensures SomeScope(t, [unit], base, q) <==> !unit.includeAll && exists s :: s in ss && s.requester == q
    {
      if s :| s in ss && s.requester == q && !unit.includeAll {
        assert ScopeAtBase(t, unit, base, s);
      }
    }
  }

  lemma FewRequesters(ss: seq<Scope>)
    ensures |ss| <= 16 ==> Fits(Requesters(ss), 16) && Fits([], 16)
  {
    if |ss| <= 16 {
      RequesterCount(ss);
      FewFit(Requesters(ss), 16);
      FewFit([], 16);
    }
  }

  lemma {:induction false} RequesterCount(ss: seq<Scope>)
    ensures |Requesters(ss)| <= |ss|
    decreases |ss|
  {
    if ss != [] {
      RequesterCount(ss[1..]);
    }
  }

  /** If one unit has the register window, and its segment is the requester's, a set of ranges
      holds the requester if and only if the direct match says Covered. */
  lemma RangesAgreeWithMatch(t: seq<Byte>, base: nat, segment: nat, bdf: nat, i: nat, ws: seq<Range>)
    requires IsTable(t) && Unique(Structures(t, STRUCTURES_OFFSET).structures, i, base)
    requires Structures(t, STRUCTURES_OFFSET).structures[i].segment == segment
    requires RangesAt(t, base) == Ok(Some(ws))
    ensures Canonical(ws) && |ws| <= WINDOW_CAPACITY
    ensures MatchAt(t, base, segment, bdf) == Ok(Some(if In(ws, bdf) then Covered else NotCovered))
  {
    hide Structures, UnionAll, Scopes;
    var structures := Structures(t, STRUCTURES_OFFSET).structures;
    var unit := structures[i];
    assert unit in structures;
    OneUnit(t, structures, i, base, segment, bdf);
    var g := AddUnit(t, NOTHING, unit, base);
    EmptyUnion();
    var scopes := ScopesOf(t, unit).scopes;
    assert g.ranges == Requesters(scopes);
    RequestersAreValid(scopes);
    UnionAllCanonical(g.ranges);
    assert g.ranges[..|g.ranges|] == g.ranges;
    RequesterMembers(scopes, bdf);
  }

  lemma EmptyUnion()
    ensures UnionAll([]) == []
  {
  }

  /** A unit in another segment is never said to cover a requester. */
  lemma OtherSegmentNotCovered(t: seq<Byte>, base: nat, segment: nat, bdf: nat, i: nat)
    requires IsTable(t) && Unique(Structures(t, STRUCTURES_OFFSET).structures, i, base)
    requires Structures(t, STRUCTURES_OFFSET).structures[i].segment != segment
    requires Structures(t, STRUCTURES_OFFSET).error.None?
    ensures MatchAt(t, base, segment, bdf) == Ok(Some(NotCovered))
  {
    hide Structures;
    OneUnit(t, Structures(t, STRUCTURES_OFFSET).structures, i, base, segment, bdf);
  }
}
