/** Which requesters of a segment its root complex claims: as a set of ranges, and asked
    directly for one requester. */
module IortRoots {
  import opened Basics
  import opened Bits
  import opened TableBytes
  import opened Iort
  import opened IortWalk
  import opened Walks
  import opened BdfRanges
  import opened BdfRangeSets

  const WINDOW_CAPACITY: nat := 16

  /** The requesters a mapping takes in: all of them for a single mapping, and none known if
      the range leaves the 16-bit requester space. It never fails. */
  function InputBdfRange(m: Mapping): (r: Parsed<Option<Range>>)
    ensures r.Ok?
    ensures r.value.Some? ==> r.value.value.Proper()
    ensures r.value.Some? ==> forall x: nat :: r.value.value.Contains(x) <==>
                                                 x <= 0xffff && (m.IsSingle() || m.inputBase <= x <= m.Last())
    ensures r.value.None? <==> !m.IsSingle() && m.Last() > 0xffff
  {
    if m.IsSingle() then
      match Inclusive(0, 0xffff)
      case Good(range) => Ok(Some(range))
      case Bad(_) => Ok(None)
    else if m.inputBase + m.idCount >= U32_LIMIT then Ok(None)
    else if m.inputBase > 0xffff || m.Last() > 0xffff then Ok(None)
    else
      match Inclusive(m.inputBase, m.Last())
      case Good(range) => Ok(Some(range))
      case Bad(_) => Err(Malformed("requester ID range is reversed"))
  }

  // The root complex of a segment.

  predicate IsRoot(node: Node, segment: nat) {
    node.header.kind == RootComplex && node.segment == segment
  }

  /** The last root complex of the segment in what is left of the iteration. */
  function LastRoot(t: seq<Byte>, offset: nat, remaining: nat, segment: nat, found: Option<Node>): Parsed<Option<Node>>
    decreases remaining
  {
    if remaining == 0 then Ok(found)
    else match NodeAt(t, offset)
      case Err(e) => Err(e)
      case Ok(node) =>
        LastRoot(t, node.header.End(), remaining - 1, segment, if IsRoot(node, segment) then Some(node) else found)
  }

  predicate NodesStartInside(t: seq<Byte>)
    requires IsTable(t)
  {
    TABLE_MIN_LENGTH <= NodeOffset(t) <= |t|
  }

  function RootForSegment(t: seq<Byte>, segment: nat): Parsed<Option<Node>>
    requires IsTable(t)
  {
    if !NodesStartInside(t) then Err(Malformed("node array offset is invalid"))
    else LastRoot(t, NodeOffset(t), NodeCount(t), segment, None)
  }

  method FindRootForSegment(t: seq<Byte>, segment: nat) returns (r: Parsed<Option<Node>>)
    requires IsTable(t)
    ensures r == RootForSegment(t, segment)
  {
    hide NodeAt, NodeOffset, NodeCount;
    if !NodesStartInside(t) {
      return Err(Malformed("node array offset is invalid"));
    }
    var found: Option<Node> := None;
    var cursor := new NodeCursor(t, NodeOffset(t), NodeCount(t));
    var more := true;
    while more
      invariant cursor.table == t
      invariant RootForSegment(t, segment) ==
                if more then LastRoot(t, cursor.offset, cursor.remaining, segment, found) else Ok(found)
      decreases more, cursor.remaining
    {
      var item := cursor.Next();
      match item
      case None => more := false;
      case Some(Err(e)) => return Err(e);
      case Some(Ok(node)) =>
        if IsRoot(node, segment) {
          found := Some(node);
        }
    }
    r := Ok(found);
  }

  /** The iteration meets each offset at most once, so a node it yields is the node its
      offset refers to. */
  lemma {:induction false} RootIsTableNode(t: seq<Byte>, offset: nat, remaining: nat, segment: nat, found: Option<Node>,
                                           root: Node)
    requires LastRoot(t, offset, remaining, segment, found) == Ok(Some(root)) && found != Some(root)
    ensures IsRoot(root, segment) && root.header.offset >= offset
    ensures FindNode(t, offset, remaining, root.header.offset) == Ok(Some(root))
    decreases remaining
  {
    var node := NodeAt(t, offset).value;
    var next := if IsRoot(node, segment) then Some(node) else found;
    if next != Some(root) {
      RootIsTableNode(t, node.header.End(), remaining - 1, segment, next, root);
    }
  }

  /** The root of a segment is a root complex of that segment, and a node of the table. */
  lemma RootOfSegment(t: seq<Byte>, segment: nat, root: Node)
    requires IsTable(t) && RootForSegment(t, segment) == Ok(Some(root))
    ensures root.header.kind == RootComplex && root.segment == segment && root.In(t) && TableNode(t, root)
  {
    hide NodeOffset, NodeCount;
    RootIsTableNode(t, NodeOffset(t), NodeCount(t), segment, None, root);
  }

  lemma {:induction false} LaterRootWins(t: seq<Byte>, offset: nat, remaining: nat, segment: nat, found: Node)
    requires found.header.offset <= offset && LastRoot(t, offset, remaining, segment, Some(found)).Ok?
    ensures var r := LastRoot(t, offset, remaining, segment, Some(found)).value;
            r.Some? && r.value.header.offset >= found.header.offset
    decreases remaining
  {
    if remaining > 0 {
      var node := NodeAt(t, offset).value;
      LaterRootWins(t, node.header.End(), remaining - 1, segment, if IsRoot(node, segment) then node else found);
    }
  }

  lemma {:induction false} NoLaterRoot(t: seq<Byte>, offset: nat, remaining: nat, segment: nat, found: Option<Node>,
                                       other: Node)
    requires LastRoot(t, offset, remaining, segment, found).Ok? && IsRoot(other, segment)
    requires FindNode(t, offset, remaining, other.header.offset) == Ok(Some(other))
    ensures var r := LastRoot(t, offset, remaining, segment, found).value;
            r.Some? && r.value.header.offset >= other.header.offset
    decreases remaining
  {
    var node := NodeAt(t, offset).value;
    if offset == other.header.offset {
      LaterRootWins(t, node.header.End(), remaining - 1, segment, other);
    } else {
      NoLaterRoot(t, node.header.End(), remaining - 1, segment, if IsRoot(node, segment) then Some(node) else found, other);
    }
  }

  /** The root found is the last root complex of its segment; none is found only if there is
      none in the table. */
  lemma RootIsLast(t: seq<Byte>, segment: nat, other: Node)
    requires IsTable(t) && RootForSegment(t, segment).Ok?
    requires TableNode(t, other) && other.header.kind == RootComplex && other.segment == segment
    ensures RootForSegment(t, segment).value.Some?
    ensures RootForSegment(t, segment).value.value.header.offset >= other.header.offset
  {
    hide NodeOffset, NodeCount;
    NoLaterRoot(t, NodeOffset(t), NodeCount(t), segment, None, other);
  }

  // Ranges.

  /** The ranges of the mappings that have one, in order. */
  function Claimed(ms: seq<Mapping>): (rs: seq<Range>)
    ensures forall i :: 0 <= i < |rs| ==> rs[i].Valid()
  {
    if ms == [] then []
    else
      var init := Claimed(ms[..|ms| - 1]);
      match InputBdfRange(ms[|ms| - 1]).value
      case None => init
      case Some(range) => init + [range]
  }

  lemma {:induction false} PrefixFits(ms: seq<Mapping>, i: nat)
    requires i <= |ms| && Fits(Claimed(ms), WINDOW_CAPACITY)
    ensures Fits(Claimed(ms[..i]), WINDOW_CAPACITY)
    decreases |ms|
  {
    if i == |ms| {
      assert ms[..i] == ms;
    } else {
      var init := ms[..|ms| - 1];
      var range := InputBdfRange(ms[|ms| - 1]).value;
      if range.Some? {
        FitsStep(Claimed(init), range.value, WINDOW_CAPACITY);
      }
      PrefixFits(init, i);
      assert init[..i] == ms[..i];
    }
  }

  /** What the ranges of a root complex come to. */
  ghost function RangesOf(ms: seq<Mapping>): Parsed<Option<seq<Range>>> {
    if !Fits(Claimed(ms), WINDOW_CAPACITY) then Err(RangesFull)
    else if UnionAll(Claimed(ms)) == [] then Ok(None)
    else Ok(Some(UnionAll(Claimed(ms))))
  }

  ghost function RootRanges(t: seq<Byte>, segment: nat): Parsed<Option<seq<Range>>>
    requires IsTable(t)
  {
    match RootForSegment(t, segment)
    case Err(e) => Err(e)
    case Ok(None) => Ok(None)
    case Ok(Some(root)) =>
      RootOfSegment(t, segment, root);
      match Mappings(t, root.header)
      case Err(e) => Err(e)
      case Ok(ms) => RangesOf(ms)
  }

  /** The loop of `root_complex_bdf_ranges`: every range goes into the bounded set. */
  method CollectRanges(ms: seq<Mapping>) returns (ranges: BdfRangeSet, r: Outcome)
    ensures fresh(ranges) && fresh(ranges.windows) && ranges.Valid()
    ensures r == if Fits(Claimed(ms), WINDOW_CAPACITY) then Pass else Fail(Full)
    ensures r.Pass? ==> ranges.Windows() == UnionAll(Claimed(ms))
  {
    hide UnionAll, Union, InputBdfRange;
    ranges := new BdfRangeSet(WINDOW_CAPACITY);
    NothingClaimed();
    var i := 0;
    while i < |ms|
      invariant 0 <= i <= |ms| && fresh(ranges) && fresh(ranges.windows)
      invariant ranges.Valid() && ranges.windows.Length == WINDOW_CAPACITY
      invariant Fits(Claimed(ms[..i]), WINDOW_CAPACITY) && ranges.Windows() == UnionAll(Claimed(ms[..i]))
    {
      assert ms[..i + 1][..i] == ms[..i];
      var range := InputBdfRange(ms[i]);
      if range.value.Some? {
        FitsStep(Claimed(ms[..i]), range.value.value, WINDOW_CAPACITY);
        UnionAllStep(Claimed(ms[..i]), range.value.value);
        assert Claimed(ms[..i + 1]) == Claimed(ms[..i]) + [range.value.value];
        r := ranges.Insert(range.value.value);
        if r.Fail? {
          if Fits(Claimed(ms), WINDOW_CAPACITY) {
            PrefixFits(ms, i + 1);
          }
          return;
        }
      }
      i := i + 1;
    }
    assert ms[..|ms|] == ms;
    r := Pass;
  }

  lemma NothingClaimed()
    ensures Fits([], WINDOW_CAPACITY) && UnionAll([]) == []
  {
  }

  /** `root_complex_bdf_ranges`. */
  method RootComplexBdfRanges(t: seq<Byte>, segment: nat) returns (r: Parsed<Option<BdfRangeSet>>)
    requires IsTable(t)
    ensures r.Ok? && r.value.Some? ==>
              && fresh(r.value.value) && fresh(r.value.value.windows) && r.value.value.Valid()
              && RootRanges(t, segment) == Ok(Some(r.value.value.Windows()))
    ensures r == Ok(None) ==> RootRanges(t, segment) == Ok(None)
    ensures r.Err? ==> RootRanges(t, segment) == Err(r.error)
  {
    hide Mappings, RootForSegment;
    var found := FindRootForSegment(t, segment);
    if found.Err? {
      return Err(found.error);
    }
    if found.value.None? {
      return Ok(None);
    }
    RootOfSegment(t, segment, found.value.value);
    var ms := Mappings(t, found.value.value.header);
    if ms.Err? {
      return Err(ms.error);
    }
    var ranges, outcome := CollectRanges(ms.value);
    if outcome.Fail? {
      return Err(RangesFull);
    }
    if ranges.count == 0 {
      return Ok(None);
    }
    r := Ok(Some(ranges));
  }

  // Asking for one requester.

  datatype RequesterMatch = Covered | NotCovered | Unresolved

  predicate Takes(m: Mapping, bdf: nat) {
    InputBdfRange(m).value.Some? && InputBdfRange(m).value.value.Contains(bdf)
  }

  ghost function MatchOf(ms: seq<Mapping>, bdf: nat): RequesterMatch {
    if exists m :: m in ms && Takes(m, bdf) then Covered
    else if exists m :: m in ms && InputBdfRange(m).value.None? then Unresolved
    else NotCovered
  }

  ghost function RootMatch(t: seq<Byte>, segment: nat, bdf: nat): Parsed<Option<RequesterMatch>>
    requires IsTable(t)
  {
    match RootForSegment(t, segment)
    case Err(e) => Err(e)
    case Ok(None) => Ok(None)
    case Ok(Some(root)) =>
      RootOfSegment(t, segment, root);
      match Mappings(t, root.header)
      case Err(e) => Err(e)
      case Ok(ms) => Ok(Some(MatchOf(ms, bdf)))
  }

  method MatchMappings(ms: seq<Mapping>, bdf: nat) returns (r: RequesterMatch)
    ensures r == MatchOf(ms, bdf)
  {
    var covered, unresolved := false, false;
    var i := 0;
    while i < |ms|
      invariant 0 <= i <= |ms|
      invariant covered <==> exists j :: 0 <= j < i && Takes(ms[j], bdf)
      invariant unresolved <==> exists j :: 0 <= j < i && InputBdfRange(ms[j]).value.None?
    {
      match InputBdfRange(ms[i]).value {
        case Some(range) =>
          if range.Contains(bdf) {
            covered := true;
          }
        case None => unresolved := true;
      }
      i := i + 1;
    }
    r := if covered then Covered else if unresolved then Unresolved else NotCovered;
  }

  method RootComplexRequesterMatch(t: seq<Byte>, segment: nat, bdf: nat) returns (r: Parsed<Option<RequesterMatch>>)
    requires IsTable(t)
    ensures r == RootMatch(t, segment, bdf)
  {
    hide Mappings, RootForSegment;
    var found := FindRootForSegment(t, segment);
    if found.Err? {
      return Err(found.error);
    }
    if found.value.None? {
      return Ok(None);
    }
    RootOfSegment(t, segment, found.value.value);
    var ms := Mappings(t, found.value.value.header);
    if ms.Err? {
      return Err(ms.error);
    }
    var answer := MatchMappings(ms.value, bdf);
    r := Ok(Some(answer));
  }

  // Both views agree.

  lemma {:induction false} ClaimedMembers(ms: seq<Mapping>, bdf: nat)
    ensures In(Claimed(ms), bdf) <==> exists m :: m in ms && Takes(m, bdf)
    decreases |ms|
  {
    if ms != [] {
      var init, last := ms[..|ms| - 1], ms[|ms| - 1];
      ClaimedMembers(init, bdf);
      assert forall m :: m in ms <==> m in init || m == last;
      if m :| m in init && Takes(m, bdf) {
        assert m in ms;
      }
      var range := InputBdfRange(last).value;
      if range.Some? {
        InAppend(Claimed(init), [range.value], bdf);
        assert [range.value][0] == range.value;
        assert In([range.value], bdf) <==> Takes(last, bdf);
      }
    }
  }

  /** A set of ranges holds a requester if and only if the direct match says Covered. */
  lemma RangesAgreeWithMatch(t: seq<Byte>, segment: nat, bdf: nat, ws: seq<Range>)
    requires IsTable(t) && RootRanges(t, segment) == Ok(Some(ws))
    ensures Canonical(ws) && |ws| <= WINDOW_CAPACITY
    ensures RootMatch(t, segment, bdf).Ok? && RootMatch(t, segment, bdf).value.Some?
    ensures In(ws, bdf) <==> RootMatch(t, segment, bdf).value.value == Covered
  {
    hide RootForSegment, Mappings;
    var root := RootForSegment(t, segment).value.value;
    RootOfSegment(t, segment, root);
    var ms := Mappings(t, root.header).value;
    UnionAllCanonical(Claimed(ms));
    assert Claimed(ms)[..|Claimed(ms)|] == Claimed(ms);
    ClaimedMembers(ms, bdf);
  }

  // The answers without the folds.

  /** The mapping's range is known: it is single, or it ends inside the 16-bit requester space. */
  predicate Resolved(m: Mapping) { m.flags % 2 == 1 || m.inputBase + m.idCount <= 0xffff }

  /** The mapping is known to take the requester in: a single mapping takes in all of them. */
  predicate TakesIn(m: Mapping, bdf: nat) {
    bdf <= 0xffff && Resolved(m) && (m.flags % 2 == 1 || m.inputBase <= bdf <= m.inputBase + m.idCount)
  }

  lemma TakesMeans(m: Mapping, bdf: nat)
    ensures Takes(m, bdf) <==> TakesIn(m, bdf)
    ensures InputBdfRange(m).value.Some? <==> Resolved(m)
  {
  }

  /** The match: Covered if some mapping takes the requester in; Unresolved if none does but some
      mapping's range is not known; NotCovered otherwise. */
  lemma VerdictMeans(ms: seq<Mapping>, bdf: nat)
    ensures MatchOf(ms, bdf) == Covered <==> exists m :: m in ms && TakesIn(m, bdf)
    ensures MatchOf(ms, bdf) == Unresolved <==>
            (forall m :: m in ms ==> !TakesIn(m, bdf)) && exists m :: m in ms && !Resolved(m)
    ensures MatchOf(ms, bdf) == NotCovered <==>
            forall m :: m in ms ==> !TakesIn(m, bdf) && Resolved(m)
  {
    forall m
      ensures Takes(m, bdf) <==> TakesIn(m, bdf)
      ensures InputBdfRange(m).value.Some? <==> Resolved(m)
    {
      TakesMeans(m, bdf);
    }
    hide Takes, TakesIn, Resolved, InputBdfRange;
  }

  lemma {:induction false} SomethingClaimed(ms: seq<Mapping>)
    ensures Claimed(ms) != [] <==> exists m :: m in ms && Resolved(m)
    ensures forall i :: 0 <= i < |Claimed(ms)| ==> Claimed(ms)[i].Proper()
    decreases |ms|
  {
    hide Resolved;
    if ms != [] {
      var init, last := ms[..|ms| - 1], ms[|ms| - 1];
      SomethingClaimed(init);
      TakesMeans(last, 0);
      assert forall m :: m in ms <==> m in init || m == last;
    }
  }

  /** When a set is returned for a root complex: its ranges fit as they are inserted, and some
      mapping's range is known. The set holds exactly the requesters taken in. */
  lemma RangesReturnedIff(ms: seq<Mapping>, bdf: nat)
    ensures RangesOf(ms).Ok? && RangesOf(ms).value.Some? <==>
            Fits(Claimed(ms), 16) && exists m :: m in ms && Resolved(m)
    ensures RangesOf(ms) == Err(RangesFull) <==> !Fits(Claimed(ms), 16)
    ensures RangesOf(ms).Ok? && RangesOf(ms).value.Some? ==>
              (In(RangesOf(ms).value.value, bdf) <==> exists m :: m in ms && TakesIn(m, bdf))
  {
    hide Fits, Claimed, UnionAll, Takes, TakesIn, Resolved, In;
    SomethingClaimed(ms);
    NonEmptyUnion(Claimed(ms));
    UnionAllCanonical(Claimed(ms));
    assert Claimed(ms)[..|Claimed(ms)|] == Claimed(ms);
    ClaimedMembers(ms, bdf);
    forall m
      ensures Takes(m, bdf) <==> TakesIn(m, bdf)
    {
      TakesMeans(m, bdf);
    }
  }

  /** A root complex of the segment was found, and these are its mappings. */
  ghost predicate RootHas(t: seq<Byte>, segment: nat, ms: seq<Mapping>)
    requires IsTable(t)
  {
    && RootForSegment(t, segment).Ok? && RootForSegment(t, segment).value.Some?
    && RootForSegment(t, segment).value.value.In(t)
    && Mappings(t, RootForSegment(t, segment).value.value.header) == Ok(ms)
  }

  /** Both queries on a root complex with these mappings: a set is returned if and only if its
      ranges fit and some range is known, and then it holds exactly the requesters taken in; the
      match has the three verdicts. */
  lemma QueriesMean(t: seq<Byte>, segment: nat, bdf: nat, ms: seq<Mapping>)
    requires IsTable(t) && RootHas(t, segment, ms)
    ensures var r := RootRanges(t, segment);
            && (r.Ok? && r.value.Some? <==>
                Fits(Claimed(ms), 16) && exists m :: m in ms && Resolved(m))
            && (r.Err? ==> r.error == RangesFull)
            && (r.Ok? && r.value.Some? ==> (In(r.value.value, bdf) <==> exists m :: m in ms && TakesIn(m, bdf)))
    ensures var v := RootMatch(t, segment, bdf);
            && v.Ok? && v.value.Some?
            && (v.value.value == Covered <==> exists m :: m in ms && TakesIn(m, bdf))
            && (v.value.value == NotCovered <==> forall m :: m in ms ==> !TakesIn(m, bdf) && Resolved(m))
  {
    hide RootForSegment, Mappings, Fits, Claimed, UnionAll, TakesIn, Resolved, In, MatchOf;
    RootOfSegment(t, segment, RootForSegment(t, segment).value.value);
    RangesReturnedIff(ms, bdf);
    VerdictMeans(ms, bdf);
  }

  /** With no root complex of the segment there is no answer, and an error is passed on. */
  lemma NoRootNoAnswer(t: seq<Byte>, segment: nat, bdf: nat)
    requires IsTable(t)
    ensures RootForSegment(t, segment) == Ok(None) ==>
              RootRanges(t, segment) == Ok(None) && RootMatch(t, segment, bdf) == Ok(None)
    ensures RootForSegment(t, segment).Err? ==>
              RootRanges(t, segment) == Err(RootForSegment(t, segment).error)
              && RootMatch(t, segment, bdf) == Err(RootForSegment(t, segment).error)
  {
  }

  /** A requester id that some mapping of a root complex translates is in the mapping's range,
      or that range is unresolved. */
  lemma TranslatedIsTaken(m: Mapping, kind: NodeKind, bdf: nat)
    requires bdf <= 0xffff && Translate(m, kind, bdf).Some?
    ensures Takes(m, bdf) || InputBdfRange(m).value.None?
  {
  }

  lemma {:induction false} ScanUsesAMapping(ms: seq<Mapping>, kind: NodeKind, id: nat, fallback: Option<Target>)
    requires Scan(ms, kind, id, fallback).Some? && fallback.None?
    ensures exists m :: m in ms && Translate(m, kind, id).Some?
    decreases |ms|
  {
    if Translate(ms[0], kind, id).None? {
      ScanUsesAMapping(ms[1..], kind, id, fallback);
      var m :| m in ms[1..] && Translate(m, kind, id).Some?;
      assert m in ms;
    }
  }

  /** A requester that translates at its root complex is never NotCovered. */
  lemma TranslatingIsNotRejected(t: seq<Byte>, segment: nat, bdf: nat, root: Node)
    requires IsTable(t) && RootForSegment(t, segment) == Ok(Some(root)) && root.In(t) && bdf <= 0xffff
    requires TranslateOnce(t, root, bdf).Ok? && TranslateOnce(t, root, bdf).value.Some?
    ensures RootMatch(t, segment, bdf) in {Ok(Some(Covered)), Ok(Some(Unresolved))}
  {
    hide RootForSegment, Mappings;
    RootOfSegment(t, segment, root);
    var ms := Mappings(t, root.header).value;
    ScanUsesAMapping(ms, root.header.kind, bdf, None);
    var m :| m in ms && Translate(m, root.header.kind, bdf).Some?;
    TranslatedIsTaken(m, root.header.kind, bdf);
  }

  /** `map_pci_requester_to_kind`: the walk from the root complex of the requester's segment. */
  method MapRequesterToKind(t: seq<Byte>, segment: nat, bdf: nat, target: NodeKind) returns (r: Parsed<Option<Place>>)
    requires IsTable(t)
    ensures match RootForSegment(t, segment)
            case Err(e) => r == Err(e)
            case Ok(None) => r == Ok(None)
            case Ok(Some(root)) => root.In(t) && IsAnswer(t, Place(root, bdf), target, NodeCount(t), r)
  {
    hide RootForSegment, IsAnswer, NodeCount;
    var found := FindRootForSegment(t, segment);
    if found.Err? {
      return Err(found.error);
    }
    if found.value.None? {
      return Ok(None);
    }
    RootOfSegment(t, segment, found.value.value);
    r := MapIdToKind(t, found.value.value, bdf, target);
  }

  /** The walk and the match agree: a requester whose walk arrives at another kind of node,
      such as an SMMU, is never NotCovered at its root complex. */
  lemma ArrivingIsNotRejected(t: seq<Byte>, segment: nat, bdf: nat, target: NodeKind, root: Node,
                              r: Parsed<Option<Place>>)
    requires IsTable(t) && RootForSegment(t, segment) == Ok(Some(root)) && root.In(t) && bdf <= 0xffff
    requires target != RootComplex && r.Ok? && r.value.Some?
    requires IsAnswer(t, Place(root, bdf), target, NodeCount(t), r)
    ensures RootMatch(t, segment, bdf) in {Ok(Some(Covered)), Ok(Some(Unresolved))}
  {
    hide RootForSegment, RootMatch, NodeCount;
    RootOfSegment(t, segment, root);
    var start := Place(root, bdf);
    RootHasBudget(t, root);
    if !Advance(t, start, target).Onward? {
      assert Visit(Onwards(t, target), start, 0) == Some(start);
      assert StopsAfter(Onwards(t, target), start, 0);
      assert r == UnboundedAnswer(t, start, target, 0);
    }
    TranslatingIsNotRejected(t, segment, bdf, root);
  }

  lemma RootHasBudget(t: seq<Byte>, root: Node)
    requires TableNode(t, root)
    ensures NodeCount(t) > 0
  {
  }
}
