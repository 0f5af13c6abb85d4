/** A table on which the cycle error is returned although the walk would arrive. */
module IortFalseCycle {
  import opened Basics
  import opened Bits
  import opened TableBytes
  import opened Iort
  import opened Walks
  import opened IortWalk
  import opened IortLookup

  function Zeros(n: nat): (b: seq<Byte>)
    ensures |b| == n
  {
    seq(n, _ => 0)
  }

  const ROOT_OFFSET: nat := 48
  const SMMU_OFFSET: nat := 123

  /** Id 0 goes to id 1 at the root complex itself. */
  const ROUND := Mapping(0, 0, 1, ROOT_OFFSET, 0)

  /** Id 1 goes to the SMMU. */
  const ONWARD := Mapping(1, 0, 7, SMMU_OFFSET, 0)

  function Fixed(): (b: seq<Byte>)
    ensures |b| == ROOT_OFFSET
  {
    Zeros(36) + Encode(2, 4) + Encode(ROOT_OFFSET, 4) + Zeros(4)
  }

  function RootBody(): (b: seq<Byte>)
    ensures |b| == 59
  {
    Zeros(19) + EncodeMapping(ROUND) + EncodeMapping(ONWARD)
  }

  /** A fixed header, a root complex with two mappings, and an SMMUv3. */
  function Table(): (t: seq<Byte>)
    ensures |t| == SMMU_OFFSET + 68
  {
    Fixed() + (EncodeHeader(2, 0, 0, 2, 35, 75) + RootBody()) + (EncodeHeader(4, 0, 1, 0, 0, 68) + Zeros(52))
  }

  lemma FixedPart()
    ensures NodeCount(Table()) == 2 && NodeOffset(Table()) == ROOT_OFFSET
  {
    hide Encode, ReadU32, EncodeHeader, RootBody;
    var rest := (EncodeHeader(2, 0, 0, 2, 35, 75) + RootBody()) + (EncodeHeader(4, 0, 1, 0, 0, 68) + Zeros(52));
    ReadEncoded32(Zeros(36), 2, Encode(ROOT_OFFSET, 4) + Zeros(4) + rest);
    ReadEncoded32(Zeros(36) + Encode(2, 4), ROOT_OFFSET, Zeros(4) + rest);
    assert Table() == Zeros(36) + Encode(2, 4) + (Encode(ROOT_OFFSET, 4) + Zeros(4) + rest);
    assert Table() == Zeros(36) + Encode(2, 4) + Encode(ROOT_OFFSET, 4) + (Zeros(4) + rest);
  }

  lemma Headers()
    ensures ParseHeader(Table(), ROOT_OFFSET) == Ok(Header(RootComplex, 2, 35, ROOT_OFFSET, 75))
    ensures ParseHeader(Table(), SMMU_OFFSET) == Ok(Header(SmmuV3, 0, 0, SMMU_OFFSET, 68))
  {
    hide EncodeHeader, ParseHeader, RootBody, Fixed;
    var root, smmu := EncodeHeader(2, 0, 0, 2, 35, 75), EncodeHeader(4, 0, 1, 0, 0, 68);
    HeaderRoundTrip(Fixed(), 2, 0, 0, 2, 35, RootBody(), smmu + Zeros(52));
    HeaderRoundTrip(Fixed() + root + RootBody(), 4, 0, 1, 0, 0, Zeros(52), []);
    assert Table() == Fixed() + root + RootBody() + (smmu + Zeros(52));
    assert Table() == Fixed() + root + RootBody() + smmu + Zeros(52) + [];
  }

  lemma RootMappings()
    ensures Mappings(Table(), Header(RootComplex, 2, 35, ROOT_OFFSET, 75)) == Ok([ROUND, ONWARD])
  {
    hide EncodeHeader, EncodeMapping, ReadMapping, Fixed;
    var t := Table();
    var before := Fixed() + EncodeHeader(2, 0, 0, 2, 35, 75) + Zeros(19);
    var after := EncodeHeader(4, 0, 1, 0, 0, 68) + Zeros(52);
    MappingRoundTrip(before, ROUND, EncodeMapping(ONWARD) + after);
    MappingRoundTrip(before + EncodeMapping(ROUND), ONWARD, after);
    assert t == before + EncodeMapping(ROUND) + (EncodeMapping(ONWARD) + after);
    assert t == before + EncodeMapping(ROUND) + EncodeMapping(ONWARD) + after;
    assert ReadMappings(t, 83, 2) == [ReadMapping(t, 83), ReadMapping(t, 103)];
  }

  /** A step of the iteration whose header parses. */
  lemma NodeFromHeader(t: seq<Byte>, offset: nat)
    requires ParseHeader(t, offset).Ok? && ParseHeader(t, offset).value.kind in {RootComplex, SmmuV3}
    requires ParseHeader(t, offset).value.length >= MinLength(ParseHeader(t, offset).value.kind)
    ensures NodeAt(t, offset).Ok? && NodeAt(t, offset).value.header == ParseHeader(t, offset).value
    ensures NodeAt(t, offset).value.In(t)
  {
  }

  lemma Nodes() returns (root: Node, smmu: Node)
    ensures IsTable(Table()) && root.In(Table()) && smmu.In(Table())
    ensures root.header == Header(RootComplex, 2, 35, ROOT_OFFSET, 75)
    ensures smmu.header == Header(SmmuV3, 0, 0, SMMU_OFFSET, 68)
    ensures NodeByReference(Table(), ROOT_OFFSET) == Ok(Some(root))
    ensures NodeByReference(Table(), SMMU_OFFSET) == Ok(Some(smmu))
  {
    hide ParseHeader, NodeAt, NodeCount, NodeOffset, Table;
    FixedPart();
    Headers();
    var t := Table();
    NodeFromHeader(t, ROOT_OFFSET);
    NodeFromHeader(t, SMMU_OFFSET);
    root, smmu := NodeAt(t, ROOT_OFFSET).value, NodeAt(t, SMMU_OFFSET).value;
    assert FindNode(t, ROOT_OFFSET, 2, ROOT_OFFSET) == Ok(Some(root));
    assert FindNode(t, SMMU_OFFSET, 1, SMMU_OFFSET) == Ok(Some(smmu));
    assert FindNode(t, ROOT_OFFSET, 2, SMMU_OFFSET) == FindNode(t, SMMU_OFFSET, 1, SMMU_OFFSET);
  }

  /** Two mappings of one id each are looked up by their ids. */
  lemma ScanBoth(a: Mapping, b: Mapping)
    requires Sound(a) && Sound(b) && a.idCount == b.idCount == 0 && a.inputBase != b.inputBase
    ensures Scan([a, b], RootComplex, a.inputBase, None) == Some(Target(a.outputBase, a.outputReference))
    ensures Scan([a, b], RootComplex, b.inputBase, None) == Some(Target(b.outputBase, b.outputReference))
  {
    hide Scan;
    var ms := [a, b];
    assert a in ms && b in ms;
    assert Inside(a, RootComplex, a.inputBase) && Inside(b, RootComplex, b.inputBase);
    RangesAreUnambiguous(ms, RootComplex, a.inputBase);
    RangesAreUnambiguous(ms, RootComplex, b.inputBase);
    ScanResolves(ms, RootComplex, a.inputBase);
    ScanResolves(ms, RootComplex, b.inputBase);
  }

  /** From the root complex with id 0 the walk comes back to the root complex with id 1 and then
      arrives at the SMMU, after two steps. But the table has two nodes, so the answer of
      `map_id_to_kind` is the cycle error: a revisited node need not be a cycle. */
  lemma ArrivingWalkReportedAsCycle() returns (root: Node, smmu: Node)
    ensures IsTable(Table()) && root.In(Table()) && TableNode(Table(), root)
    ensures StopsAfter(Onwards(Table(), SmmuV3), Place(root, 0), 2)
    ensures UnboundedAnswer(Table(), Place(root, 0), SmmuV3, 2) == Ok(Some(Place(smmu, 7)))
    ensures forall r :: IsAnswer(Table(), Place(root, 0), SmmuV3, NodeCount(Table()), r) ==> r == Err(Cycle)
  {
    hide Table, NodeByReference, NodeCount, Mappings, Scan;
    root, smmu := Nodes();
    FixedPart();
    RootMappings();
    ScanBoth(ROUND, ONWARD);
    var t := Table();
    assert Advance(t, Place(root, 0), SmmuV3) == Onward(Place(root, 1));
    assert Advance(t, Place(root, 1), SmmuV3) == Onward(Place(smmu, 7));
    assert Advance(t, Place(smmu, 7), SmmuV3) == Arrived(Place(smmu, 7));
    hide Advance;
    assert Visit(Onwards(t, SmmuV3), Place(root, 0), 1) == Some(Place(root, 1));
    assert Visit(Onwards(t, SmmuV3), Place(root, 0), 2) == Some(Place(smmu, 7));
  }
}
