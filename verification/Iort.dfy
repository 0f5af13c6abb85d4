/**
 The ARM IORT node graph, read from table bytes: nodes, references between them, and
 their ID mappings. A table here is the validated SDT, so it is at least 48 bytes long.
 */
module Iort {
  import opened Basics
  import opened Bits
  import opened TableBytes

  const HEADER_LENGTH: nat := 16
  const MAPPING_LENGTH: nat := 20
  const TABLE_MIN_LENGTH: nat := 48

  datatype NodeKind =
    | ItsGroup | NamedComponent | RootComplex | Smmu | SmmuV3 | Pmcg | ReservedMemory
    | Unknown(raw: nat)

  function KindOf(raw: nat): NodeKind {
    match raw
    case 0 => ItsGroup
    case 1 => NamedComponent
    case 2 => RootComplex
    case 3 => Smmu
    case 4 => SmmuV3
    case 5 => Pmcg
    case 6 => ReservedMemory
    case other => Unknown(other)
  }

  predicate SingleMappingAllowed(kind: NodeKind) {
    kind in {NamedComponent, RootComplex, SmmuV3, Pmcg}
  }

  datatype Header = Header(kind: NodeKind, mappingCount: nat, mappingOffset: nat, offset: nat, length: nat) {
    function End(): nat { offset + length }
  }

  /** A parsed node: its header, and the PCI segment if it is a root complex. */
  datatype Node = Node(header: Header, segment: nat) {
    predicate In(t: seq<Byte>) { header.End() <= |t| }
  }

  predicate IsTable(t: seq<Byte>) {
    TABLE_MIN_LENGTH <= |t| < U32_LIMIT
  }

  function NodeCount(t: seq<Byte>): nat
    requires IsTable(t)
  {
    ReadU32(t, 36).value
  }

  function NodeOffset(t: seq<Byte>): nat
    requires IsTable(t)
  {
    ReadU32(t, 40).value
  }

  function ParseHeader(t: seq<Byte>, offset: nat): (r: Parsed<Header>)
    ensures r.Ok? ==> r.value.offset == offset && r.value.End() <= |t| && r.value.length >= HEADER_LENGTH
  {
    if offset + HEADER_LENGTH > |t| then Err(Malformed("node truncated before header"))
    else
      var length := ReadU16(t, offset + 1).value;
      if length < HEADER_LENGTH then Err(Malformed("node length smaller than header"))
      else if offset + length > |t| then Err(Malformed("node extends past table length"))
      else Ok(Header(
        KindOf(ReadU8(t, offset).value),
        ReadU32(t, offset + 8).value,
        ReadU32(t, offset + 12).value,
        offset,
        length))
  }

  function MinLength(kind: NodeKind): nat {
    match kind
    case ItsGroup => HEADER_LENGTH + 4
    case NamedComponent => HEADER_LENGTH + 13
    case RootComplex => HEADER_LENGTH + 19
    case Smmu => HEADER_LENGTH + 44
    case SmmuV3 => HEADER_LENGTH + 52
    case Pmcg => HEADER_LENGTH + 24
    case ReservedMemory => HEADER_LENGTH + 12
    case Unknown(_) => HEADER_LENGTH
  }

  /** The name of a named component ends at its mappings, or at its end if it has none. */
  predicate NameFits(h: Header) {
    var start := h.offset + MinLength(NamedComponent);
    var end := if h.mappingCount == 0 then h.End() else h.offset + h.mappingOffset;
    start <= end <= h.End()
  }

  function ParseNode(t: seq<Byte>, offset: nat): (r: Parsed<Node>)
    ensures r.Ok? ==> ParseHeader(t, offset) == Ok(r.value.header)
  {
    match ParseHeader(t, offset)
    case Err(e) => Err(e)
    case Ok(h) =>
      if h.length < MinLength(h.kind) then Err(Malformed("node shorter than minimum for its type"))
      else match h.kind
        case NamedComponent =>
          if NameFits(h) then Ok(Node(h, 0)) else Err(Malformed("device name bounds are invalid"))
        case RootComplex => Ok(Node(h, ReadU32(t, offset + 28).value))
        case Smmu =>
          var start, size := ReadU64(t, offset + 16).value, ReadU64(t, offset + 24).value;
          if size == 0 then Err(Malformed("MMIO range is empty"))
          else if start + size >= U64_LIMIT then Err(Malformed("MMIO range overflows"))
          else Ok(Node(h, 0))
        case _ => Ok(Node(h, 0))
  }

  /** The length the node iterator steps over, or None where a broken length ends it. */
  function StepLength(t: seq<Byte>, offset: nat): (r: Option<nat>)
    ensures r.Some? <==> offset + 3 <= |t| && HEADER_LENGTH <= ReadU16(t, offset + 1).value <= |t| - offset
  {
    if offset >= |t| then None
    else match ReadU16(t, offset + 1)
      case Err(_) => None
      case Ok(length) => if length < HEADER_LENGTH || offset + length > |t| then None else Some(length)
  }

  /** One step of the node iterator at `offset`; the next offset is `offset + length`. */
  function NodeAt(t: seq<Byte>, offset: nat): (r: Parsed<Node>)
    ensures r.Ok? ==> r == ParseNode(t, offset) && r.value.header.offset == offset
  {
    if offset >= |t| then Err(Malformed("node count exceeds table contents"))
    else match ReadU16(t, offset + 1)
      case Err(e) => Err(e)
      case Ok(length) =>
        if length < HEADER_LENGTH then Err(Malformed("node length smaller than header"))
        else if offset + length > |t| then Err(Malformed("node extends past table length"))
        else ParseNode(t, offset)
  }

  /** The node at exactly `reference`, if the iteration meets it before any error. */
  function FindNode(t: seq<Byte>, offset: nat, remaining: nat, reference: nat): (r: Parsed<Option<Node>>)
    ensures r.Ok? && r.value.Some? ==> NodeAt(t, reference) == Ok(r.value.value)
    ensures r.Err? ==> r.error != Cycle
    decreases remaining
  {
    if remaining == 0 then Ok(None)
    else match NodeAt(t, offset)
      case Err(e) => Err(e)
      case Ok(node) =>
        if offset == reference then Ok(Some(node))
        else FindNode(t, node.header.End(), remaining - 1, reference)
  }

  function NodeByReference(t: seq<Byte>, reference: nat): (r: Parsed<Option<Node>>)
    requires IsTable(t)
    ensures r.Ok? && r.value.Some? ==> r.value.value.header.offset == reference && r.value.value.In(t)
    ensures r.Err? ==> r.error != Cycle
  {
    if reference < NodeOffset(t) || reference >= |t| then Ok(None)
    else if NodeOffset(t) < TABLE_MIN_LENGTH || NodeOffset(t) > |t| then Err(Malformed("node array offset is invalid"))
    else FindNode(t, NodeOffset(t), NodeCount(t), reference)
  }

  /** What a reference outside the node array leads to, and a table whose array is misplaced. */
  lemma ReferenceBounds(t: seq<Byte>, reference: nat)
    requires IsTable(t)
    ensures var start := NodeOffset(t);
            && (reference < start || |t| <= reference ==> NodeByReference(t, reference) == Ok(None))
            && (start <= reference < |t| && start < 48 ==> NodeByReference(t, reference).Err?)
            && (start == reference < |t| && 48 <= start && NodeCount(t) > 0 ==>
                  NodeByReference(t, reference) ==
                  match NodeAt(t, start) case Ok(node) => Ok(Some(node)) case Err(e) => Err(e))
  {
  }

  /** A node the table's iteration yields. */
  predicate TableNode(t: seq<Byte>, node: Node) {
    IsTable(t) && NodeByReference(t, node.header.offset) == Ok(Some(node))
  }

  /** The node iterator as an object: `IortNodes`. */
  class NodeCursor {
    const table: seq<Byte>
    var offset: nat
    var remaining: nat

    constructor (table: seq<Byte>, offset: nat, remaining: nat)
      ensures this.table == table && this.offset == offset && this.remaining == remaining
    {
      this.table, this.offset, this.remaining := table, offset, remaining;
    }

    /** Yields the node at the cursor and steps over it. A broken length ends the iteration; a
        node that only fails to parse is stepped over. */
    method Next() returns (item: Option<Parsed<Node>>)
      modifies this
      ensures item == if old(remaining) == 0 then None else Some(NodeAt(table, old(offset)))
      ensures offset == if old(remaining) == 0 || StepLength(table, old(offset)).None? then old(offset)
                        else old(offset) + StepLength(table, old(offset)).value
      ensures remaining == if old(remaining) == 0 || StepLength(table, old(offset)).None? then 0
                           else old(remaining) - 1
      ensures item.Some? && item.value.Ok? ==>
                offset == item.value.value.header.End() && remaining == old(remaining) - 1
    {
      if remaining == 0 {
        return None;
      }
      if offset >= |table| {
        remaining := 0;
        return Some(Err(Malformed("node count exceeds table contents")));
      }
      var here := offset;
      var length := ReadU16(table, here + 1);
      if length.Err? {
        remaining := 0;
        return Some(Err(length.error));
      }
      if length.value < HEADER_LENGTH {
        remaining := 0;
        return Some(Err(Malformed("node length smaller than header")));
      }
      if here + length.value > |table| {
        remaining := 0;
        return Some(Err(Malformed("node extends past table length")));
      }
      offset := offset + length.value;
      remaining := remaining - 1;
      item := Some(ParseNode(table, here));
    }
  }

  method LookUpNode(t: seq<Byte>, reference: nat) returns (r: Parsed<Option<Node>>)
    requires IsTable(t)
    ensures r == NodeByReference(t, reference)
  {
    hide NodeAt, NodeOffset, NodeCount;
    if reference < NodeOffset(t) || reference >= |t| {
      return Ok(None);
    }
    if NodeOffset(t) < TABLE_MIN_LENGTH || NodeOffset(t) > |t| {
      return Err(Malformed("node array offset is invalid"));
    }
    var cursor := new NodeCursor(t, NodeOffset(t), NodeCount(t));
    var more := true;
    while more
      invariant cursor.table == t
      invariant more ==> NodeByReference(t, reference) == FindNode(t, cursor.offset, cursor.remaining, reference)
      invariant !more ==> NodeByReference(t, reference) == Ok(None)
      decreases more, cursor.remaining
    {
      var item := cursor.Next();
      match item
      case None => more := false;
      case Some(Err(e)) => return Err(e);
      case Some(Ok(node)) =>
        if node.header.offset == reference {
          return Ok(Some(node));
        }
    }
    r := Ok(None);
  }

  // ID mappings.

  datatype Mapping = Mapping(inputBase: nat, idCount: nat, outputBase: nat, outputReference: nat, flags: nat) {
    predicate Valid() {
      && inputBase < U32_LIMIT && idCount < U32_LIMIT && outputBase < U32_LIMIT
      && outputReference < U32_LIMIT && flags < U32_LIMIT
    }
    predicate IsSingle() { flags % 2 == 1 }
    function Last(): nat { inputBase + idCount }
  }

  /** The mapping at `offset`, which lies inside the table. */
  function ReadMapping(t: seq<Byte>, offset: nat): (m: Mapping)
    requires offset + MAPPING_LENGTH <= |t|
    ensures m.Valid()
  {
    Mapping(
      ReadU32(t, offset).value,
      ReadU32(t, offset + 4).value,
      ReadU32(t, offset + 8).value,
      ReadU32(t, offset + 12).value,
      ReadU32(t, offset + 16).value)
  }

  function ReadMappings(t: seq<Byte>, offset: nat, count: nat): (ms: seq<Mapping>)
    requires offset + count * MAPPING_LENGTH <= |t|
    ensures |ms| == count
    ensures forall i :: 0 <= i < count ==> ms[i].Valid()
  {
    seq(count, i requires 0 <= i < count => ReadMapping(t, offset + i * MAPPING_LENGTH))
  }

  /** The mappings of a parsed node. No later read can leave the table. */
  function Mappings(t: seq<Byte>, h: Header): (r: Parsed<seq<Mapping>>)
    requires h.End() <= |t|
    ensures r.Ok? ==> |r.value| == h.mappingCount
    ensures r.Ok? ==> forall i :: 0 <= i < |r.value| ==> r.value[i].Valid()
  {
    var start := h.offset + h.mappingOffset;
    if h.mappingCount == 0 then Ok([])
    else if h.mappingOffset < HEADER_LENGTH || start + h.mappingCount * MAPPING_LENGTH > h.End() then
      Err(Malformed("ID mapping array extends past node"))
    else Ok(ReadMappings(t, start, h.mappingCount))
  }

  /** When a node's mappings can be read: there are none, or they start after the header and lie
      inside the node, 20 bytes each. */
  lemma MappingsAccepted(t: seq<Byte>, h: Header)
    requires h.End() <= |t|
    ensures Mappings(t, h).Ok? <==>
            h.mappingCount == 0
            || (16 <= h.mappingOffset && h.mappingOffset + h.mappingCount * 20 <= h.length)
    ensures Mappings(t, h).Ok? ==>
              forall i :: 0 <= i < h.mappingCount ==>
                h.offset + h.mappingOffset + i * 20 + 20 <= |t|
                && Mappings(t, h).value[i] == ReadMapping(t, h.offset + h.mappingOffset + i * 20)
  {
    if Mappings(t, h).Ok? {
      forall i | 0 <= i < h.mappingCount
        ensures h.offset + h.mappingOffset + i * 20 + 20 <= |t|
      {
        assert h.mappingCount * 20 >= i * 20 + 20;
      }
    }
  }

  /** `translate_for_node_kind`: the output id, if the mapping applies without overflow. */
  function Translate(m: Mapping, kind: NodeKind, id: nat): Option<nat> {
    if m.IsSingle() then (if SingleMappingAllowed(kind) then Some(m.outputBase) else None)
    else if m.Last() >= U32_LIMIT then None
    else if id < m.inputBase || id > m.Last() then None
    else if m.outputBase + (id - m.inputBase) >= U32_LIMIT then None
    else Some(m.outputBase + (id - m.inputBase))
  }

  datatype Target = Target(id: nat, reference: nat)

  function SaturatingLast(m: Mapping): nat {
    if m.Last() >= U32_LIMIT then U32_LIMIT - 1 else m.Last()
  }

  /** A hit on the last id of a mapping with more than one is only kept as a fallback. */
  predicate OnBoundary(m: Mapping, id: nat) {
    m.idCount > 0 && id == SaturatingLast(m)
  }

  /** The scan of `translate_once` over the mappings from the front. */
  function Scan(ms: seq<Mapping>, kind: NodeKind, id: nat, fallback: Option<Target>): Option<Target>
    decreases |ms|
  {
    if ms == [] then fallback
    else match Translate(ms[0], kind, id)
      case None => Scan(ms[1..], kind, id, fallback)
      case Some(output) =>
        var target := Target(output, ms[0].outputReference);
        if OnBoundary(ms[0], id) then Scan(ms[1..], kind, id, Some(target)) else Some(target)
  }

  function TranslateOnce(t: seq<Byte>, node: Node, id: nat): (r: Parsed<Option<Target>>)
    requires node.In(t)
    ensures r.Err? ==> r.error != Cycle
  {
    match Mappings(t, node.header)
    case Err(e) => Err(e)
    case Ok(ms) => Ok(Scan(ms, node.header.kind, id, None))
  }

  method ScanMappings(ms: seq<Mapping>, kind: NodeKind, id: nat) returns (r: Option<Target>)
    ensures r == Scan(ms, kind, id, None)
  {
    var fallback: Option<Target> := None;
    var i := 0;
    while i < |ms|
      invariant 0 <= i <= |ms|
      invariant Scan(ms, kind, id, None) == Scan(ms[i..], kind, id, fallback)
    {
      var mapping := ms[i];
      assert ms[i..][1..] == ms[i + 1..];
      i := i + 1;
      match Translate(mapping, kind, id)
      case None =>
      case Some(output) =>
        var target := Target(output, mapping.outputReference);
        if OnBoundary(mapping, id) {
          fallback := Some(target);
        } else {
          return Some(target);
        }
    }
    r := fallback;
  }

  // Writing mappings and headers, and reading them back.

  function EncodeMapping(m: Mapping): (b: seq<Byte>)
    ensures |b| == MAPPING_LENGTH
  {
    Encode(m.inputBase, 4) + Encode(m.idCount, 4) + Encode(m.outputBase, 4) + Encode(m.outputReference, 4)
    + Encode(m.flags, 4)
  }

  /** A mapping written anywhere in a table is read back. */
  lemma MappingRoundTrip(before: seq<Byte>, m: Mapping, after: seq<Byte>)
    requires m.Valid()
    ensures ReadMapping(before + EncodeMapping(m) + after, |before|) == m
  {
    hide Encode, ReadU32;
    var t := before + EncodeMapping(m) + after;
    var a, b, c, d, e := Encode(m.inputBase, 4), Encode(m.idCount, 4), Encode(m.outputBase, 4),
                         Encode(m.outputReference, 4), Encode(m.flags, 4);
    ReadEncoded32(before, m.inputBase, b + c + d + e + after);
    ReadEncoded32(before + a, m.idCount, c + d + e + after);
    ReadEncoded32(before + a + b, m.outputBase, d + e + after);
    ReadEncoded32(before + a + b + c, m.outputReference, e + after);
    ReadEncoded32(before + a + b + c + d, m.flags, after);
    assert t == before + a + (b + c + d + e + after);
    assert t == before + a + b + (c + d + e + after);
    assert t == before + a + b + c + (d + e + after);
    assert t == before + a + b + c + d + (e + after);
    assert t == before + a + b + c + d + e + after;
  }

  function EncodeHeader(kind: Byte, revision: Byte, identifier: nat, mappingCount: nat, mappingOffset: nat,
                        length: nat): (b: seq<Byte>)
    ensures |b| == HEADER_LENGTH
  {
    [kind] + Encode(length, 2) + [revision] + Encode(identifier, 4) + Encode(mappingCount, 4) + Encode(mappingOffset, 4)
  }

  /** A header written before the rest of its node is read back, with its place. */
  lemma HeaderRoundTrip(before: seq<Byte>, kind: Byte, revision: Byte, identifier: nat, mappingCount: nat,
                        mappingOffset: nat, body: seq<Byte>, after: seq<Byte>)
    requires HEADER_LENGTH + |body| < U16_LIMIT && mappingCount < U32_LIMIT && mappingOffset < U32_LIMIT
    ensures var length := HEADER_LENGTH + |body|;
            var head := EncodeHeader(kind, revision, identifier, mappingCount, mappingOffset, length);
            ParseHeader(before + head + body + after, |before|) ==
            Ok(Header(KindOf(kind), mappingCount, mappingOffset, |before|, length))
  {
    hide Encode, ReadU32, ReadU16;
    var length := HEADER_LENGTH + |body|;
    var head := EncodeHeader(kind, revision, identifier, mappingCount, mappingOffset, length);
    var t := before + head + body + after;
    var upTo := before + [kind] + Encode(length, 2) + [revision] + Encode(identifier, 4);
    ReadEncoded16(before + [kind], length, [revision] + Encode(identifier, 4) + Encode(mappingCount, 4)
                                           + Encode(mappingOffset, 4) + body + after);
    ReadEncoded32(upTo, mappingCount, Encode(mappingOffset, 4) + body + after);
    ReadEncoded32(upTo + Encode(mappingCount, 4), mappingOffset, body + after);
    assert t == before + [kind] + Encode(length, 2) + ([revision] + Encode(identifier, 4) + Encode(mappingCount, 4)
                                                       + Encode(mappingOffset, 4) + body + after);
    assert t == upTo + Encode(mappingCount, 4) + (Encode(mappingOffset, 4) + body + after);
    assert t == upTo + Encode(mappingCount, 4) + Encode(mappingOffset, 4) + (body + after);
    assert t[|before|] == kind;
  }

  /** The type byte of each kind of node. */
  function TypeByte(kind: NodeKind): nat {
    match kind
    case ItsGroup => 0
    case NamedComponent => 1
    case RootComplex => 2
    case Smmu => 3
    case SmmuV3 => 4
    case Pmcg => 5
    case ReservedMemory => 6
    case Unknown(raw) => raw
  }

  /** The kind read from a type byte tells that byte, and the other way round. */
  lemma KindTellsType(raw: nat, kind: NodeKind)
    ensures TypeByte(KindOf(raw)) == raw
    ensures !kind.Unknown? ==> KindOf(TypeByte(kind)) == kind
    ensures KindOf(raw).Unknown? <==> raw > 6
  {
  }

  /** When a node of this type is accepted, by its contents after the header. */
  predicate Complete(kind: Byte, mappingCount: nat, mappingOffset: nat, body: seq<Byte>) {
    if kind == 0 then |body| >= 4
    else if kind == 1 then |body| >= 13 && (mappingCount > 0 ==> 29 <= mappingOffset <= 16 + |body|)
    else if kind == 2 then |body| >= 19
    else if kind == 3 then
      |body| >= 44 && ReadU64(body, 8).value > 0
      && ReadU64(body, 0).value + ReadU64(body, 8).value < 0x1_0000_0000_0000_0000
    else if kind == 4 then |body| >= 52
    else if kind == 5 then |body| >= 24
    else if kind == 6 then |body| >= 12
    else true
  }

  lemma SameWord(t: seq<Byte>, at: nat, body: seq<Byte>, i: nat, width: nat)
    requires at + |body| <= |t| && t[at..at + |body|] == body && i + width <= |body|
    ensures ReadLittle(t, at + i, width) == ReadLittle(body, i, width)
  {
    var u, v := t[at + i..at + i + width], body[i..i + width];
    forall k | 0 <= k < width
      ensures u[k] == v[k]
    {
      assert t[at..at + |body|][i + k] == body[i + k];
    }
    assert u == v;
  }

  /** A node written anywhere in a table is read back if and only if its contents are complete:
      its kind, its place, where its mappings are, and the segment of a root complex, which is
      the word after 12 bytes of attributes. */
  lemma NodeRoundTrip(before: seq<Byte>, kind: Byte, revision: Byte, identifier: nat, mappingCount: nat,
                      mappingOffset: nat, body: seq<Byte>, after: seq<Byte>)
    requires HEADER_LENGTH + |body| < U16_LIMIT && mappingCount < U32_LIMIT && mappingOffset < U32_LIMIT
    ensures var length := 16 + |body|;
            var head := EncodeHeader(kind, revision, identifier, mappingCount, mappingOffset, length);
            var r := NodeAt(before + head + body + after, |before|);
            && (r.Ok? <==> Complete(kind, mappingCount, mappingOffset, body))
            && (r.Ok? ==>
                  && r.value.header == Header(KindOf(kind), mappingCount, mappingOffset, |before|, length)
                  && (kind == 2 ==> r.value.segment == ReadU32(body, 12).value))
  {
    hide ReadU16, EncodeHeader, ReadLittle, Encode;
    var length := HEADER_LENGTH + |body|;
    var head := EncodeHeader(kind, revision, identifier, mappingCount, mappingOffset, length);
    var t := before + head + body + after;
    HeaderRoundTrip(before, kind, revision, identifier, mappingCount, mappingOffset, body, after);
    LengthRead(before, kind, revision, identifier, mappingCount, mappingOffset, body, after);
    hide ParseHeader;
    var at := |before| + 16;
    assert t[at..at + |body|] == body;
    if kind == 2 && |body| >= 19 {
      SameWord(t, at, body, 12, 4);
    }
    if kind == 3 && |body| >= 44 {
      SameWord(t, at, body, 0, 8);
      SameWord(t, at, body, 8, 8);
    }
  }

  lemma LengthRead(before: seq<Byte>, kind: Byte, revision: Byte, identifier: nat, mappingCount: nat,
                   mappingOffset: nat, body: seq<Byte>, after: seq<Byte>)
    requires HEADER_LENGTH + |body| < U16_LIMIT
    ensures var length := HEADER_LENGTH + |body|;
            var head := EncodeHeader(kind, revision, identifier, mappingCount, mappingOffset, length);
            ReadU16(before + head + body + after, |before| + 1) == Ok(length)
  {
    hide Encode, ReadU16;
    var length := HEADER_LENGTH + |body|;
    var head := EncodeHeader(kind, revision, identifier, mappingCount, mappingOffset, length);
    var rest := [revision] + Encode(identifier, 4) + Encode(mappingCount, 4) + Encode(mappingOffset, 4) + body + after;
    ReadEncoded16(before + [kind], length, rest);
    assert before + head + body + after == before + [kind] + Encode(length, 2) + rest;
  }

  /** A root complex written in a table is read back with its segment. */
  lemma RootComplexRoundTrip(before: seq<Byte>, revision: Byte, identifier: nat, mappingCount: nat, mappingOffset: nat,
                             attributes: seq<Byte>, segment: nat, rest: seq<Byte>, after: seq<Byte>)
    requires |attributes| == 12 && |rest| >= 3 && segment < U32_LIMIT
    requires 32 + |rest| < U16_LIMIT && mappingCount < U32_LIMIT && mappingOffset < U32_LIMIT
    ensures var length := 32 + |rest|;
            var head := EncodeHeader(2, revision, identifier, mappingCount, mappingOffset, length);
            NodeAt(before + head + (attributes + Encode(segment, 4) + rest) + after, |before|) ==
            Ok(Node(Header(RootComplex, mappingCount, mappingOffset, |before|, length), segment))
  {
    hide NodeAt, EncodeHeader, Encode, ReadU32;
    var body := attributes + Encode(segment, 4) + rest;
    ReadEncoded32(attributes, segment, rest);
    NodeRoundTrip(before, 2, revision, identifier, mappingCount, mappingOffset, body, after);
  }
}
