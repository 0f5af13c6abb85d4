/** What one translation through a node's ID mappings means: which mapping is used, for any list,
    and when the order of the list does not matter. */
module IortLookup {
  import opened Basics
  import opened TableBytes
  import opened Iort

  predicate MayBeSingle(kind: NodeKind) {
    kind == NamedComponent || kind == RootComplex || kind == SmmuV3 || kind == Pmcg
  }

  /** A range mapping whose ids from its base to this one fit in 32 bits on both sides. */
  predicate Spans(m: Mapping, id: nat) {
    && m.inputBase <= id <= m.inputBase + m.idCount < 0x1_0000_0000
    && m.outputBase + (id - m.inputBase) < 0x1_0000_0000
  }

  /** A single mapping takes every id, but only at a node of four kinds; a range takes its ids. */
  predicate Applies(m: Mapping, kind: NodeKind, id: nat) {
    if m.flags % 2 == 1 then MayBeSingle(kind) else Spans(m, id)
  }

  /** A single mapping gives its output base, whatever the id; a range keeps the distance. */
  function TargetOf(m: Mapping, kind: NodeKind, id: nat): Target
    requires Applies(m, kind, id)
  {
    Target(if m.flags % 2 == 1 then m.outputBase else m.outputBase + (id - m.inputBase), m.outputReference)
  }

  /** The id is the last of several, counted up to the end of the 32-bit space. */
  predicate IsLast(m: Mapping, id: nat) {
    m.idCount > 0 && id == Min(m.inputBase + m.idCount, 0xffff_ffff)
  }

  /** The mapping applies, and not only at its end. */
  predicate Inside(m: Mapping, kind: NodeKind, id: nat) { Applies(m, kind, id) && !IsLast(m, id) }

  predicate AtEnd(m: Mapping, kind: NodeKind, id: nat) { Applies(m, kind, id) && IsLast(m, id) }

  lemma TranslateMeans(m: Mapping, kind: NodeKind, id: nat)
    ensures Translate(m, kind, id) ==
            if Applies(m, kind, id) then Some(TargetOf(m, kind, id).id) else None
    ensures OnBoundary(m, id) <==> IsLast(m, id)
  {
  }

  /** A list of one single mapping is looked up by the kind of the node alone. */
  lemma SingleMappingLookup(m: Mapping, kind: NodeKind, id: nat)
    requires m.flags % 2 == 1
    ensures Scan([m], kind, id, None) ==
            if MayBeSingle(kind) then Some(Target(m.outputBase, m.outputReference)) else None
  {
    TranslateMeans(m, kind, id);
    assert [m][1..] == [];
  }

  // Which mapping of a list is used.

  /** Mapping `i` is the first that holds the id inside; or none does, and it is the last that
      ends at the id. */
  ghost predicate Chosen(ms: seq<Mapping>, kind: NodeKind, id: nat, i: nat) {
    && i < |ms| && Applies(ms[i], kind, id)
    && (if Inside(ms[i], kind, id) then forall j :: 0 <= j < i ==> !Inside(ms[j], kind, id)
        else (forall j :: 0 <= j < |ms| ==> !Inside(ms[j], kind, id))
             && (forall j :: i < j < |ms| ==> !Applies(ms[j], kind, id)))
  }

  lemma ScanStep(ms: seq<Mapping>, kind: NodeKind, id: nat, fallback: Option<Target>)
    requires ms != []
    ensures Scan(ms, kind, id, fallback) ==
            if Inside(ms[0], kind, id) then Some(TargetOf(ms[0], kind, id))
            else Scan(ms[1..], kind, id, Keep(ms[0], kind, id, fallback))
  {
    TranslateMeans(ms[0], kind, id);
    hide Applies, IsLast, OnBoundary, Translate;
  }

  /** The fallback after a mapping that was not used at once. */
  function Keep(m: Mapping, kind: NodeKind, id: nat, fallback: Option<Target>): Option<Target> {
    if AtEnd(m, kind, id) then Some(TargetOf(m, kind, id)) else fallback
  }

  /** For every list: the lookup uses the chosen mapping, and the fallback if none applies. */
  lemma {:induction false} ScanChooses(ms: seq<Mapping>, kind: NodeKind, id: nat, fallback: Option<Target>)
    returns (chosen: Option<nat>)
    ensures chosen.None? <==> forall i :: 0 <= i < |ms| ==> !Applies(ms[i], kind, id)
    ensures chosen.Some? ==> Chosen(ms, kind, id, chosen.value)
    ensures Scan(ms, kind, id, fallback) ==
            if chosen.Some? then Some(TargetOf(ms[chosen.value], kind, id)) else fallback
    decreases |ms|
  {
    hide Applies, IsLast;
    if ms == [] {
      chosen := None;
    } else {
      ScanStep(ms, kind, id, fallback);
      if Inside(ms[0], kind, id) {
        chosen := Some(0);
      } else {
        var rest := ScanChooses(ms[1..], kind, id, Keep(ms[0], kind, id, fallback));
        ChosenLater(ms, kind, id, rest);
        chosen := if rest.Some? then Some(rest.value + 1) else if AtEnd(ms[0], kind, id) then Some(0) else None;
      }
    }
  }

  lemma ChosenLater(ms: seq<Mapping>, kind: NodeKind, id: nat, rest: Option<nat>)
    requires ms != [] && !Inside(ms[0], kind, id)
    requires rest.Some? ==> Chosen(ms[1..], kind, id, rest.value)
    requires rest.None? ==> forall i :: 0 <= i < |ms[1..]| ==> !Applies(ms[1..][i], kind, id)
    ensures rest.Some? ==> Chosen(ms, kind, id, rest.value + 1)
    ensures forall i :: 0 < i < |ms| ==> ms[i] == ms[1..][i - 1]
    ensures rest.None? ==> forall i :: 0 < i < |ms| ==> !Applies(ms[i], kind, id)
  {
    hide Applies, IsLast;
    forall i | 0 < i < |ms|
      ensures ms[i] == ms[1..][i - 1]
    {
    }
  }

  /** An id is translated if and only if some mapping applies to it. */
  lemma TranslatedIffApplies(ms: seq<Mapping>, kind: NodeKind, id: nat)
    ensures Scan(ms, kind, id, None).Some? <==> exists m :: m in ms && Applies(m, kind, id)
    ensures Scan(ms, kind, id, None).Some? ==>
              exists m :: m in ms && Applies(m, kind, id) && Scan(ms, kind, id, None).value == TargetOf(m, kind, id)
  {
    hide Applies, Scan;
    var chosen := ScanChooses(ms, kind, id, None);
  }

  // Lists whose order does not matter.

  /** At most one mapping holds the id inside, and at most one ends at it. */
  ghost predicate Unambiguous(ms: seq<Mapping>, kind: NodeKind, id: nat) {
    && (forall a, b :: a in ms && b in ms && Inside(a, kind, id) && Inside(b, kind, id) ==> a == b)
    && (forall a, b :: a in ms && b in ms && AtEnd(a, kind, id) && AtEnd(b, kind, id) ==> a == b)
  }

  /** The meaning of such a lookup: a mapping that holds the id inside wins; one that ends at the
      id is used if there is none; otherwise there is no translation. */
  ghost predicate Resolves(ms: seq<Mapping>, kind: NodeKind, id: nat, r: Option<Target>) {
    && (forall m :: m in ms && Inside(m, kind, id) ==> r == Some(TargetOf(m, kind, id)))
    && (forall m :: m in ms && AtEnd(m, kind, id) && (forall n :: n in ms ==> !Inside(n, kind, id)) ==>
          r == Some(TargetOf(m, kind, id)))
    && ((forall m :: m in ms ==> !Applies(m, kind, id)) ==> r == None)
  }

  lemma ScanResolves(ms: seq<Mapping>, kind: NodeKind, id: nat)
    requires Unambiguous(ms, kind, id)
    ensures Resolves(ms, kind, id, Scan(ms, kind, id, None))
  {
    hide Applies, IsLast, Scan;
    var chosen := ScanChooses(ms, kind, id, None);
    if chosen.Some? {
      assert ms[chosen.value] in ms;
    }
    forall m | m in ms && Inside(m, kind, id)
      ensures Scan(ms, kind, id, None) == Some(TargetOf(m, kind, id))
    {
      var j :| 0 <= j < |ms| && ms[j] == m;
    }
    forall m | m in ms && AtEnd(m, kind, id) && (forall n :: n in ms ==> !Inside(n, kind, id))
      ensures Scan(ms, kind, id, None) == Some(TargetOf(m, kind, id))
    {
      var j :| 0 <= j < |ms| && ms[j] == m;
    }
  }

  /** The order and multiplicity of the mappings do not matter. */
  lemma OrderIrrelevant(a: seq<Mapping>, b: seq<Mapping>, kind: NodeKind, id: nat)
    requires Unambiguous(a, kind, id) && forall m :: m in a <==> m in b
    ensures Scan(a, kind, id, None) == Scan(b, kind, id, None)
  {
    hide Applies, IsLast, Scan;
    ScanResolves(a, kind, id);
    ScanResolves(b, kind, id);
    if m :| m in a && Inside(m, kind, id) {
      assert m in b;
    } else if m :| m in a && AtEnd(m, kind, id) {
      assert m in b;
    }
  }

  // Two kinds of list that are unambiguous for every id.

  /** A range mapping whose input and output ids all fit in 32 bits. */
  predicate Sound(m: Mapping) {
    !m.IsSingle() && m.Last() < U32_LIMIT && m.outputBase + m.idCount < U32_LIMIT
  }

  predicate Covers(m: Mapping, id: nat) { m.inputBase <= id <= m.Last() }

  /** The two ranges have no id in common, or only the end of one and the start of the other. */
  predicate MeetAtMostAtEnds(a: Mapping, b: Mapping) {
    a.Last() <= b.inputBase || b.Last() <= a.inputBase
  }

  /** Ranges that meet at most end to start, and single mappings that this kind of node ignores. */
  predicate WellMet(ms: seq<Mapping>, kind: NodeKind) {
    && (forall m :: m in ms ==> Sound(m) || (m.IsSingle() && !MayBeSingle(kind)))
    && (forall a, b :: a in ms && b in ms && Sound(a) && Sound(b) && a != b ==>
          a.inputBase != b.inputBase && MeetAtMostAtEnds(a, b))
  }

  lemma RangesAreUnambiguous(ms: seq<Mapping>, kind: NodeKind, id: nat)
    requires WellMet(ms, kind)
    ensures Unambiguous(ms, kind, id)
  {
  }

  lemma SoleMappingIsUnambiguous(m: Mapping, kind: NodeKind, id: nat)
    ensures Unambiguous([m], kind, id)
  {
  }

  /** An id shared by the end of one range and the start of the other belongs to the range
      that starts there. */
  lemma SharedEndpoint(ms: seq<Mapping>, before: Mapping, after: Mapping, kind: NodeKind)
    requires WellMet(ms, kind) && before in ms && after in ms && before != after
    requires Sound(before) && Sound(after) && before.Last() == after.inputBase
    ensures Scan(ms, kind, after.inputBase, None) == Some(Target(after.outputBase, after.outputReference))
  {
    RangesAreUnambiguous(ms, kind, after.inputBase);
    ScanResolves(ms, kind, after.inputBase);
    assert Inside(after, kind, after.inputBase);
  }

  /** Every id of every range is translated, by a range that covers it; no other id is. */
  lemma TranslatedIffCovered(ms: seq<Mapping>, kind: NodeKind, id: nat)
    requires WellMet(ms, kind)
    ensures Scan(ms, kind, id, None).Some? <==> exists m :: m in ms && Sound(m) && Covers(m, id)
    ensures Scan(ms, kind, id, None).Some? ==>
              exists m :: m in ms && Sound(m) && Covers(m, id)
                && Scan(ms, kind, id, None) == Some(Target(m.outputBase + (id - m.inputBase), m.outputReference))
  {
    hide Scan;
    TranslatedIffApplies(ms, kind, id);
    forall m | m in ms
      ensures Applies(m, kind, id) <==> Sound(m) && Covers(m, id)
    {
    }
  }
}
