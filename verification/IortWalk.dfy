/**
 The bounded ID walk over the node graph, against a walk with no bound: following a
 node's mappings until the target kind, a dead end or a broken node is met.
 */
module IortWalk {
  import opened Basics
  import opened Bits
  import opened TableBytes
  import opened Iort
  import opened IortLookup
  import opened Walks

  datatype Place = Place(node: Node, id: nat)

  datatype Step =
    | Arrived(place: Place)
    | DeadEnd
    | Broken(error: ParseError)
    | Onward(next: Place)

  function Advance(t: seq<Byte>, p: Place, target: NodeKind): (s: Step)
    requires IsTable(t) && p.node.In(t)
    ensures s.Onward? ==> s.next.node.In(t)
    ensures s.Broken? ==> s.error != Cycle
    ensures s.Arrived? <==> p.node.header.kind == target
  {
    if p.node.header.kind == target then Arrived(p)
    else match TranslateOnce(t, p.node, p.id)
      case Err(e) => Broken(e)
      case Ok(None) => DeadEnd
      case Ok(Some(translation)) =>
        match NodeByReference(t, translation.reference)
        case Err(e) => Broken(e)
        case Ok(None) => DeadEnd
        case Ok(Some(node)) => Onward(Place(node, translation.id))
  }

  /** What is returned after a step that ends the walk. */
  function Verdict(s: Step): Parsed<Option<Place>> {
    match s
    case Arrived(q) => Ok(Some(q))
    case DeadEnd => Ok(None)
    case Broken(e) => Err(e)
    case Onward(_) => Ok(None)
  }

  /** One step of the walk to `target`, if it does not stop here. */
  function Onwards(t: seq<Byte>, target: NodeKind): Place -> Option<Place>
    requires IsTable(t)
  {
    (p: Place) =>
      if p.node.In(t) && Advance(t, p, target).Onward? then Some(Advance(t, p, target).next) else None
  }

  lemma StepsToTableNodes(t: seq<Byte>, p: Place, target: NodeKind)
    requires IsTable(t) && p.node.In(t) && Advance(t, p, target).Onward?
    ensures TableNode(t, Advance(t, p, target).next.node)
  {
  }

  lemma {:induction false} PlacesAreInTable(t: seq<Byte>, start: Place, target: NodeKind, k: nat)
    requires IsTable(t) && start.node.In(t) && Visit(Onwards(t, target), start, k).Some?
    ensures Visit(Onwards(t, target), start, k).value.node.In(t)
    ensures k > 0 ==> TableNode(t, Visit(Onwards(t, target), start, k).value.node)
  {
    hide Advance, TableNode;
    if k > 0 {
      PlacesAreInTable(t, start, target, k - 1);
      StepsToTableNodes(t, Visit(Onwards(t, target), start, k - 1).value, target);
    }
  }

  /** What the walk with no bound returns, if it takes exactly `k` steps. */
  ghost function UnboundedAnswer(t: seq<Byte>, start: Place, target: NodeKind, k: nat): Parsed<Option<Place>>
    requires IsTable(t) && start.node.In(t) && StopsAfter(Onwards(t, target), start, k)
  {
    PlacesAreInTable(t, start, target, k);
    Verdict(Advance(t, Visit(Onwards(t, target), start, k).value, target))
  }

  /** The answer with a budget of steps: what the walk with no bound returns if that one
      stops within the budget, and the cycle error otherwise. */
  ghost predicate IsAnswer(t: seq<Byte>, start: Place, target: NodeKind, budget: nat, r: Parsed<Option<Place>>)
    requires IsTable(t) && start.node.In(t)
  {
    && (forall k: nat :: k < budget && StopsAfter(Onwards(t, target), start, k) ==> r == UnboundedAnswer(t, start, target, k))
    && (r == Err(Cycle) <==> Visit(Onwards(t, target), start, budget).Some?)
  }

  ghost predicate IsAt(t: seq<Byte>, start: Place, target: NodeKind, k: nat, p: Place)
    requires IsTable(t)
  {
    Visit(Onwards(t, target), start, k) == Some(p)
  }

  lemma StartsThere(t: seq<Byte>, start: Place, target: NodeKind)
    requires IsTable(t)
    ensures IsAt(t, start, target, 0, start)
  {
  }

  lemma StopAnswers(t: seq<Byte>, start: Place, target: NodeKind, k: nat, budget: nat)
    requires IsTable(t) && start.node.In(t) && k < budget
    requires StopsAfter(Onwards(t, target), start, k)
    ensures IsAnswer(t, start, target, budget, UnboundedAnswer(t, start, target, k))
  {
    NothingAfter(Onwards(t, target), start, k, budget);
    forall j: nat | StopsAfter(Onwards(t, target), start, j)
      ensures j == k
    {
      StopsOnce(Onwards(t, target), start, k, j);
    }
  }

  /** One round of the loop: an answer, or the next place. */
  lemma StepAnswers(t: seq<Byte>, start: Place, target: NodeKind, k: nat, p: Place, budget: nat)
    requires IsTable(t) && start.node.In(t) && p.node.In(t) && k < budget
    requires IsAt(t, start, target, k, p)
    ensures var step := Advance(t, p, target);
            if step.Onward? then IsAt(t, start, target, k + 1, step.next)
            else IsAnswer(t, start, target, budget, Verdict(step))
  {
    if !Advance(t, p, target).Onward? {
      StopAnswers(t, start, target, k, budget);
    }
  }

  lemma BudgetSpent(t: seq<Byte>, start: Place, target: NodeKind, p: Place, budget: nat)
    requires IsTable(t) && start.node.In(t) && IsAt(t, start, target, budget, p)
    ensures IsAnswer(t, start, target, budget, Err(Cycle))
  {
    forall k: nat | k < budget
      ensures !StopsAfter(Onwards(t, target), start, k)
    {
      if StopsAfter(Onwards(t, target), start, k) {
        NothingAfter(Onwards(t, target), start, k, budget);
      }
    }
  }

  /** The body of the loop in `map_id_to_kind`. */
  method TakeStep(t: seq<Byte>, current: Node, id: nat, target: NodeKind) returns (s: Step)
    requires IsTable(t) && current.In(t)
    ensures s == Advance(t, Place(current, id), target)
  {
    if current.header.kind == target {
      return Arrived(Place(current, id));
    }
    var translation := TranslateOnce(t, current, id);
    if translation.Err? {
      return Broken(translation.error);
    }
    if translation.value.None? {
      return DeadEnd;
    }
    var next := LookUpNode(t, translation.value.value.reference);
    if next.Err? {
      return Broken(next.error);
    }
    if next.value.None? {
      return DeadEnd;
    }
    s := Onward(Place(next.value.value, translation.value.value.id));
  }

  /** The loop of `map_id_to_kind`. */
  method WalkWithin(t: seq<Byte>, node: Node, inputId: nat, target: NodeKind, budget: nat)
    returns (r: Parsed<Option<Place>>)
    requires IsTable(t) && node.In(t)
    ensures IsAnswer(t, Place(node, inputId), target, budget, r)
  {
    hide Advance, IsAnswer, IsAt;
    var current, id, remaining := node, inputId, budget;
    ghost var start := Place(node, inputId);
    StartsThere(t, start, target);
    while remaining != 0
      invariant 0 <= remaining <= budget && current.In(t)
      invariant IsAt(t, start, target, budget - remaining, Place(current, id))
    {
      var step := TakeStep(t, current, id, target);
      StepAnswers(t, start, target, budget - remaining, Place(current, id), budget);
      if !step.Onward? {
        return Verdict(step);
      }
      current, id, remaining := step.next.node, step.next.id, remaining - 1;
    }
    BudgetSpent(t, start, target, Place(current, id), budget);
    r := Err(Cycle);
  }

  // How many different nodes a walk can visit.

  /** The nodes the iteration yields before its end or an error. */
  function Yielded(t: seq<Byte>, offset: nat, remaining: nat): (s: set<Node>)
    decreases remaining
  {
    match NodeAt(t, offset)
    case Err(_) => {}
    case Ok(node) => if remaining == 0 then {} else {node} + Yielded(t, node.header.End(), remaining - 1)
  }

  lemma {:induction false} FewYielded(t: seq<Byte>, offset: nat, remaining: nat)
    ensures |Yielded(t, offset, remaining)| <= remaining
    decreases remaining
  {
    match NodeAt(t, offset)
    case Err(_) =>
    case Ok(node) =>
      if remaining > 0 {
        FewYielded(t, node.header.End(), remaining - 1);
      }
  }

  lemma {:induction false} FoundIsYielded(t: seq<Byte>, offset: nat, remaining: nat, reference: nat, found: Node)
    requires FindNode(t, offset, remaining, reference) == Ok(Some(found))
    ensures found in Yielded(t, offset, remaining)
    decreases remaining
  {
    match NodeAt(t, offset)
    case Err(_) =>
    case Ok(node) =>
      if offset != reference {
        FoundIsYielded(t, node.header.End(), remaining - 1, reference, found);
      }
  }

  function NodeOf(): Place -> Node { (p: Place) => p.node }

  /** Pigeonhole: a walk over pairwise different nodes of the table has at most `node_count`
      places. */
  lemma WalkWithoutRevisitIsShort(t: seq<Byte>, start: Place, target: NodeKind, k: nat)
    requires IsTable(t) && TableNode(t, start.node) && Visit(Onwards(t, target), start, k).Some?
    requires !Revisits(Onwards(t, target), start, NodeOf(), k + 1)
    ensures k < NodeCount(t)
  {
    var all := Yielded(t, NodeOffset(t), NodeCount(t));
    forall i | 0 <= i < k + 1
      ensures Visit(Onwards(t, target), start, i).Some?
      ensures NodeOf()(Visit(Onwards(t, target), start, i).value) in all
    {
      VisitedBefore(Onwards(t, target), start, i, k);
      PlacesAreInTable(t, start, target, i);
      var node := Visit(Onwards(t, target), start, i).value.node;
      FoundIsYielded(t, NodeOffset(t), NodeCount(t), node.header.offset, node);
    }
    Pigeonhole(Onwards(t, target), start, NodeOf(), k + 1, all);
    FewYielded(t, NodeOffset(t), NodeCount(t));
  }

  /** From a table node, a walk that stops before it revisits a node gets the answer of the
      walk with no bound. */
  lemma ExactWithoutRevisit(t: seq<Byte>, start: Place, target: NodeKind, k: nat, r: Parsed<Option<Place>>)
    requires IsTable(t) && start.node.In(t) && TableNode(t, start.node)
    requires IsAnswer(t, start, target, NodeCount(t), r)
    requires StopsAfter(Onwards(t, target), start, k) && !Revisits(Onwards(t, target), start, NodeOf(), k + 1)
    ensures r == UnboundedAnswer(t, start, target, k)
  {
    WalkWithoutRevisitIsShort(t, start, target, k);
  }

  /** From a table node, the cycle error means that some node was visited twice. */
  lemma CycleMeansRevisit(t: seq<Byte>, start: Place, target: NodeKind, r: Parsed<Option<Place>>)
    requires IsTable(t) && start.node.In(t) && TableNode(t, start.node)
    requires IsAnswer(t, start, target, NodeCount(t), r) && r == Err(Cycle)
    ensures Revisits(Onwards(t, target), start, NodeOf(), NodeCount(t) + 1)
  {
    if !Revisits(Onwards(t, target), start, NodeOf(), NodeCount(t) + 1) {
      WalkWithoutRevisitIsShort(t, start, target, NodeCount(t));
    }
  }

  /** A walk that returns to one node with one id has no answer, and the cycle is reported. */
  lemma ClosedWalkIsReported(t: seq<Byte>, start: Place, target: NodeKind, i: nat, j: nat, r: Parsed<Option<Place>>)
    requires IsTable(t) && start.node.In(t) && IsAnswer(t, start, target, NodeCount(t), r)
    requires i < j && Visit(Onwards(t, target), start, j).Some?
    requires Visit(Onwards(t, target), start, i) == Visit(Onwards(t, target), start, j)
    ensures r == Err(Cycle)
    ensures forall k: nat :: !StopsAfter(Onwards(t, target), start, k)
  {
    ClosedWalkNeverStops(Onwards(t, target), start, i, j, NodeCount(t));
    forall k: nat
      ensures !StopsAfter(Onwards(t, target), start, k)
    {
      ClosedWalkNeverStops(Onwards(t, target), start, i, j, k + 1);
    }
  }

  /** Where the walk from a table node ends at once: at a node of the target kind; with the error
      of its mappings or of the reference that the lookup gives; or with no answer, if no mapping
      applies or the reference leads to no node. */
  lemma FirstStepMeans(t: seq<Byte>, node: Node, id: nat, target: NodeKind, r: Parsed<Option<Place>>)
    requires TableNode(t, node) && node.In(t)
    requires IsAnswer(t, Place(node, id), target, NodeCount(t), r)
    ensures var ms, kind := Mappings(t, node.header), node.header.kind;
            && (kind == target ==> r == Ok(Some(Place(node, id))))
            && (kind != target && ms.Err? ==> r == Err(ms.error))
            && (kind != target && ms.Ok? && (forall m :: m in ms.value ==> !Applies(m, kind, id)) ==> r == Ok(None))
            && (kind != target && ms.Ok? && Scan(ms.value, kind, id, None).Some? ==>
                  var next := NodeByReference(t, Scan(ms.value, kind, id, None).value.reference);
                  && (next.Err? ==> r == Err(next.error))
                  && (next == Ok(None) ==> r == Ok(None)))
  {
    var start := Place(node, id);
    if Mappings(t, node.header).Ok? {
      TranslatedIffApplies(Mappings(t, node.header).value, node.header.kind, id);
    }
    var step := Advance(t, start, target);
    hide Scan, Mappings, NodeByReference, Applies, TableNode, NodeCount, Revisits;
    if !step.Onward? {
      assert Visit(Onwards(t, target), start, 0) == Some(start);
      assert StopsAfter(Onwards(t, target), start, 0);
      NoRevisitYet(t, start, target);
      ExactWithoutRevisit(t, start, target, 0, r);
      assert r == Verdict(step);
    }
  }

  lemma NoRevisitYet(t: seq<Byte>, start: Place, target: NodeKind)
    requires IsTable(t)
    ensures !Revisits(Onwards(t, target), start, NodeOf(), 1)
  {
  }

  /** One step of the walk through a node's mappings, and where it leads. */
  lemma StepThrough(t: seq<Byte>, node: Node, id: nat, target: NodeKind, ms: seq<Mapping>, via: Target, next: Node)
    requires IsTable(t) && node.In(t) && node.header.kind != target && Mappings(t, node.header) == Ok(ms)
    requires Scan(ms, node.header.kind, id, None) == Some(via)
    requires NodeByReference(t, via.reference) == Ok(Some(next))
    ensures Visit(Onwards(t, target), Place(node, id), 1) == Some(Place(next, via.id))
  {
    assert Advance(t, Place(node, id), target) == Onward(Place(next, via.id));
    assert Visit(Onwards(t, target), Place(node, id), 0) == Some(Place(node, id));
  }

  /** A walk from a table node whose mappings lead to a node of the target kind arrives there. */
  lemma ArrivesNext(t: seq<Byte>, node: Node, id: nat, target: NodeKind, ms: seq<Mapping>, via: Target, next: Node,
                    r: Parsed<Option<Place>>)
    requires TableNode(t, node) && node.In(t) && node.header.kind != target && Mappings(t, node.header) == Ok(ms)
    requires Scan(ms, node.header.kind, id, None) == Some(via)
    requires NodeByReference(t, via.reference) == Ok(Some(next)) && next.header.kind == target
    requires IsAnswer(t, Place(node, id), target, NodeCount(t), r)
    ensures r == Ok(Some(Place(next, via.id)))
  {
    var start, there := Place(node, id), Place(next, via.id);
    StepThrough(t, node, id, target, ms, via, next);
    assert Advance(t, there, target) == Arrived(there);
    hide Scan, Mappings, NodeByReference, NodeCount, TableNode;
    assert Visit(Onwards(t, target), start, 0) == Some(start);
    assert StopsAfter(Onwards(t, target), start, 1);
    assert UnboundedAnswer(t, start, target, 1) == Ok(Some(there));
    assert !Revisits(Onwards(t, target), start, NodeOf(), 2);
    ExactWithoutRevisit(t, start, target, 1, r);
  }

  /** A table node whose only mapping is single: at the four kinds that may have one, every id
      arrives at the node referred to with the mapping's output id; at other kinds there is no
      translation. */
  lemma SingleMappingArrives(t: seq<Byte>, node: Node, id: nat, target: NodeKind, m: Mapping, next: Node,
                             r: Parsed<Option<Place>>)
    requires TableNode(t, node) && node.In(t) && node.header.kind != target
    requires Mappings(t, node.header) == Ok([m]) && m.flags % 2 == 1
    requires NodeByReference(t, m.outputReference) == Ok(Some(next)) && next.header.kind == target
    requires IsAnswer(t, Place(node, id), target, NodeCount(t), r)
    ensures r == if MayBeSingle(node.header.kind) then Ok(Some(Place(next, m.outputBase))) else Ok(None)
  {
    SingleMappingLookup(m, node.header.kind, id);
    var start := Place(node, id);
    if MayBeSingle(node.header.kind) {
      ArrivesNext(t, node, id, target, [m], Target(m.outputBase, m.outputReference), next, r);
    } else {
      assert Advance(t, start, target) == DeadEnd;
      hide Scan, Mappings;
      assert Visit(Onwards(t, target), start, 0) == Some(start);
      assert StopsAfter(Onwards(t, target), start, 0);
      ExactWithoutRevisit(t, start, target, 0, r);
    }
  }

  /** `map_id_to_kind`, with `node_count` as its budget. From a table node, the answer is the
      one of the walk with no bound unless that walk revisits a node before it stops, and the
      cycle error means that some node was visited twice. */
  method MapIdToKind(t: seq<Byte>, node: Node, inputId: nat, target: NodeKind) returns (r: Parsed<Option<Place>>)
    requires IsTable(t) && node.In(t)
    ensures IsAnswer(t, Place(node, inputId), target, NodeCount(t), r)
    ensures TableNode(t, node) ==>
              forall k: nat :: StopsAfter(Onwards(t, target), Place(node, inputId), k)
                               && !Revisits(Onwards(t, target), Place(node, inputId), NodeOf(), k + 1) ==>
                                 r == UnboundedAnswer(t, Place(node, inputId), target, k)
    ensures TableNode(t, node) && r == Err(Cycle) ==>
              Revisits(Onwards(t, target), Place(node, inputId), NodeOf(), NodeCount(t) + 1)
  {
    hide IsAnswer, NodeCount, TableNode, Revisits;
    r := WalkWithin(t, node, inputId, target, NodeCount(t));
    ghost var start := Place(node, inputId);
    if TableNode(t, node) {
      forall k: nat | StopsAfter(Onwards(t, target), start, k) && !Revisits(Onwards(t, target), start, NodeOf(), k + 1)
        ensures r == UnboundedAnswer(t, start, target, k)
      {
        ExactWithoutRevisit(t, start, target, k, r);
      }
      if r == Err(Cycle) {
        CycleMeansRevisit(t, start, target, r);
      }
    }
  }
}
