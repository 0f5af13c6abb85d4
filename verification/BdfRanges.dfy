/** PCI requester ranges: what a sorted, merged list of windows denotes. */
module BdfRanges {
  import opened Basics

  const BDF_LIMIT: nat := 0x1_0000

  datatype RangeError = Reversed | OutOfRange

  datatype SetError = Full | Overflow | InvalidRange(error: RangeError)

  datatype Checked<+T> = Good(value: T) | Bad(error: RangeError)

  /** `[start, end)`, with a 16-bit start and an exclusive end. */
  datatype Range = Range(start: nat, end: nat) {
    predicate Valid() { start < BDF_LIMIT && start <= end <= BDF_LIMIT }
    predicate IsEmpty() { end == start }
    predicate Proper() { start < end <= BDF_LIMIT }
    predicate Contains(x: nat) { start <= x < end }
  }

  const EMPTY := Range(0, 0)

  function Single(bdf: nat): (r: Range)
    ensures forall x: nat :: r.Contains(x) <==> x == bdf
  {
    Range(bdf, bdf + 1)
  }

  function Inclusive(first: nat, last: nat): (r: Checked<Range>)
    ensures r.Good? <==> first <= last
    ensures r.Good? ==> forall x: nat :: r.value.Contains(x) <==> first <= x <= last
  {
    if last < first then Bad(Reversed) else Good(Range(first, last + 1))
  }

  function FromBounds(start: nat, end: nat): (r: Checked<Range>)
    ensures r.Good? ==> r.value.Valid() && r.value == Range(start, end)
    ensures r.Good? <==> Range(start, end).Valid()
  {
    if start > 0xffff || end > 0xffff + 1 then Bad(OutOfRange)
    else if end < start then Bad(Reversed)
    else Good(Range(start, end))
  }

  /** Sorted, proper and separated by gaps: neither overlapping nor adjacent. */
  predicate Canonical(ws: seq<Range>) {
    && (forall i :: 0 <= i < |ws| ==> ws[i].Proper())
    && (forall i, j :: 0 <= i < j < |ws| ==> ws[i].end < ws[j].start)
  }

  ghost predicate In(ws: seq<Range>, x: nat) {
    exists i :: 0 <= i < |ws| && ws[i].Contains(x)
  }

  lemma InCons(w: Range, ws: seq<Range>, x: nat)
    ensures In([w] + ws, x) <==> w.Contains(x) || In(ws, x)
  {
    InAppend([w], ws, x);
    assert In([w], x) <==> w.Contains(x) by {
      assert [w][0] == w;
    }
  }

  lemma InAppend(a: seq<Range>, b: seq<Range>, x: nat)
    ensures In(a + b, x) <==> In(a, x) || In(b, x)
  {
    var all := a + b;
    if In(a, x) {
      var i :| 0 <= i < |a| && a[i].Contains(x);
      assert all[i].Contains(x);
    }
    if In(b, x) {
      var i :| 0 <= i < |b| && b[i].Contains(x);
      assert all[|a| + i].Contains(x);
    }
    if In(all, x) {
      var i :| 0 <= i < |all| && all[i].Contains(x);
      if i < |a| {
        assert a[i].Contains(x);
      } else {
        assert b[i - |a|].Contains(x);
      }
    }
  }

  /** The same set of requesters. */
  ghost predicate SameSet(a: seq<Range>, b: seq<Range>) {
    forall x: nat :: In(a, x) <==> In(b, x)
  }

  lemma HeadIsLeast(ws: seq<Range>, x: nat)
    requires Canonical(ws) && ws != [] && In(ws, x)
    ensures ws[0].start <= x
    ensures x >= ws[0].end ==> x > ws[0].end && In(ws[1..], x)
  {
  }

  lemma EmptyDenotes(ws: seq<Range>)
    requires Canonical(ws)
    ensures ws == [] <==> forall x: nat :: !In(ws, x)
  {
    if ws != [] {
      assert ws[0].Contains(ws[0].start) && In(ws, ws[0].start);
    }
  }

  lemma SameHead(a: seq<Range>, b: seq<Range>)
    requires Canonical(a) && Canonical(b) && SameSet(a, b) && a != [] && b != []
    ensures a[0].start >= b[0].start && a[0].end <= b[0].end
  {
    assert a[0].Contains(a[0].start) && In(a, a[0].start);
    HeadIsLeast(b, a[0].start);
    if a[0].end > b[0].end {
      assert b[0].Contains(b[0].start) && In(b, b[0].start);
      HeadIsLeast(a, b[0].start);
      assert a[0].Contains(b[0].end) && In(a, b[0].end);
      HeadIsLeast(b, b[0].end);
    }
  }

  /** Canonical lists are unique: two of them denoting one set are equal. */
  lemma {:induction false} CanonicalUnique(a: seq<Range>, b: seq<Range>)
    requires Canonical(a) && Canonical(b) && SameSet(a, b)
    ensures a == b
    decreases |a|
  {
    EmptyDenotes(a);
    EmptyDenotes(b);
    if a != [] && b != [] {
      SameHead(a, b);
      SameHead(b, a);
      forall x: nat
        ensures In(a[1..], x) <==> In(b[1..], x)
      {
        TailMember(a, x);
        TailMember(b, x);
      }
      CanonicalUnique(a[1..], b[1..]);
    }
  }

  lemma TailMember(ws: seq<Range>, x: nat)
    requires Canonical(ws) && ws != []
    ensures In(ws[1..], x) <==> In(ws, x) && x >= ws[0].end
  {
  }

  /** The canonical list of a set of windows with one more range: a reference definition,
      independent of how the windows are stored. */
  function Union(ws: seq<Range>, r: Range): (u: seq<Range>)
    ensures |u| <= |ws| + 1
    decreases |ws|
  {
    if r.IsEmpty() then ws
    else if ws == [] then [r]
    else if r.end < ws[0].start then [r] + ws
    else if ws[0].end < r.start then [ws[0]] + Union(ws[1..], r)
    else Union(ws[1..], Range(Min(ws[0].start, r.start), Max(ws[0].end, r.end)))
  }

  lemma {:induction false} UnionCanonical(ws: seq<Range>, r: Range, low: nat)
    requires Canonical(ws) && r.Proper()
    requires low <= r.start && (ws != [] ==> low <= ws[0].start)
    ensures Canonical(Union(ws, r))
    ensures Union(ws, r) != [] && low <= Union(ws, r)[0].start
    decreases |ws|
  {
    if ws == [] || r.end < ws[0].start {
    } else if ws[0].end < r.start {
      UnionCanonical(ws[1..], r, ws[0].end + 1);
    } else {
      UnionCanonical(ws[1..], Range(Min(ws[0].start, r.start), Max(ws[0].end, r.end)), low);
    }
  }

  lemma {:induction false} UnionDenotes(ws: seq<Range>, r: Range, x: nat)
    requires r.Valid() && Canonical(ws)
    ensures In(Union(ws, r), x) <==> In(ws, x) || r.Contains(x)
    decreases |ws|
  {
    if r.IsEmpty() {
    } else if ws == [] || r.end < ws[0].start {
      InCons(r, ws, x);
      assert [r] + ws == if ws == [] then [r] else [r] + ws;
    } else {
      InCons(ws[0], ws[1..], x);
      assert [ws[0]] + ws[1..] == ws;
      if ws[0].end < r.start {
        UnionDenotes(ws[1..], r, x);
        InCons(ws[0], Union(ws[1..], r), x);
      } else {
        UnionDenotes(ws[1..], Range(Min(ws[0].start, r.start), Max(ws[0].end, r.end)), x);
      }
    }
  }

  ghost predicate IsUnion(u: seq<Range>, ws: seq<Range>, r: Range) {
    forall x: nat :: In(u, x) <==> In(ws, x) || r.Contains(x)
  }

  /** `Union` is the one canonical list for the union of the two sets. */
  lemma UnionIsTheCanonicalForm(ws: seq<Range>, r: Range, u: seq<Range>)
    requires Canonical(ws) && r.Valid()
    ensures u == Union(ws, r) <==> Canonical(u) && IsUnion(u, ws, r)
  {
    if !r.IsEmpty() {
      UnionCanonical(ws, r, 0);
    }
    forall x: nat
      ensures In(Union(ws, r), x) <==> In(ws, x) || r.Contains(x)
    {
      UnionDenotes(ws, r, x);
    }
    if Canonical(u) && IsUnion(u, ws, r) {
      CanonicalUnique(u, Union(ws, r));
    }
  }

  /** What a set holds after a sequence of successful insertions into the empty set. */
  function UnionAll(rs: seq<Range>): seq<Range> {
    if rs == [] then [] else Union(UnionAll(rs[..|rs| - 1]), rs[|rs| - 1])
  }

  lemma {:induction false} UnionAllCanonical(rs: seq<Range>)
    requires forall i :: 0 <= i < |rs| ==> rs[i].Valid()
    ensures Canonical(UnionAll(rs))
    ensures forall x: nat :: In(UnionAll(rs), x) <==> In(rs, x)
    decreases |rs|
  {
    if rs != [] {
      var init, r := rs[..|rs| - 1], rs[|rs| - 1];
      UnionAllCanonical(init);
      UnionIsTheCanonicalForm(UnionAll(init), r, Union(UnionAll(init), r));
      forall x: nat
        ensures In(rs, x) <==> In(init, x) || r.Contains(x)
      {
        InAppend(init, [r], x);
        InCons(r, [], x);
        assert init + [r] == rs && [r] + [] == [r];
      }
    }
  }

  lemma InByMembers(a: seq<Range>, b: seq<Range>, x: nat)
    requires forall r :: r in a ==> r in b
    requires In(a, x)
    ensures In(b, x)
  {
    var i :| 0 <= i < |a| && a[i].Contains(x);
    assert a[i] in b;
  }

  /** Insertion order does not matter: two sequences with the same ranges, in any order and
      multiplicity, give the same windows. */
  lemma InsertionOrderIrrelevant(a: seq<Range>, b: seq<Range>)
    requires forall i :: 0 <= i < |a| ==> a[i].Valid()
    requires forall i :: 0 <= i < |b| ==> b[i].Valid()
    requires forall r :: r in a <==> r in b
    ensures UnionAll(a) == UnionAll(b)
  {
    UnionAllCanonical(a);
    UnionAllCanonical(b);
    forall x: nat
      ensures In(UnionAll(a), x) <==> In(UnionAll(b), x)
    {
      if In(a, x) { InByMembers(a, b, x); }
      if In(b, x) { InByMembers(b, a, x); }
    }
    CanonicalUnique(UnionAll(a), UnionAll(b));
  }

  /** Inserting the ranges in order never needs more windows than there are. */
  ghost predicate Fits(rs: seq<Range>, capacity: nat) {
    forall i :: 0 <= i <= |rs| ==> |UnionAll(rs[..i])| <= capacity
  }

  lemma FitsPrefix(a: seq<Range>, b: seq<Range>, capacity: nat)
    requires Fits(a + b, capacity)
    ensures Fits(a, capacity)
  {
    forall i | 0 <= i <= |a|
      ensures |UnionAll(a[..i])| <= capacity
    {
      assert (a + b)[..i] == a[..i];
    }
  }

  lemma FirstIsIn(rs: seq<Range>)
    requires rs != [] && rs[0].Proper()
    ensures In(rs, rs[0].start)
  {
    assert rs[0].Contains(rs[0].start);
  }

  lemma SomeIfIn(rs: seq<Range>, x: nat)
    requires In(rs, x)
    ensures rs != []
  {
  }

  /** The union of proper ranges is empty only if there is none. */
  lemma NonEmptyUnion(rs: seq<Range>)
    requires forall i :: 0 <= i < |rs| ==> rs[i].Proper()
    ensures UnionAll(rs) == [] <==> rs == []
  {
    UnionAllCanonical(rs);
    if rs != [] {
      FirstIsIn(rs);
      assert In(UnionAll(rs), rs[0].start);
    }
  }

  lemma UnionAllStep(rs: seq<Range>, r: Range)
    ensures UnionAll(rs + [r]) == Union(UnionAll(rs), r)
  {
  }

  lemma FitsStep(rs: seq<Range>, r: Range, capacity: nat)
    ensures Fits(rs + [r], capacity) <==> Fits(rs, capacity) && |UnionAll(rs + [r])| <= capacity
  {
    hide UnionAll;
    var all := rs + [r];
    assert all[..|all|] == all;
    if Fits(all, capacity) {
      FitsPrefix(rs, [r], capacity);
      assert |UnionAll(all[..|all|])| <= capacity;
    }
    if Fits(rs, capacity) && |UnionAll(all)| <= capacity {
      forall i | 0 <= i <= |all|
        ensures |UnionAll(all[..i])| <= capacity
      {
        assert i <= |rs| ==> all[..i] == rs[..i];
      }
    }
  }

  /** No more ranges than windows always fit. */
  lemma {:induction false} FewFit(rs: seq<Range>, capacity: nat)
    requires |rs| <= capacity
    ensures Fits(rs, capacity) && |UnionAll(rs)| <= |rs|
    decreases |rs|
  {
    hide Union;
    if rs == [] {
    } else {
      var init := rs[..|rs| - 1];
      FewFit(init, capacity);
      FitsStep(init, rs[|rs| - 1], capacity);
      assert init + [rs[|rs| - 1]] == rs;
    }
  }
}
