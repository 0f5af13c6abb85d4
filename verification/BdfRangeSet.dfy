/** The bounded set of requester ranges, kept in place in a fixed array of windows. */
module BdfRangeSets {
  import opened Basics
  import opened BdfRanges

  datatype Outcome = Pass | Fail(error: SetError)

  /** Window `i` absorbs window `i + 1`. */
  function Absorb(ws: seq<Range>, i: nat): (r: seq<Range>)
    requires i + 1 < |ws|
    ensures |r| == |ws| - 1
  {
    ws[..i] + [Range(ws[i].start, Max(ws[i].end, ws[i + 1].end))] + ws[i + 2..]
  }

  /** The windows without number `i` are canonical, and window `i` is in start order but may
      reach into its neighbours on both sides: the state while `merge_around` is at work. */
  predicate Merging(ws: seq<Range>, i: nat) {
    && i < |ws|
    && (forall j :: 0 <= j < |ws| ==> ws[j].Proper())
    && (forall j, k :: 0 <= j < k < |ws| && j != i && k != i ==> ws[j].end < ws[k].start)
    && (forall j :: 0 <= j < i ==> ws[j].start < ws[i].start)
    && (forall k :: i < k < |ws| ==> ws[i].start < ws[k].start)
  }

  /** Nothing reaches window `i` from before it. */
  predicate ApartBefore(ws: seq<Range>, i: nat) {
    i < |ws| && (i > 0 ==> ws[i - 1].end < ws[i].start)
  }

  /** Joining two touching windows does not change the set. */
  lemma AbsorbDenotes(ws: seq<Range>, i: nat)
    requires i + 1 < |ws| && ws[i].start <= ws[i + 1].start <= ws[i].end
    ensures SameSet(Absorb(ws, i), ws)
  {
    var m := Range(ws[i].start, Max(ws[i].end, ws[i + 1].end));
    var rest := ws[i + 2..];
    assert ws == ws[..i] + ([ws[i]] + ([ws[i + 1]] + rest));
    assert Absorb(ws, i) == ws[..i] + ([m] + rest);
    forall x: nat
      ensures In(Absorb(ws, i), x) <==> In(ws, x)
    {
      InAppend(ws[..i], [m] + rest, x);
      InCons(m, rest, x);
      InAppend(ws[..i], [ws[i]] + ([ws[i + 1]] + rest), x);
      InCons(ws[i], [ws[i + 1]] + rest, x);
      InCons(ws[i + 1], rest, x);
    }
  }

  lemma AbsorbRight(ws: seq<Range>, i: nat)
    requires Merging(ws, i) && i + 1 < |ws|
    ensures Merging(Absorb(ws, i), i)
    ensures ApartBefore(ws, i) ==> ApartBefore(Absorb(ws, i), i)
  {
  }

  lemma AbsorbLeft(ws: seq<Range>, i: nat)
    requires Merging(ws, i) && i > 0
    ensures Merging(Absorb(ws, i - 1), i - 1)
  {
  }

  /** The list with a range put between windows `i - 1` and `i`. */
  function Placed(ws: seq<Range>, i: nat, r: Range): (p: seq<Range>)
    requires i <= |ws|
    ensures |p| == |ws| + 1
  {
    ws[..i] + [r] + ws[i..]
  }

  lemma Shifted(before: seq<Range>, after: seq<Range>, i: nat, r: Range)
    requires i <= |before| && |after| == |before| + 1
    requires forall k :: 0 <= k < i ==> after[k] == before[k]
    requires after[i] == r
    requires forall k :: i < k < |after| ==> after[k] == before[k - 1]
    ensures after == Placed(before, i, r)
  {
  }

  lemma PlacedIsMerging(ws: seq<Range>, i: nat, r: Range)
    requires Canonical(ws) && i <= |ws| && r.Proper()
    requires forall j :: 0 <= j < i ==> ws[j].end < r.start
    requires i < |ws| ==> r.end < ws[i].start
    ensures Merging(Placed(ws, i, r), i)
  {
  }

  class BdfRangeSet {
    const windows: array<Range>
    var count: nat

    /** Stored windows first, unused slots EMPTY. */
    ghost predicate Padded()
      reads this, windows
    {
      count <= windows.Length && forall i :: count <= i < windows.Length ==> windows[i] == EMPTY
    }

    ghost function Windows(): seq<Range>
      requires count <= windows.Length
      reads this, windows
    {
      windows[..count]
    }

    ghost predicate Valid()
      reads this, windows
    {
      Padded() && Canonical(Windows())
    }

    constructor (capacity: nat)
      ensures Valid() && Windows() == [] && windows.Length == capacity && fresh(windows)
    {
      windows := new Range[capacity](_ => EMPTY);
      count := 0;
    }

    method Remove(index: nat)
      requires Padded() && index < count
      modifies windows, `count
      ensures Padded() && Windows() == old(Windows()[..index] + Windows()[index + 1..])
    {
      var cursor := index;
      while cursor + 1 < count
        invariant index <= cursor < count == old(count)
        invariant forall i :: 0 <= i < index ==> windows[i] == old(windows[i])
        invariant forall i :: index <= i < cursor ==> windows[i] == old(windows[i + 1])
        invariant forall i :: cursor <= i < windows.Length ==> windows[i] == old(windows[i])
      {
        windows[cursor] := windows[cursor + 1];
        cursor := cursor + 1;
      }
      count := count - 1;
      windows[count] := EMPTY;
    }

    /** Joins two neighbours when they overlap or touch. The bounds it builds are always
        valid, so it never fails. */
    method MergePair(left: nat, right: nat) returns (merged: bool, error: Outcome)
      requires Padded() && right == left + 1 < count
      requires windows[left].Proper() && windows[right].Proper()
      modifies windows, `count
      ensures error == Pass && Padded()
      ensures merged <==> old(windows[right].start <= windows[left].end)
      ensures Windows() == if merged then Absorb(old(Windows()), left) else old(Windows())
    {
      var leftRange, rightRange := windows[left], windows[right];
      if rightRange.start > leftRange.end {
        return false, Pass;
      }
      var bounds := FromBounds(leftRange.start, Max(leftRange.end, rightRange.end));
      windows[left] := bounds.value;
      Remove(right);
      merged, error := true, Pass;
      assert Windows() == Absorb(old(Windows()), left);
    }

    /** Joins window `start` with whatever it reaches on either side. */
    method MergeAround(start: nat) returns (r: Outcome)
      requires Padded() && Merging(Windows(), start)
      modifies windows, `count
      ensures r == Pass && Valid()
      ensures SameSet(Windows(), old(Windows()))
    {
      hide In;
      var index: nat := start;
      while index > 0
        invariant Padded() && Merging(Windows(), index)
        invariant SameSet(Windows(), old(Windows()))
        decreases index
      {
        ghost var before := Windows();
        var merged, error := MergePair(index - 1, index);
        if !merged {
          break;
        }
        AbsorbDenotes(before, index - 1);
        AbsorbLeft(before, index);
        index := index - 1;
      }
      MergeFollowing(index);
      r := Pass;
    }

    /** The second loop of `merge_around`: nothing reaches back from window `index`. */
    method MergeFollowing(index: nat)
      requires Padded() && Merging(Windows(), index)
      requires ApartBefore(Windows(), index)
      modifies windows, `count
      ensures Valid()
      ensures SameSet(Windows(), old(Windows()))
    {
      hide In, Absorb;
      while index + 1 < count
        invariant Padded() && Merging(Windows(), index)
        invariant ApartBefore(Windows(), index)
        invariant SameSet(Windows(), old(Windows()))
        decreases count
      {
        ghost var before := Windows();
        var merged, error := MergePair(index, index + 1);
        if !merged {
          break;
        }
        AbsorbDenotes(before, index);
        AbsorbRight(before, index);
      }
    }

    /** Shifts the later windows up by one and stores the range. */
    method Place(index: nat, range: Range)
      requires Padded() && index <= count < windows.Length
      modifies windows, `count
      ensures Padded()
      ensures Windows() == old(Windows()[..index] + [range] + Windows()[index..])
    {
      var cursor := count;
      while cursor > index
        invariant index <= cursor <= count == old(count) < windows.Length
        invariant forall i :: 0 <= i < cursor ==> windows[i] == old(windows[i])
        invariant forall i :: cursor < i <= count ==> windows[i] == old(windows[i - 1])
        invariant forall i :: count < i < windows.Length ==> windows[i] == EMPTY
      {
        windows[cursor] := windows[cursor - 1];
        cursor := cursor - 1;
      }
      windows[index] := range;
      count := count + 1;
      Shifted(old(Windows()), Windows(), index, range);
    }

    method InsertAt(index: nat, range: Range) returns (r: Outcome)
      requires Valid() && range.Proper() && index <= count
      requires forall j :: 0 <= j < index ==> windows[j].end < range.start
      requires index < count ==> range.end < windows[index].start
      modifies windows, `count
      ensures r == if old(count) < windows.Length then Pass else Fail(Full)
      ensures r.Fail? ==> windows[..] == old(windows[..]) && count == old(count)
      ensures Valid()
      ensures r.Pass? ==> SameSet(Windows(), Placed(old(Windows()), index, range))
    {
      hide In, SameSet, Merging;
      if count == windows.Length {
        return Fail(Full);
      }
      PlacedIsMerging(Windows(), index, range);
      Place(index, range);
      r := MergeAround(index);
    }

    /** Insertion is union with exact capacity: it succeeds exactly when the canonical form of
        the union fits, and then stores it; otherwise it reports Full and changes nothing.
        The range errors cannot occur. */
    method Insert(range: Range) returns (r: Outcome)
      requires Valid() && range.Valid()
      modifies windows, `count
      ensures Valid()
      ensures r == if |Union(old(Windows()), range)| <= windows.Length then Pass else Fail(Full)
      ensures r.Pass? ==> Windows() == Union(old(Windows()), range)
      ensures r.Fail? ==> windows[..] == old(windows[..]) && count == old(count)
    {
      hide In, SameSet, Placed;
      if range.IsEmpty() {
        return Pass;
      }
      ghost var ws := Windows();
      var index := 0;
      while index < count
        invariant 0 <= index <= count == old(count) && windows[..] == old(windows[..])
        invariant forall j :: 0 <= j < index ==> windows[j].end < range.start
      {
        var current := windows[index];
        if range.start >= current.start && range.end <= current.end {
          AbsorbedUnion(ws, index, range);
          return Pass;
        }
        if range.start <= current.end && range.end >= current.start {
          var bounds := FromBounds(Min(current.start, range.start), Max(current.end, range.end));
          windows[index] := bounds.value;
          assert Windows() == ws[index := bounds.value];
          r := MergeAround(index);
          GrownUnion(ws, index, range, Windows());
          return;
        }
        if range.start < current.start {
          r := InsertAt(index, range);
          PlacedUnion(ws, index, range);
          SameUnion(ws, range, Windows(), r);
          return;
        }
        index := index + 1;
      }
      r := InsertAt(count, range);
      PlacedUnion(ws, index, range);
      SameUnion(ws, range, Windows(), r);
    }
  }

  /** Inserts ranges one after another, up to the first that does not fit. `before` is what
      has been inserted into the set so far. */
  method InsertEach(s: BdfRangeSet, rs: seq<Range>, ghost before: seq<Range>) returns (r: Outcome)
    requires s.Valid() && Fits(before, s.windows.Length) && s.Windows() == UnionAll(before)
    requires forall i :: 0 <= i < |rs| ==> rs[i].Valid()
    modifies s.windows, s`count
    ensures s.Valid()
    ensures r == if Fits(before + rs, s.windows.Length) then Pass else Fail(Full)
    ensures r.Pass? ==> s.Windows() == UnionAll(before + rs)
  {
    hide UnionAll, Union, Fits;
    assert before + rs[..0] == before;
    for i := 0 to |rs|
      invariant s.Valid() && Fits(before + rs[..i], s.windows.Length)
      invariant s.Windows() == UnionAll(before + rs[..i])
    {
      assert before + rs[..i + 1] == before + rs[..i] + [rs[i]];
      UnionAllStep(before + rs[..i], rs[i]);
      FitsStep(before + rs[..i], rs[i], s.windows.Length);
      r := s.Insert(rs[i]);
      if r.Fail? {
        assert before + rs == before + rs[..i + 1] + rs[i + 1..];
        if Fits(before + rs, s.windows.Length) {
          FitsPrefix(before + rs[..i + 1], rs[i + 1..], s.windows.Length);
        }
        return;
      }
    }
    assert before + rs[..|rs|] == before + rs;
    r := Pass;
  }

  /** The range is already covered by window `i`. */
  lemma AbsorbedUnion(ws: seq<Range>, i: nat, r: Range)
    requires Canonical(ws) && i < |ws| && r.Proper()
    requires ws[i].start <= r.start && r.end <= ws[i].end
    ensures Union(ws, r) == ws
  {
    forall x: nat | r.Contains(x)
      ensures In(ws, x)
    {
      assert ws[i].Contains(x);
    }
    UnionIsTheCanonicalForm(ws, r, ws);
  }

  /** The range was joined with window `i`, and the result `u` made canonical again. */
  lemma GrownUnion(ws: seq<Range>, i: nat, r: Range, u: seq<Range>)
    requires Canonical(ws) && i < |ws| && r.Proper()
    requires r.start <= ws[i].end && r.end >= ws[i].start
    requires Canonical(u)
    requires SameSet(u, ws[i := Range(Min(ws[i].start, r.start), Max(ws[i].end, r.end))])
    ensures u == Union(ws, r)
  {
    var g := Range(Min(ws[i].start, r.start), Max(ws[i].end, r.end));
    assert ws == ws[..i] + ([ws[i]] + ws[i + 1..]);
    assert ws[i := g] == ws[..i] + ([g] + ws[i + 1..]);
    forall x: nat
      ensures In(u, x) <==> In(ws, x) || r.Contains(x)
    {
      InAppend(ws[..i], [g] + ws[i + 1..], x);
      InCons(g, ws[i + 1..], x);
      InAppend(ws[..i], [ws[i]] + ws[i + 1..], x);
      InCons(ws[i], ws[i + 1..], x);
      assert g.Contains(x) <==> ws[i].Contains(x) || r.Contains(x);
    }
    UnionIsTheCanonicalForm(ws, r, u);
  }

  lemma PlacedHolds(ws: seq<Range>, i: nat, r: Range, x: nat)
    requires i <= |ws|
    ensures In(Placed(ws, i, r), x) <==> In(ws, x) || r.Contains(x)
  {
    hide In;
    assert ws == ws[..i] + ws[i..] && Placed(ws, i, r) == ws[..i] + ([r] + ws[i..]);
    InAppend(ws[..i], [r] + ws[i..], x);
    InCons(r, ws[i..], x);
    InAppend(ws[..i], ws[i..], x);
  }

  /** The range fits between windows `i - 1` and `i` without touching either. */
  lemma PlacedUnion(ws: seq<Range>, i: nat, r: Range)
    requires Canonical(ws) && i <= |ws| && r.Proper()
    requires forall j :: 0 <= j < i ==> ws[j].end < r.start
    requires i < |ws| ==> r.end < ws[i].start
    ensures Union(ws, r) == Placed(ws, i, r)
  {
    var p := Placed(ws, i, r);
    assert Canonical(p);
    hide In, Placed, Canonical, Union;
    forall x: nat
      ensures In(p, x) <==> In(ws, x) || r.Contains(x)
    {
      PlacedHolds(ws, i, r, x);
    }
    UnionIsTheCanonicalForm(ws, r, p);
  }

  /** A canonical list of the same set is the union itself. */
  lemma SameUnion(ws: seq<Range>, r: Range, u: seq<Range>, outcome: Outcome)
    requires Canonical(ws) && r.Proper() && Canonical(u) && (outcome.Pass? ==> SameSet(u, Union(ws, r)))
    ensures outcome.Pass? ==> u == Union(ws, r)
  {
    if outcome.Pass? {
      UnionIsTheCanonicalForm(ws, r, Union(ws, r));
      CanonicalUnique(u, Union(ws, r));
    }
  }

  /** Exact capacity, said without the reference definition: insertion can succeed if and
      only if some canonical list of at most `capacity` windows denotes the union. */
  lemma FitsIffSomeCanonicalFormFits(ws: seq<Range>, r: Range, capacity: nat)
    requires Canonical(ws) && r.Valid()
    ensures |Union(ws, r)| <= capacity <==>
            exists u :: Canonical(u) && |u| <= capacity && IsUnion(u, ws, r)
  {
    UnionIsTheCanonicalForm(ws, r, Union(ws, r));
    if u :| Canonical(u) && |u| <= capacity && IsUnion(u, ws, r) {
      UnionIsTheCanonicalForm(ws, r, u);
    }
  }

  /** Whole-struct equality, unused slots included, is equality of the sets. */
  lemma StructEqualityIsSetEquality(a: BdfRangeSet, b: BdfRangeSet)
    requires a.Valid() && b.Valid() && a.windows.Length == b.windows.Length
    ensures a.windows[..] == b.windows[..] && a.count == b.count <==> SameSet(a.Windows(), b.Windows())
  {
    if SameSet(a.Windows(), b.Windows()) {
      CanonicalUnique(a.Windows(), b.Windows());
      assert a.count == |a.Windows()| == |b.Windows()| == b.count;
      forall i | 0 <= i < a.windows.Length
        ensures a.windows[i] == b.windows[i]
      {
        if i < a.count {
          assert a.windows[i] == a.Windows()[i] == b.Windows()[i] == b.windows[i];
        }
      }
    }
  }
}
