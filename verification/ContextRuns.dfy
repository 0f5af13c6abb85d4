/** Building runs of a rebinding: the hardware caches something at a bad moment, and the call goes
    on to its end. */
module ContextRuns {
  import opened Bits
  import opened Errors
  import opened ContextCache

  /** The rest of a call with no hardware activity: context entries that the descriptor misses
      and translations of other tags stay cached. */
  lemma {:induction false} RestOfCall(b: Rebind, s: State, before: seq<Event>, m: State)
    returns (events: seq<Event>, s': State)
    requires b.Valid() && b.source in m.hw.table && m.pc <= RETURNED && Run(b, s, before, m)
    ensures Run(b, s, events, s') && s'.pc == RETURNED && b.source in s'.hw.table
    ensures forall c :: c in m.hw.contexts && !Forgotten(b.unit, c.words) ==> c in s'.hw.contexts
    ensures forall t :: t in m.hw.translations && t.Tag() != b.tag ==> t in s'.hw.translations
    decreases RETURNED - m.pc
  {
    hide Run, Execute, Forgotten, TagOf;
    if m.pc == RETURNED {
      events, s' := before, m;
    } else {
      AccessForgets(b, m.hw);
      RunSnoc(b, s, before, m, Proceed);
      events, s' := RestOfCall(b, s, before + [Proceed], Step(b, m, Proceed));
    }
  }

  /** `k` accesses, then a load of the entry as it stands, if `load`, and the rest of the call. */
  lemma CallRun(b: Rebind, hw: Hardware, k: nat, load: bool) returns (events: seq<Event>, s': State)
    requires b.Valid() && b.source in hw.table && k <= 1
    requires load ==> MayCache(b.unit, if k == 0 then hw.table[b.source] else Torn(hw.table[b.source], b.words))
    ensures Run(b, State(hw, 0), events, s') && s'.pc == RETURNED && b.source in s'.hw.table
    ensures forall c :: c in hw.contexts && !Forgotten(b.unit, c.words) ==> c in s'.hw.contexts
    ensures var w := if k == 0 then hw.table[b.source] else Torn(hw.table[b.source], b.words);
            load && !Forgotten(b.unit, w) ==> CachedContext(b.source, w) in s'.hw.contexts
  {
    hide Forgotten, MayCache;
    var s, w := State(hw, 0), if k == 0 then hw.table[b.source] else Torn(hw.table[b.source], b.words);
    events, s' := [], s;
    assert Run(b, s, [], s);
    hide Run, Execute;
    if k == 1 {
      RunSnoc(b, s, events, s', Proceed);
      events, s' := events + [Proceed], Step(b, s', Proceed);
    }
    if load {
      RunSnoc(b, s, events, s', Meanwhile(LoadContext(b.source)));
      events, s' := events + [Meanwhile(LoadContext(b.source))], Step(b, s', Meanwhile(LoadContext(b.source)));
    }
    events, s' := RestOfCall(b, s, events, s');
  }

  /** An entry that can be cached and is not covered stays cached in some run. */
  lemma UncoveredStays(b: Rebind, hw: Hardware, w: Words) returns (events: seq<Event>, s': State)
    requires b.Valid() && b.source in hw.table && CanBeCached(b, hw, w) && w != b.words && !Forgotten(b.unit, w)
    ensures Run(b, State(hw, 0), events, s') && s'.pc == RETURNED && b.source in s'.hw.table
    ensures CachedContext(b.source, w) in s'.hw.contexts
  {
    hide Run, Forgotten;
    if CachedAtFirst(hw, b.source, w) {
      events, s' := CallRun(b, hw, 0, false);
    } else if w == hw.table[b.source] {
      events, s' := CallRun(b, hw, 0, true);
    } else {
      events, s' := CallRun(b, hw, 1, true);
    }
  }

  /** `k` accesses, a translation filled through the entry then in memory, and the rest. */
  lemma StaleRun(b: Rebind, hw: Hardware, k: nat) returns (events: seq<Event>, s': State, t: CachedTranslation)
    requires b.Valid() && b.source in hw.table && k <= 1
    requires var w := if k == 0 then hw.table[b.source] else Torn(hw.table[b.source], b.words);
             Walkable(b.unit, w) && TagOf(w) != b.tag
    ensures Run(b, State(hw, 0), events, s') && s'.pc == RETURNED
    ensures t in s'.hw.translations && t.source == b.source
    ensures t.via == if k == 0 then hw.table[b.source] else Torn(hw.table[b.source], b.words)
  {
    hide Walkable;
    var s := State(hw, 0);
    events, s' := [], s;
    assert Run(b, s, [], s);
    hide Run, Execute;
    if k == 1 {
      RunSnoc(b, s, events, s', Proceed);
      events, s' := events + [Proceed], Step(b, s', Proceed);
    }
    var w := s'.hw.table[b.source];
    var load := Meanwhile(LoadContext(b.source));
    RunSnoc(b, s, events, s', load);
    events, s' := events + [load], Step(b, s', load);
    var fill := Meanwhile(LoadTranslation(CachedContext(b.source, w), 0));
    RunSnoc(b, s, events, s', fill);
    events, s' := events + [fill], Step(b, s', fill);
    t := CachedTranslation(b.source, w, 0);
    events, s' := RestOfCall(b, s, events, s');
  }

  /** An entry that stays cached lets the hardware fill a translation through it after the call. */
  lemma LateFill(b: Rebind, hw: Hardware, w: Words) returns (events: seq<Event>, s': State, t: CachedTranslation)
    requires b.Valid() && b.source in hw.table && CanBeCached(b, hw, w) && w != b.words
    requires Walkable(b.unit, w) && !Forgotten(b.unit, w)
    ensures Run(b, State(hw, 0), events, s') && s'.pc == RETURNED
    ensures CachedContext(b.source, w) in s'.hw.contexts
    ensures t in s'.hw.translations && t.source == b.source && t.via == w
  {
    hide Run, Walkable, Forgotten, CanBeCached;
    events, s' := UncoveredStays(b, hw, w);
    var fill := Meanwhile(LoadTranslation(CachedContext(b.source, w), 0));
    RunSnoc(b, State(hw, 0), events, s', fill);
    events, s' := events + [fill], Step(b, s', fill);
    t := CachedTranslation(b.source, w, 0);
  }
}
