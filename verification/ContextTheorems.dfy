/** Exactly when a rebinding leaves nothing of the client's previous routing in the caches. */
module ContextTheorems {
  import opened Bits
  import opened Errors
  import opened ContextCache
  import opened ContextRuns

  ghost predicate AlwaysCoherent(b: Rebind, hw: Hardware) {
    forall events, s' :: Run(b, State(hw, 0), events, s') && s'.pc >= RETURNED ==> Coherent(b, s'.hw)
  }

  /** From any caches, a rebinding leaves the caches coherent in every run if and only if the
      submitted descriptor covers every entry that can be cached and differs from the new one:
      the hardware does not compare domain ids, or each such entry that it can walk has tag 0. */
  lemma CoherentIffDescriptorCovers(b: Rebind, hw: Hardware)
    requires b.Valid() && b.source in hw.table
    ensures AlwaysCoherent(b, hw) <==> DescriptorCovers(b, hw)
  {
    if DescriptorCovers(b, hw) {
      forall events, s' | Run(b, State(hw, 0), events, s') && s'.pc >= RETURNED
        ensures Coherent(b, s'.hw)
      {
        RebindCoherence(b, hw, events, s');
      }
    } else {
      var w :| CanBeCached(b, hw, w) && w != b.words && !Forgotten(b.unit, w);
      var events, s' := UncoveredStays(b, hw, w);
      assert !Coherent(b, s'.hw);
    }
  }

  // Which translations of other tags can survive?

  /** Everything cached for the client came from its current entry. */
  ghost predicate FilledThrough(u: Traits, hw: Hardware, source: nat) {
    && source in hw.table
    && (forall c :: c in hw.contexts && c.source == source ==> c.words == hw.table[source])
    && (forall t :: t in hw.translations && t.source == source ==> t.via == hw.table[source] && Walkable(u, t.via))
  }

  /** Entries the hardware could walk before the call is through, and must forget. */
  predicate MustForget(b: Rebind, prior: Words, w: Words) {
    (w == prior || w == Torn(prior, b.words)) && Walkable(b.unit, w) && w != b.words
  }

  /** Both invalidations reach what was filled through an entry: it carries the tag that is
      invalidated, and the cached entry itself is dropped. */
  predicate Reached(b: Rebind, w: Words) { TagOf(w) == b.tag && Forgotten(b.unit, w) }

  predicate BothCover(b: Rebind, prior: Words) {
    && (MustForget(b, prior, prior) ==> Reached(b, prior))
    && (MustForget(b, prior, Torn(prior, b.words)) ==> Reached(b, Torn(prior, b.words)))
  }

  /** Where everything cached for the client came from its current entry, the rebinding is
      coherent in every run if and only if the hardware does not compare domain ids, or neither
      the old entry nor the torn one can be walked with a tag other than 0. */
  lemma CoherentIffUntagged(b: Rebind, hw: Hardware)
    requires b.Valid() && FilledThrough(b.unit, hw, b.source)
    ensures var prior := hw.table[b.source];
            AlwaysCoherent(b, hw) <==>
              (b.unit.matchesDomain ==>
                && (MustForget(b, prior, prior) ==> TagOf(prior) == 0)
                && (MustForget(b, prior, Torn(prior, b.words)) ==> TagOf(Torn(prior, b.words)) == 0))
  {
    CoherentIffDescriptorCovers(b, hw);
    var prior := hw.table[b.source];
    hide AlwaysCoherent, Walkable, TagOf, TranslationType, WidthCode;
    if DescriptorCovers(b, hw) {
      assert Walkable(b.unit, prior) ==> CanBeCached(b, hw, prior);
      assert Walkable(b.unit, Torn(prior, b.words)) ==> CanBeCached(b, hw, Torn(prior, b.words));
    }
  }

  ghost predicate NothingStale(b: Rebind, hw: Hardware) {
    forall t :: t in hw.translations && t.source == b.source ==> t.via == b.words
  }

  ghost predicate Bounded(b: Rebind, prior: Words, s: State) {
    && b.source in s.hw.table
    && s.hw.table[b.source] == (if s.pc == 0 then prior else if s.pc == 1 then Torn(prior, b.words) else b.words)
    && (forall c :: c in s.hw.contexts && c.source == b.source ==> c.words in {prior, Torn(prior, b.words), b.words})
    && (forall t :: t in s.hw.translations && t.source == b.source ==>
          t.via in {prior, Torn(prior, b.words), b.words} && Walkable(b.unit, t.via))
    && (s.pc >= 3 ==> forall c :: c in s.hw.contexts && c.source == b.source ==>
                        c.words == b.words || !Forgotten(b.unit, c.words))
    && (s.pc >= 4 ==> forall t :: t in s.hw.translations && t.source == b.source ==>
                        t.via == b.words || !Reached(b, t.via))
  }

  lemma BoundedStep(b: Rebind, prior: Words, s: State, e: Event)
    requires Bounded(b, prior, s) && Enabled(b, s, e)
    ensures Bounded(b, prior, Step(b, s, e))
  {
    AccessForgets(b, s.hw);
    hide Execute, Forgotten, Walkable, MayCache;
  }

  lemma {:induction false} BoundedRun(b: Rebind, prior: Words, s: State, events: seq<Event>, s': State)
    requires Bounded(b, prior, s) && Run(b, s, events, s')
    ensures Bounded(b, prior, s')
    decreases |events|
  {
    hide Bounded, Step;
    if events != [] {
      BoundedStep(b, prior, s, events[0]);
      BoundedRun(b, prior, Step(b, s, events[0]), events[1..], s');
    }
  }

  lemma CoveredNothingStale(b: Rebind, hw: Hardware, events: seq<Event>, s': State)
    requires FilledThrough(b.unit, hw, b.source) && BothCover(b, hw.table[b.source])
    requires Run(b, State(hw, 0), events, s') && s'.pc >= RETURNED
    ensures NothingStale(b, s'.hw)
  {
    hide Walkable, Reached, Forgotten, Run;
    BoundedRun(b, hw.table[b.source], State(hw, 0), events, s');
  }

  ghost predicate NeverStale(b: Rebind, hw: Hardware) {
    forall events, s' :: Run(b, State(hw, 0), events, s') && s'.pc >= RETURNED ==> NothingStale(b, s'.hw)
  }

  /** The whole IOTLB forgets the client's previous routing, in every run and for ever after, if
      and only if each entry the hardware could have walked before, the old one and the torn one,
      carries the invalidated tag and is one that the context descriptor drops. */
  lemma NeverStaleIffBothCover(b: Rebind, hw: Hardware)
    requires b.Valid() && FilledThrough(b.unit, hw, b.source)
    ensures NeverStale(b, hw) <==> BothCover(b, hw.table[b.source])
  {
    var prior := hw.table[b.source];
    if BothCover(b, prior) {
      forall events, s' | Run(b, State(hw, 0), events, s') && s'.pc >= RETURNED
        ensures NothingStale(b, s'.hw)
      {
        CoveredNothingStale(b, hw, events, s');
      }
    } else {
      var k := if MustForget(b, prior, prior) && !Reached(b, prior) then 0 else 1;
      var w := if k == 0 then prior else Torn(prior, b.words);
      SomethingStale(b, hw, k, w);
    }
  }

  lemma SomethingStale(b: Rebind, hw: Hardware, k: nat, w: Words)
    requires b.Valid() && b.source in hw.table && k <= 1
    requires w == if k == 0 then hw.table[b.source] else Torn(hw.table[b.source], b.words)
    requires Walkable(b.unit, w) && w != b.words && !Reached(b, w)
    ensures !NeverStale(b, hw)
  {
    if TagOf(w) != b.tag {
      var events, s', t := StaleRun(b, hw, k);
      assert !NothingStale(b, s'.hw);
    } else {
      var events, s', t := LateFill(b, hw, w);
      assert !NothingStale(b, s'.hw);
    }
  }

  // The bindings of one controller.

  /** The entries a client can have under one controller, whose domain does not change. */
  predicate Ordinary(w: Words, d: Domain) {
    w == DISABLED || w == PASS_THROUGH || FromDomain(d) == Ok(w)
  }

  predicate Walks(u: Traits, kind: nat, code: nat) { (kind, code) in u.walks }

  /** The shapes and tags of ordinary entries, and of the mixtures between their two stores. */
  lemma OrdinaryShapes(u: Traits, d: Domain)
    requires d.tag < TAG_LIMIT && FromDomain(d).Ok?
    ensures var w, code := FromDomain(d).value, AddressWidthCode(d.width);
            && w != DISABLED && w != PASS_THROUGH && w.high > 0
            && TagOf(w) == TagOf(Words(PASS_THROUGH.low, w.high)) == d.tag
            && TagOf(PASS_THROUGH) == TagOf(Words(w.low, 0)) == 0
            && (Walkable(u, w) <==> Walks(u, 0, code))
            && (Walkable(u, PASS_THROUGH) <==> Walks(u, 2, 0))
            && (Walkable(u, Words(w.low, 0)) <==> Walks(u, 0, 0))
            && (Walkable(u, Words(PASS_THROUGH.low, w.high)) <==> Walks(u, 2, code))
    ensures forall high :: !Walkable(u, Words(0, high))
  {
    FromDomainDecodes(d);
    var code := AddressWidthCode(d.width);
    DivModUnique(code + d.tag * 0x100, 0x100, d.tag, code);
  }

  /** When an ordinary rebinding leaves no stale translation of any tag. */
  predicate CleanRebind(u: Traits, prior: Words, next: Words, d: Domain) {
    var code := AddressWidthCode(d.width);
    if prior == next then true
    else if FromDomain(d) == Ok(prior) then
      Walks(u, 0, code) || (next == PASS_THROUGH && Walks(u, 2, code)) ==> !u.matchesDomain || d.tag == 0
    else if prior == PASS_THROUGH then
      Walks(u, 2, 0) || (next != DISABLED && Walks(u, 0, 0)) ==> d.tag == 0
    else next != PASS_THROUGH && Walks(u, 0, 0) ==> d.tag == 0
  }

  /** For every binding and unbinding of one controller, on every hardware, the exact condition
      in terms of what the hardware walks, whether it compares domain ids, and the domain's tag. */
  lemma OrdinaryRebinds(b: Rebind, hw: Hardware, d: Domain)
    requires b.Valid() && FromDomain(d).Ok? && b.tag == d.tag && FilledThrough(b.unit, hw, b.source)
    requires Ordinary(hw.table[b.source], d) && Ordinary(b.words, d)
    ensures NeverStale(b, hw) <==> CleanRebind(b.unit, hw.table[b.source], b.words, d)
  {
    hide NeverStale, Walkable, TagOf;
    NeverStaleIffBothCover(b, hw);
    OrdinaryShapes(b.unit, d);
    OrdinaryCovers(b, hw.table[b.source], d);
  }

  lemma OrdinaryCovers(b: Rebind, prior: Words, d: Domain)
    requires d.tag < TAG_LIMIT && FromDomain(d).Ok? && b.tag == d.tag
    requires Ordinary(prior, d) && Ordinary(b.words, d)
    ensures BothCover(b, prior) <==> CleanRebind(b.unit, prior, b.words, d)
  {
    OrdinaryShapes(b.unit, d);
    hide Walkable, TagOf, FromDomain;
  }

  /** The first bind of a disabled client: the low word is stored first, and for a moment the
      entry is present with tag 0 and width code 0. For a domain with another tag it leaves
      nothing stale if and only if the hardware does not walk such an entry. */
  lemma FirstBindCleanIff(source: nat, hw: Hardware, d: Domain, u: Traits)
    requires source < 0x1_0000 && 0 < d.tag < TAG_LIMIT && FromDomain(d).Ok?
    requires FilledThrough(u, hw, source) && hw.table[source] == DISABLED
    ensures NeverStale(Rebind(source, FromDomain(d).value, d.tag, u), hw) <==> !Walks(u, 0, 0)
  {
    OrdinaryShapes(u, d);
    OrdinaryRebinds(Rebind(source, FromDomain(d).value, d.tag, u), hw, d);
  }

  /** Unbinding a client of a domain the hardware walks leaves nothing stale if and only if the
      hardware does not compare domain ids or the domain's tag is 0. */
  lemma UnbindCleanIff(source: nat, hw: Hardware, d: Domain, u: Traits)
    requires source < 0x1_0000 && d.tag < TAG_LIMIT && FromDomain(d).Ok? && Walks(u, 0, AddressWidthCode(d.width))
    requires FilledThrough(u, hw, source) && hw.table[source] == FromDomain(d).value
    ensures NeverStale(Rebind(source, DISABLED, d.tag, u), hw) <==> !u.matchesDomain || d.tag == 0
  {
    OrdinaryShapes(u, d);
    OrdinaryRebinds(Rebind(source, DISABLED, d.tag, u), hw, d);
  }

  /** The failing unbind: on hardware that compares domain ids, the descriptor's id 0 misses the
      cached entry of every domain with another tag. The entry stays cached after the call, and
      a translation with the active tag can be filled through it. */
  lemma UnbindCanKeepEntry(source: nat, hw: Hardware, d: Domain, u: Traits)
    returns (events: seq<Event>, s': State, t: CachedTranslation)
    requires source < 0x1_0000 && 0 < d.tag < TAG_LIMIT && FromDomain(d).Ok?
    requires u.matchesDomain && Walks(u, 0, AddressWidthCode(d.width))
    requires source in hw.table && hw.table[source] == FromDomain(d).value
    ensures var b := Rebind(source, DISABLED, d.tag, u);
            && Run(b, State(hw, 0), events, s') && s'.pc == RETURNED
            && CachedContext(source, FromDomain(d).value) in s'.hw.contexts
            && t in s'.hw.translations && t.source == source && t.Tag() == d.tag && t.via == FromDomain(d).value
            && !Coherent(b, s'.hw)
  {
    OrdinaryShapes(u, d);
    hide Run, Walkable, TagOf, FromDomain;
    events, s', t := LateFill(Rebind(source, DISABLED, d.tag, u), hw, FromDomain(d).value);
  }
}
