/**
 Context entries and the caches behind them, as a transition system.

 Rebinding a client stores two 64-bit words, then submits a descriptor for the client's
 cached context entries, then one for the IOTLB entries of a domain. Between any two of
 these accesses the hardware may load a context entry as it stands in memory, torn or not,
 fill translations through any cached context entry it can walk, and evict anything.
 */
module ContextCache {
  import opened Bits
  import opened Errors
  import Iotlb = VtdInvalidation

  const ADDRESS_LIMIT: nat := 0x10_0000_0000_0000
  const TAG_LIMIT: nat := 0x1_0000

  datatype Width = Bits39 | Bits48 | Bits57

  datatype Stage = Stage1 | Stage2

  /** A domain: its 16-bit hardware tag, the host's generation count, and its root. */
  datatype Domain = Domain(tag: nat, generation: nat, root: nat, width: Width, stage: Stage)

  /** The two words of a context entry. */
  datatype Words = Words(low: nat, high: nat)

  const DISABLED := Words(0, 0)
  const PASS_THROUGH := Words(1 + 2 * 4, 0)

  function AddressWidthCode(w: Width): nat {
    match w
    case Bits39 => 1
    case Bits48 => 2
    case Bits57 => 3
  }

  function FromDomain(d: Domain): Result<Words> {
    if d.root % 0x1000 != 0 then Err(InvalidAddress)
    else Ok(Words(d.root % ADDRESS_LIMIT + 1, AddressWidthCode(d.width) + d.tag * 0x100))
  }

  // The hardware's reading of the words.

  predicate Present(w: Words) { w.low % 2 == 1 }

  function TranslationType(w: Words): nat { w.low / 4 % 8 }

  function TagOf(w: Words): nat { w.high / 0x100 % TAG_LIMIT }

  function AddressWidthBits(w: Words): nat {
    match w.high % 8
    case 1 => 39
    case 2 => 48
    case 3 => 57
    case _ => 30
  }

  function WidthCode(w: Words): nat { w.high % 8 }

  function TableRoot(w: Words): nat { w.low / 0x1000 * 0x1000 % ADDRESS_LIMIT }

  /** The entry built for a domain routes to that domain: its tag and width always, and its
      root exactly when the root lies below `2^52`. */
  lemma FromDomainDecodes(d: Domain)
    requires d.tag < TAG_LIMIT
    ensures FromDomain(d).Ok? <==> d.root % 0x1000 == 0
    ensures FromDomain(d).Ok? ==>
              var w := FromDomain(d).value;
              && Present(w) && TranslationType(w) == 0 && TagOf(w) == d.tag
              && WidthCode(w) == AddressWidthCode(d.width)
              && AddressWidthBits(w) == (match d.width case Bits39 => 39 case Bits48 => 48 case Bits57 => 57)
              && (TableRoot(w) == d.root <==> d.root < ADDRESS_LIMIT)
              && w.low % 0x1000 == 1 && w.high / 8 % 32 == 0 && w.high < 0x100_0000
  {
    if d.root % 0x1000 == 0 {
      var base := d.root % ADDRESS_LIMIT;
      var q := d.root / 0x1000;
      DivModUnique(d.root, ADDRESS_LIMIT, q / 0x100_0000_0000, 0x1000 * (q % 0x100_0000_0000));
      DivModUnique(base + 1, 0x1000, q % 0x100_0000_0000, 1);
      DivModUnique(base + 1, 4, 0x400 * (q % 0x100_0000_0000), 1);
      DivModUnique(base + 1, 2, 0x800 * (q % 0x100_0000_0000), 1);
      DivModUnique(0x400 * (q % 0x100_0000_0000), 8, 0x80 * (q % 0x100_0000_0000), 0);
      DivModUnique(base, ADDRESS_LIMIT, 0, base);
      var code := AddressWidthCode(d.width);
      DivModUnique(code + d.tag * 0x100, 0x100, d.tag, code);
      DivModUnique(code + d.tag * 0x100, 8, d.tag * 0x20, code);
      DivModUnique(d.tag * 0x20, 32, d.tag, 0);
    }
  }

  // Caches.

  /** What is left open about the hardware: whether a device-selective context invalidation
      also compares the domain id, or is coarser; whether entries it cannot walk are cached;
      which pairs of translation type and width code it walks; and its drain capabilities. */
  datatype Traits = Traits(matchesDomain: bool, cachesFaulty: bool, walks: set<(nat, nat)>, cap: Iotlb.Capability)

  predicate Walkable(u: Traits, w: Words) {
    Present(w) && (TranslationType(w), WidthCode(w)) in u.walks
  }

  predicate MayCache(u: Traits, w: Words) { u.cachesFaulty || Walkable(u, w) }

  /** The domain id a context entry is cached under; an entry that cannot be walked has id 0. */
  function CachedId(u: Traits, w: Words): nat { if Walkable(u, w) then TagOf(w) else 0 }

  datatype CachedContext = CachedContext(source: nat, words: Words)

  /** A cached translation remembers, for the proofs, which words it was filled through. */
  datatype CachedTranslation = CachedTranslation(source: nat, via: Words, page: nat) {
    function Tag(): nat { TagOf(via) }
  }

  /** Context words by source id, and what the hardware has cached. */
  datatype Hardware = Hardware(
    table: map<nat, Words>,
    contexts: set<CachedContext>,
    translations: set<CachedTranslation>)

  datatype HardwareEvent =
    | LoadContext(source: nat)
    | LoadTranslation(context: CachedContext, page: nat)
    | EvictContext(context: CachedContext)
    | EvictTranslation(translation: CachedTranslation)

  predicate CanHappen(u: Traits, hw: Hardware, e: HardwareEvent) {
    match e
    case LoadContext(source) => source in hw.table && MayCache(u, hw.table[source])
    case LoadTranslation(context, _) => context in hw.contexts && Walkable(u, context.words)
    case _ => true
  }

  function Happen(u: Traits, hw: Hardware, e: HardwareEvent): Hardware
    requires CanHappen(u, hw, e)
  {
    match e
    case LoadContext(source) => hw.(contexts := hw.contexts + {CachedContext(source, hw.table[source])})
    case LoadTranslation(context, page) =>
      hw.(translations := hw.translations + {CachedTranslation(context.source, context.words, page)})
    case EvictContext(context) => hw.(contexts := hw.contexts - {context})
    case EvictTranslation(translation) => hw.(translations := hw.translations - {translation})
  }

  // Invalidation descriptors.

  /** `context_device`: type 1, device-selective, the client's id in bits 47 to 32. Bits 31 to
      16, where a domain id goes, stay 0. */
  function ContextDevice(source: nat): Iotlb.Descriptor {
    Iotlb.Descriptor(0x1 + 0x30 + source * 0x1_0000_0000, 0)
  }

  /** Does a context descriptor apply to a cached entry? A function mask widens the match. */
  predicate ContextHits(u: Traits, d: Iotlb.Descriptor, c: CachedContext) {
    var granularity, domain, source := d.low / 0x10 % 4, d.low / 0x1_0000 % 0x1_0000, d.low / 0x1_0000_0000 % 0x1_0000;
    var exact := d.low / 0x1_0000_0000_0000 % 4 == 0;
    && d.low % 0x10 == 1
    && (granularity == 1
        || (granularity == 2 && CachedId(u, c.words) == domain)
        || (granularity == 3
            && (if exact then c.source == source else c.source / 8 == source / 8)
            && (u.matchesDomain ==> CachedId(u, c.words) == domain)))
  }

  /** Entries a device-selective invalidation with domain id 0 forgets. */
  predicate Forgotten(u: Traits, w: Words) { u.matchesDomain ==> CachedId(u, w) == 0 }

  /** The descriptor the code submits applies to the client's cached entries, and on hardware
      that compares domain ids only to those cached under id 0. */
  lemma ContextDescriptorHits(u: Traits, source: nat, c: CachedContext)
    requires source < 0x1_0000
    ensures ContextHits(u, ContextDevice(source), c) <==> c.source == source && Forgotten(u, c.words)
  {
    var low := ContextDevice(source).low;
    DivModUnique(low, 0x10, 3 + source * 0x1000_0000, 1);
    DivModUnique(3 + source * 0x1000_0000, 4, source * 0x400_0000, 3);
    DivModUnique(low, 0x1_0000, source * 0x1_0000, 0x31);
    DivModUnique(source * 0x1_0000, 0x1_0000, source, 0);
    DivModUnique(low, 0x1_0000_0000, source, 0x31);
    DivModUnique(low, 0x1_0000_0000_0000, 0, low);
  }

  function AsEntry(t: CachedTranslation): Iotlb.Entry { Iotlb.Entry(t.Tag(), t.page, 0) }

  /** What the hardware does for a descriptor it has read. */
  function Execute(u: Traits, hw: Hardware, d: Iotlb.Descriptor): Hardware {
    var contexts := set c | c in hw.contexts && !ContextHits(u, d, c);
    var translations := set t | t in hw.translations && !Iotlb.Hits(d, AsEntry(t));
    Hardware(hw.table, contexts, translations)
  }

  /** One rebinding: the client's source id, its new words, the tag to invalidate, and the
      hardware it runs on. */
  datatype Rebind = Rebind(source: nat, words: Words, tag: nat, unit: Traits) {
    predicate Valid() { source < 0x1_0000 && tag < TAG_LIMIT }
  }

  /** `pc` counts the accesses of the rebinding that have been made. */
  datatype State = State(hw: Hardware, pc: nat)

  const RETURNED: nat := 4

  datatype Event = Proceed | Meanwhile(event: HardwareEvent)

  predicate Enabled(b: Rebind, s: State, e: Event) {
    && b.Valid() && b.source in s.hw.table
    && match e
       case Proceed => s.pc < RETURNED
       case Meanwhile(h) => CanHappen(b.unit, s.hw, h)
  }

  /** The two invalidations a rebinding submits, in order. */
  function Submitted(b: Rebind): (ds: seq<Iotlb.Descriptor>)
    ensures |ds| == 2
  {
    [ContextDevice(b.source), Iotlb.IotlbDomain(b.tag, b.unit.cap)]
  }

  function Access(b: Rebind, hw: Hardware, pc: nat): Hardware
    requires b.source in hw.table && pc < RETURNED
  {
    match pc
    case 0 => hw.(table := hw.table[b.source := hw.table[b.source].(low := b.words.low)])
    case 1 => hw.(table := hw.table[b.source := hw.table[b.source].(high := b.words.high)])
    case _ => Execute(b.unit, hw, Submitted(b)[pc - 2])
  }

  /** What the two descriptors come to. */
  lemma AccessForgets(b: Rebind, hw: Hardware)
    requires b.Valid() && b.source in hw.table
    ensures Access(b, hw, 2) ==
            hw.(contexts := set c | c in hw.contexts && !(c.source == b.source && Forgotten(b.unit, c.words)))
    ensures Access(b, hw, 3) == hw.(translations := set t | t in hw.translations && t.Tag() != b.tag)
  {
    forall c | c in hw.contexts
      ensures ContextHits(b.unit, ContextDevice(b.source), c) <==> c.source == b.source && Forgotten(b.unit, c.words)
    {
      ContextDescriptorHits(b.unit, b.source, c);
    }
    hide ContextHits, Iotlb.Hits;
    forall t | t in hw.translations
      ensures Iotlb.Hits(Iotlb.IotlbDomain(b.tag, b.unit.cap), AsEntry(t)) <==> t.Tag() == b.tag
    {
      Iotlb.DomainDescriptorHits(b.tag, b.unit.cap, AsEntry(t));
    }
    DescriptorTypes(b, hw);
  }

  /** A context descriptor touches no translation, and an IOTLB descriptor no context entry. */
  lemma DescriptorTypes(b: Rebind, hw: Hardware)
    requires b.Valid()
    ensures forall t :: t in hw.translations ==> !Iotlb.Hits(ContextDevice(b.source), AsEntry(t))
    ensures forall c :: c in hw.contexts ==> !ContextHits(b.unit, Iotlb.IotlbDomain(b.tag, b.unit.cap), c)
  {
    DivModUnique(ContextDevice(b.source).low, 0x10, 3 + b.source * 0x1000_0000, 1);
    Iotlb.LowWord(2, b.tag, b.unit.cap);
  }

  function Step(b: Rebind, s: State, e: Event): State
    requires Enabled(b, s, e)
  {
    match e
    case Proceed => State(Access(b, s.hw, s.pc), s.pc + 1)
    case Meanwhile(h) => s.(hw := Happen(b.unit, s.hw, h))
  }

  ghost predicate Run(b: Rebind, s: State, events: seq<Event>, s': State)
    decreases |events|
  {
    if events == [] then s' == s
    else Enabled(b, s, events[0]) && Run(b, Step(b, s, events[0]), events[1..], s')
  }

  lemma {:induction false} RunAppend(b: Rebind, s: State, a: seq<Event>, m: State, a': seq<Event>, s': State)
    requires Run(b, s, a, m) && Run(b, m, a', s')
    ensures Run(b, s, a + a', s')
    decreases |a|
  {
    hide Access, Happen, CanHappen;
    if a == [] {
      assert a + a' == a';
    } else {
      RunAppend(b, Step(b, s, a[0]), a[1..], m, a', s');
      assert (a + a')[1..] == a[1..] + a';
    }
  }

  lemma RunSnoc(b: Rebind, s: State, events: seq<Event>, s': State, e: Event)
    requires Run(b, s, events, s') && Enabled(b, s', e)
    ensures Run(b, s, events + [e], Step(b, s', e))
  {
    hide Access, Happen, CanHappen;
    assert [e][1..] == [];
    RunAppend(b, s, events, s', [e], Step(b, s', e));
  }

  function Torn(prior: Words, next: Words): Words { Words(next.low, prior.high) }

  // Coherence, from any initial caches.

  ghost predicate CachedAtFirst(hw: Hardware, source: nat, w: Words) { CachedContext(source, w) in hw.contexts }

  /** The client's entries that the hardware can have cached in a rebinding from `hw` on. */
  ghost predicate CanBeCached(b: Rebind, hw: Hardware, w: Words)
    requires b.source in hw.table
  {
    var prior := hw.table[b.source];
    || CachedAtFirst(hw, b.source, w)
    || (MayCache(b.unit, w) && (w == prior || w == Torn(prior, b.words) || w == b.words))
  }

  /** Every entry to be dropped is one that the submitted descriptor makes the hardware drop. */
  ghost predicate DescriptorCovers(b: Rebind, hw: Hardware)
    requires b.source in hw.table
  {
    forall w :: CanBeCached(b, hw, w) && w != b.words ==> Forgotten(b.unit, w)
  }

  /** No cached context entry of the client differs from the table, and no translation with the
      invalidated tag was filled through an older entry or a torn mixture. */
  ghost predicate Coherent(b: Rebind, hw: Hardware) {
    && (forall c :: c in hw.contexts && c.source == b.source ==> c.words == b.words)
    && (forall t :: t in hw.translations && t.source == b.source && t.Tag() == b.tag ==> t.via == b.words)
  }

  /** What holds after each access, whatever was cached before the call. */
  ghost predicate Tracked(b: Rebind, start: Hardware, s: State)
    requires b.source in start.table
  {
    var prior := start.table[b.source];
    && s.hw.table == start.table[b.source :=
                       if s.pc == 0 then prior else if s.pc == 1 then Torn(prior, b.words) else b.words]
    && (forall c :: c in s.hw.contexts && c.source == b.source ==> CanBeCached(b, start, c.words))
    && (s.pc >= 3 ==> forall c :: c in s.hw.contexts && c.source == b.source ==>
                        c.words == b.words || !Forgotten(b.unit, c.words))
    && (s.pc >= 4 ==> forall t :: t in s.hw.translations && t.source == b.source && t.Tag() == b.tag ==>
                        t.via == b.words || (CanBeCached(b, start, t.via) && !Forgotten(b.unit, t.via)))
  }

  lemma TrackedStep(b: Rebind, start: Hardware, s: State, e: Event)
    requires b.source in start.table && Tracked(b, start, s) && Enabled(b, s, e)
    ensures Tracked(b, start, Step(b, s, e))
  {
    AccessForgets(b, s.hw);
    hide CanBeCached, Execute, Forgotten;
    if e.Meanwhile? && e.event.LoadContext? && e.event.source == b.source {
      LoadedCanBeCached(b, start, s.hw.table[b.source]);
    }
  }

  lemma LoadedCanBeCached(b: Rebind, start: Hardware, w: Words)
    requires b.source in start.table && MayCache(b.unit, w)
    requires w == start.table[b.source] || w == Torn(start.table[b.source], b.words) || w == b.words
    ensures CanBeCached(b, start, w)
  {
  }

  lemma {:induction false} TrackedRun(b: Rebind, start: Hardware, s: State, events: seq<Event>, s': State)
    requires b.source in start.table && Tracked(b, start, s) && Run(b, s, events, s')
    ensures Tracked(b, start, s')
    decreases |events|
  {
    hide Tracked, Step;
    if events != [] {
      TrackedStep(b, start, s, events[0]);
      TrackedRun(b, start, Step(b, s, events[0]), events[1..], s');
    }
  }

  /** A rebinding writes the client's entry and no other, whatever the hardware does; and if the
      descriptor covers what can be cached, then after it has returned, and for ever after, the
      caches are coherent. */
  lemma RebindCoherence(b: Rebind, hw: Hardware, events: seq<Event>, s': State)
    requires b.source in hw.table
    requires Run(b, State(hw, 0), events, s') && s'.pc >= RETURNED
    ensures s'.hw.table == hw.table[b.source := b.words]
    ensures DescriptorCovers(b, hw) ==> Coherent(b, s'.hw)
  {
    assert Tracked(b, hw, State(hw, 0));
    hide CanBeCached, Forgotten, Run;
    TrackedRun(b, hw, State(hw, 0), events, s');
  }
}
