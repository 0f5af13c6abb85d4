/** `VtdUnit`'s bind and unbind calls, run against the caches of `ContextCache`. */
module ContextBind {
  import opened Basics
  import opened Bits
  import opened Errors
  import opened ContextCache
  import opened VtdInvalidation
  import opened RequesterLookup

  datatype Selector = Default | AddrSpace(id: nat) | Substream(id: nat)

  datatype Target = Abort | PassThrough | ToDomain(domain: Domain)

  datatype Client = Client(segment: nat, bus: nat, device: nat, function_: nat) {
    predicate Valid() { segment < 0x1_0000 && bus < 256 && device < 32 && function_ < 8 }
    /** `(device << 3) | function`: the client's entry in its bus's context table. */
    function Index(): nat { device * 8 + function_ }
    /** The 16-bit requester id the hardware looks up. */
    function Source(): nat { bus * 256 + Index() }
  }

  datatype Binding = Binding(client: Client, selector: Selector, target: Target)

  /** Clients of one segment share a table entry only if they are the same client. */
  lemma SourceIsInjective(a: Client, b: Client)
    requires a.Valid() && b.Valid() && a.segment == b.segment && a.Source() == b.Source()
    ensures a == b
  {
    DivModUnique(a.Source(), 256, a.bus, a.Index());
    DivModUnique(b.Source(), 256, b.bus, b.Index());
    DivModUnique(a.Index(), 8, a.device, a.function_);
    DivModUnique(b.Index(), 8, b.device, b.function_);
  }

  /** A requester id gives back its bus, device and function. */
  lemma SourceFields(c: Client)
    requires c.Valid()
    ensures c.Source() / 256 == c.bus && c.Source() % 256 / 8 == c.device && c.Source() % 8 == c.function_
  {
    DivModUnique(c.Source(), 256, c.bus, c.Index());
    DivModUnique(c.Index(), 8, c.device, c.function_);
    DivModUnique(c.Source(), 8, c.bus * 32 + c.device, c.function_);
  }

  function FromBinding(b: Binding, passThrough: bool): Result<Words> {
    if b.selector != Default then Err(FeatureUnavailable)
    else match b.target
      case Abort => Ok(DISABLED)
      case PassThrough => if passThrough then Ok(PASS_THROUGH) else Err(FeatureUnavailable)
      case ToDomain(domain) => FromDomain(domain)
  }

  /** Why a binding is refused before anything is written, if it is. */
  function Refusal(b: Binding, active: Domain, segment: Option<nat>, buses: set<nat>, passThrough: bool): Option<Error> {
    if b.selector != Default then Some(FeatureUnavailable)
    else if segment.Some? && segment.value != b.client.segment then Some(InvalidClient)
    else if b.target.ToDomain? && b.target.domain != active then Some(InvalidAddressSpace)
    else if b.client.bus !in buses then Some(ControllerUnavailable)
    else match FromBinding(b, passThrough)
      case Ok(_) => None
      case Err(error) => Some(error)
  }

  /** Each error, and when a binding is refused with it: what is checked first comes first. */
  ghost predicate RefusedWith(b: Binding, active: Domain, segment: Option<nat>, buses: set<nat>, passThrough: bool, e: Error) {
    var ofSegment := segment == None || segment == Some(b.client.segment);
    var ofDomain := forall d :: b.target == ToDomain(d) ==> d == active;
    || (e == FeatureUnavailable && b.selector != Default)
    || (e == InvalidClient && b.selector == Default && !ofSegment)
    || (e == InvalidAddressSpace && b.selector == Default && ofSegment && !ofDomain)
    || (e == ControllerUnavailable && b.selector == Default && ofSegment && ofDomain && b.client.bus !in buses)
    || (e == FeatureUnavailable && b.selector == Default && ofSegment && b.client.bus in buses
        && b.target == PassThrough && !passThrough)
    || (e == InvalidAddress && b.selector == Default && ofSegment && b.client.bus in buses
        && b.target == ToDomain(active) && active.root % 0x1000 != 0)
  }

  lemma RefusalMeans(b: Binding, active: Domain, segment: Option<nat>, buses: set<nat>, passThrough: bool)
    ensures forall e :: Refusal(b, active, segment, buses, passThrough) == Some(e) <==>
                        RefusedWith(b, active, segment, buses, passThrough, e)
  {
  }

  /** What the hardware decodes from the client's entry once it is bound to a target: nothing
      present; pass-through; or this domain's tag, width and root, in a multi-level entry. */
  predicate RoutesTo(w: Words, target: Target) {
    match target
    case Abort => !Present(w) && w.low == w.high == 0
    case PassThrough => Present(w) && TranslationType(w) == 2 && w.low == 0x9 && w.high == 0
    case ToDomain(d) =>
      && Present(w) && TranslationType(w) == 0 && TagOf(w) == d.tag
      && AddressWidthBits(w) == (match d.width case Bits39 => 39 case Bits48 => 48 case Bits57 => 57)
      && (d.root < 0x10_0000_0000_0000 ==> TableRoot(w) == d.root)
  }

  lemma BindingRoutes(b: Binding, passThrough: bool)
    requires FromBinding(b, passThrough).Ok? && (b.target.ToDomain? ==> b.target.domain.tag < TAG_LIMIT)
    ensures RoutesTo(FromBinding(b, passThrough).value, b.target)
    ensures b.target == PassThrough ==> passThrough
  {
    if b.target.ToDomain? {
      FromDomainDecodes(b.target.domain);
    }
  }

  /** The table as the hardware indexes it: by source id, through the bus's context table. */
  ghost function Flatten(tables: map<nat, seq<Words>>): (t: map<nat, Words>)
    requires forall bus :: bus in tables ==> bus < 256 && |tables[bus]| == 256
    ensures forall s: nat :: s in t <==> s / 256 in tables
    ensures forall s: nat :: s in t ==> t[s] == tables[s / 256][s % 256]
  {
    map s: nat | s < 0x1_0000 && s / 256 in tables :: tables[s / 256][s % 256]
  }

  predicate EntryHeld(tables: map<nat, seq<Words>>, addresses: map<nat, nat>, memory: map<nat, Words>, bus: nat, i: nat)
    requires addresses.Keys == tables.Keys
  {
    bus in tables && i < |tables[bus]| ==>
      && addresses[bus] + i * ENTRY_BYTES in memory
      && memory[addresses[bus] + i * ENTRY_BYTES] == tables[bus][i]
  }

  /** Memory has the entries of each bus's table at the table's address. */
  ghost predicate HeldBy(tables: map<nat, seq<Words>>, addresses: map<nat, nat>, memory: map<nat, Words>)
    requires addresses.Keys == tables.Keys
  {
    forall bus, i :: EntryHeld(tables, addresses, memory, bus, i)
  }

  /** Each installed bus's root entry points at its table, and the others are clear. */
  ghost predicate RootsMatch(roots: seq<Words>, addresses: map<nat, nat>) {
    && |roots| == 256
    && (forall bus :: bus in addresses && bus < 256 ==> RootEntry(addresses[bus]) == Ok(roots[bus]))
    && (forall bus :: 0 <= bus < 256 && bus !in addresses ==> roots[bus] == DISABLED)
  }

  /** The unit: its root table, the context tables it has installed with their addresses, and
      what the hardware has cached. */
  class VtdUnit {
    const segment: Option<nat>
    const passThrough: bool
    const unit: Traits
    var roots: seq<Words>
    var addresses: map<nat, nat>
    var tables: map<nat, seq<Words>>
    ghost var contexts: set<CachedContext>
    ghost var translations: set<CachedTranslation>

    ghost predicate Valid()
      reads this
    {
      && addresses.Keys == tables.Keys && RootsMatch(roots, addresses)
      && (forall bus :: bus in tables ==> bus < 256 && |tables[bus]| == 256)
    }

    ghost function Hw(): Hardware
      requires Valid()
      reads this
    {
      Hardware(Flatten(tables), contexts, translations)
    }

    /** A unit over a cleared root table. */
    constructor (segment: Option<nat>, passThrough: bool, unit: Traits)
      ensures Valid() && tables == map[]
      ensures this.segment == segment && this.passThrough == passThrough && this.unit == unit
    {
      this.segment, this.passThrough, this.unit := segment, passThrough, unit;
      this.roots, this.addresses, this.tables := seq(256, _ => DISABLED), map[], map[];
      this.contexts, this.translations := {}, {};
    }

    /** A misaligned table is refused and nothing changes. Otherwise the root entry of the bus is
        pointed at the table, and no other bus's entries change. */
    method InstallContextTable(bus: nat, address: nat, table: seq<Words>) returns (r: Result<()>)
      requires Valid() && bus < 256 && |table| == 256
      modifies this`roots, this`addresses, this`tables
      ensures Valid()
      ensures r == if address % 0x1000 != 0 then Err(InvalidAddress) else Ok(())
      ensures r.Err? ==> roots == old(roots) && addresses == old(addresses) && tables == old(tables)
      ensures r.Ok? ==>
                && tables == old(tables)[bus := table] && addresses == old(addresses)[bus := address]
                && roots == old(roots)[bus := RootEntry(address).value]
      ensures forall s: nat :: s in old(Hw().table) && s / 256 != bus ==>
                s in Hw().table && Hw().table[s] == old(Hw().table[s])
    {
      var root := RootEntry(address);
      if root.Err? {
        return Err(root.error);
      }
      roots := roots[bus := root.value];
      addresses := addresses[bus := address];
      tables := tables[bus := table];
      r := Ok(());
    }

    /** Through the root table the hardware finds exactly the installed entries, as long as the
        tables lie below `2^52`. */
    lemma HardwareFindsTables(memory: map<nat, Words>, source: nat)
      requires Valid() && HeldBy(tables, addresses, memory) && source < 0x1_0000
      requires forall bus :: bus in tables ==> addresses[bus] < ADDRESS_LIMIT
      ensures Lookup(roots, memory, source) ==
              if source in Hw().table then Some(Hw().table[source]) else None
    {
      hide RootsMatch, HeldBy, Lookup;
      LookupFindsEntry(roots, addresses, tables, memory, source);
    }

    /** Any number of hardware events. */
    method Meanwhiles(ghost b: Rebind, ghost pc: nat) returns (ghost events: seq<Event>)
      requires Valid() && b.Valid() && b.unit == unit && b.source in Hw().table
      modifies this`contexts, this`translations
      ensures Run(b, old(State(Hw(), pc)), events, State(Hw(), pc))
    {
      hide RootsMatch;
      ghost var start := State(Hw(), pc);
      events := [];
      var more: bool := *;
      var steps: nat := *;
      while more && steps > 0
        invariant Valid() && Run(b, start, events, State(Hw(), pc)) && b.source in Hw().table
        decreases steps
      {
        ghost var h: HardwareEvent := *;
        if CanHappen(unit, Hw(), h) {
          RunSnoc(b, start, events, State(Hw(), pc), Meanwhile(h));
          ghost var after := Happen(unit, Hw(), h);
          contexts, translations := after.contexts, after.translations;
          events := events + [Meanwhile(h)];
        }
        more := *;
        steps := steps - 1;
      }
    }

    method StoreLow(client: Client, low: nat)
      requires Valid() && client.Valid() && client.bus in tables
      modifies this`tables
      ensures Valid() && client.bus in tables
      ensures Hw() == old(Hw()).(table := old(Hw()).table[client.Source() := old(Hw()).table[client.Source()].(low := low)])
    {
      hide RootsMatch;
      DivModUnique(client.Source(), 256, client.bus, client.Index());
      var table := tables[client.bus];
      tables := tables[client.bus := table[client.Index() := table[client.Index()].(low := low)]];
      SameFlat(old(tables), client, tables[client.bus][client.Index()]);
    }

    method StoreHigh(client: Client, high: nat)
      requires Valid() && client.Valid() && client.bus in tables
      modifies this`tables
      ensures Valid() && client.bus in tables
      ensures Hw() == old(Hw()).(table := old(Hw()).table[client.Source() := old(Hw()).table[client.Source()].(high := high)])
    {
      hide RootsMatch;
      DivModUnique(client.Source(), 256, client.bus, client.Index());
      var table := tables[client.bus];
      tables := tables[client.bus := table[client.Index() := table[client.Index()].(high := high)]];
      SameFlat(old(tables), client, tables[client.bus][client.Index()]);
    }

    /** A queued invalidation: its descriptor is executed when it returns Ok, and possibly
        otherwise. */
    method SubmitInvalidation(descriptor: Descriptor) returns (r: Result<()>)
      requires Valid()
      modifies this`contexts, this`translations
      ensures r.Ok? ==> Hw() == Execute(unit, old(Hw()), descriptor)
      ensures r.Err? ==> Hw() == old(Hw()) || Hw() == Execute(unit, old(Hw()), descriptor)
    {
      var ok: bool := *;
      var executed: bool := *;
      if ok || executed {
        ghost var after := Execute(unit, Hw(), descriptor);
        contexts, translations := after.contexts, after.translations;
      }
      if ok {
        r := Ok(());
      } else {
        var error: Error := *;
        r := Err(error);
      }
    }

    /** `write_128`: the low word, then the high word. */
    method StoreEntry(client: Client, words: Words, ghost b: Rebind) returns (ghost events: seq<Event>)
      requires Valid() && client.Valid() && client.bus in tables
      requires b.Valid() && b.unit == unit && b.source == client.Source() && b.words == words
      requires b.source in Hw().table
      modifies this`tables, this`contexts, this`translations
      ensures Valid()
      ensures Hw().table == old(Hw()).table[client.Source() := words]
      ensures Run(b, old(State(Hw(), 0)), events, State(Hw(), 2))
    {
      hide RootsMatch, Flatten, Execute;
      ghost var start := State(Hw(), 0);
      events := Meanwhiles(b, 0);
      ghost var mark := Hw();
      RunSnoc(b, start, events, State(mark, 0), Proceed);
      StoreLow(client, words.low);
      events := events + [Proceed];
      ghost var e := Meanwhiles(b, 1);
      RunAppend(b, start, events, State(Access(b, mark, 0), 1), e, State(Hw(), 1));
      events := events + e;
      mark := Hw();
      RunSnoc(b, start, events, State(mark, 1), Proceed);
      StoreHigh(client, words.high);
      events := events + [Proceed];
      e := Meanwhiles(b, 2);
      RunAppend(b, start, events, State(Access(b, mark, 1), 2), e, State(Hw(), 2));
      events := events + e;
    }

    /** Writes the client's entry and submits its two invalidations. On Ok the four accesses
        have happened in order with arbitrary hardware activity around each of them. */
    method Reroute(client: Client, words: Words, tag: nat) returns (r: Result<()>, ghost events: seq<Event>)
      requires Valid() && client.Valid() && client.bus in tables && tag < TAG_LIMIT
      modifies this`tables, this`contexts, this`translations
      ensures Valid()
      ensures Hw().table == old(Hw()).table[client.Source() := words]
      ensures r.Ok? ==>
                Run(Rebind(client.Source(), words, tag, unit), old(State(Hw(), 0)), events, State(Hw(), RETURNED))
    {
      hide RootsMatch, Run;
      ghost var b := Rebind(client.Source(), words, tag, unit);
      ghost var start := State(Hw(), 0);
      DivModUnique(client.Source(), 256, client.bus, client.Index());
      events := StoreEntry(client, words, b);
      r, events := Forget(client.Source(), tag, b, start, events);
    }

    /** `invalidate_context_device` and `invalidate_iotlb_domain`. */
    method Forget(source: nat, tag: nat, ghost b: Rebind, ghost start: State, ghost before: seq<Event>)
      returns (r: Result<()>, ghost events: seq<Event>)
      requires Valid() && b.Valid() && b.unit == unit && b.source == source && b.tag == tag && source in Hw().table
      requires Run(b, start, before, State(Hw(), 2))
      modifies this`contexts, this`translations
      ensures Hw().table == old(Hw()).table
      ensures r.Ok? ==> Run(b, start, events, State(Hw(), RETURNED))
    {
      hide RootsMatch;
      events := before;
      ghost var mark := Hw();
      RunSnoc(b, start, events, State(mark, 2), Proceed);
      r := SubmitInvalidation(ContextDevice(source));
      if r.Err? {
        return;
      }
      events := events + [Proceed];
      ghost var e := Meanwhiles(b, 3);
      RunAppend(b, start, events, State(Access(b, mark, 2), 3), e, State(Hw(), 3));
      events := events + e;
      mark := Hw();
      RunSnoc(b, start, events, State(mark, 3), Proceed);
      r := SubmitInvalidation(IotlbDomain(tag, unit.cap));
      if r.Err? {
        return;
      }
      events := events + [Proceed];
      e := Meanwhiles(b, 4);
      RunAppend(b, start, events, State(Access(b, mark, 3), 4), e, State(Hw(), 4));
      events := events + e;
    }

    /** A refused binding touches nothing. On Ok the client is routed as asked, other clients
        are untouched, and if the context descriptor covers what can be cached, neither the
        context cache nor the active domain's translations remember the previous routing. */
    method BindContext(active: Domain, binding: Binding) returns (r: Result<()>)
      requires Valid() && binding.client.Valid() && active.tag < TAG_LIMIT
      modifies this`tables, this`contexts, this`translations
      ensures Valid()
      ensures var refusal := Refusal(binding, active, segment, old(tables).Keys, passThrough);
              if refusal.Some? then r == Err(refusal.value) && Hw() == old(Hw())
              else Hw().table == old(Hw()).table[binding.client.Source() := FromBinding(binding, passThrough).value]
      ensures var buses := old(tables).Keys;
              if exists e :: RefusedWith(binding, active, segment, buses, passThrough, e)
              then r.Err? && RefusedWith(binding, active, segment, buses, passThrough, r.error) && Hw() == old(Hw())
              else binding.client.Source() in Hw().table
                   && RoutesTo(Hw().table[binding.client.Source()], binding.target)
                   && (binding.target == PassThrough ==> passThrough)
      ensures r.Ok? ==>
                var b := Rebind(binding.client.Source(), FromBinding(binding, passThrough).value, active.tag, unit);
                DescriptorCovers(b, old(Hw())) ==> Coherent(b, Hw())
    {
      hide RootsMatch;
      RefusalMeans(binding, active, segment, tables.Keys, passThrough);
      if binding.selector != Default {
        return Err(FeatureUnavailable);
      }
      if segment.Some? && segment.value != binding.client.segment {
        return Err(InvalidClient);
      }
      if binding.target.ToDomain? && binding.target.domain != active {
        return Err(InvalidAddressSpace);
      }
      if binding.client.bus !in tables {
        return Err(ControllerUnavailable);
      }
      var words := FromBinding(binding, passThrough);
      if words.Err? {
        return Err(words.error);
      }
      BindingRoutes(binding, passThrough);
      DivModUnique(binding.client.Source(), 256, binding.client.bus, binding.client.Index());
      ghost var events;
      hide RefusedWith, RoutesTo;
      ghost var b := Rebind(binding.client.Source(), words.value, active.tag, unit);
      r, events := Reroute(binding.client, words.value, active.tag);
      if r.Ok? {
        RebindCoherence(b, old(Hw()), events, State(Hw(), RETURNED));
      }
    }

    method UnbindContext(domain: Domain, client: Client, selector: Selector) returns (r: Result<()>)
      requires Valid() && client.Valid() && domain.tag < TAG_LIMIT
      modifies this`tables, this`contexts, this`translations
      ensures Valid()
      ensures var refusal := Refusal(Binding(client, selector, Abort), domain, segment, old(tables).Keys, passThrough);
              if refusal.Some? then r == Err(refusal.value) && Hw() == old(Hw())
              else Hw().table == old(Hw()).table[client.Source() := DISABLED]
      ensures var buses := old(tables).Keys;
              if exists e :: RefusedWith(Binding(client, selector, Abort), domain, segment, buses, passThrough, e)
              then r.Err? && RefusedWith(Binding(client, selector, Abort), domain, segment, buses, passThrough, r.error)
                   && Hw() == old(Hw())
              else client.Source() in Hw().table && !Present(Hw().table[client.Source()])
      ensures r.Ok? ==>
                var b := Rebind(client.Source(), DISABLED, domain.tag, unit);
                DescriptorCovers(b, old(Hw())) ==> Coherent(b, Hw())
    {
      hide RootsMatch;
      RefusalMeans(Binding(client, selector, Abort), domain, segment, tables.Keys, passThrough);
      if selector != Default {
        return Err(FeatureUnavailable);
      }
      if segment.Some? && segment.value != client.segment {
        return Err(InvalidClient);
      }
      if client.bus !in tables {
        return Err(ControllerUnavailable);
      }
      DivModUnique(client.Source(), 256, client.bus, client.Index());
      ghost var events;
      ghost var b := Rebind(client.Source(), DISABLED, domain.tag, unit);
      r, events := Reroute(client, DISABLED, domain.tag);
      if r.Ok? {
        RebindCoherence(b, old(Hw()), events, State(Hw(), RETURNED));
      }
    }
  }

  lemma LookupFindsEntry(roots: seq<Words>, addresses: map<nat, nat>, tables: map<nat, seq<Words>>,
                         memory: map<nat, Words>, source: nat)
    requires addresses.Keys == tables.Keys && RootsMatch(roots, addresses) && HeldBy(tables, addresses, memory)
    requires forall bus :: bus in tables ==> |tables[bus]| == 256 && addresses[bus] < ADDRESS_LIMIT
    requires source < 0x1_0000
    ensures |roots| == 256
    ensures Lookup(roots, memory, source) ==
            if source / 256 in tables then Some(tables[source / 256][source % 256]) else None
  {
    hide RootEntry, Base;
    var bus, i := source / 256, source % 256;
    if bus in tables {
      RootEntryLeadsToTable(addresses[bus]);
      assert RootEntry(addresses[bus]) == Ok(roots[bus]);
      assert EntryHeld(tables, addresses, memory, bus, i);
    }
  }

  /** Page-aligned tables at different addresses have no entry in common. */
  lemma TablesApart(p: nat, i: nat, q: nat, j: nat)
    requires p % PAGE == 0 && q % PAGE == 0 && i < 256 && j < 256
    requires p + i * ENTRY_BYTES == q + j * ENTRY_BYTES
    ensures p == q && i == j
  {
    DivModUnique(p + i * ENTRY_BYTES, PAGE, p / PAGE, i * ENTRY_BYTES);
    DivModUnique(q + j * ENTRY_BYTES, PAGE, q / PAGE, j * ENTRY_BYTES);
  }

  /** Storing a client's entry in memory is the update of its table, if no two buses have one
      table. */
  lemma StoreIsTableUpdate(tables: map<nat, seq<Words>>, addresses: map<nat, nat>, memory: map<nat, Words>,
                           bus: nat, i: nat, words: Words)
    requires addresses.Keys == tables.Keys && HeldBy(tables, addresses, memory)
    requires forall b :: b in tables ==> |tables[b]| == 256 && addresses[b] % PAGE == 0
    requires forall b, b' :: b in tables && b' in tables && b != b' ==> addresses[b] != addresses[b']
    requires bus in tables && i < 256
    ensures HeldBy(tables[bus := tables[bus][i := words]], addresses, memory[addresses[bus] + i * 16 := words])
  {
    var after := tables[bus := tables[bus][i := words]];
    var memory' := memory[addresses[bus] + i * ENTRY_BYTES := words];
    forall b: nat, j: nat
      ensures EntryHeld(after, addresses, memory', b, j)
    {
      if b in tables && j < 256 {
        assert EntryHeld(tables, addresses, memory, b, j);
        if addresses[b] + j * ENTRY_BYTES == addresses[bus] + i * ENTRY_BYTES {
          TablesApart(addresses[b], j, addresses[bus], i);
        }
      }
    }
  }

  lemma SameFlat(tables: map<nat, seq<Words>>, client: Client, w: Words)
    requires forall bus :: bus in tables ==> bus < 256 && |tables[bus]| == 256
    requires client.Valid() && client.bus in tables
    ensures client.Source() in Flatten(tables)
    ensures Flatten(tables[client.bus := tables[client.bus][client.Index() := w]]) == Flatten(tables)[client.Source() := w]
  {
    DivModUnique(client.Source(), 256, client.bus, client.Index());
    var after := tables[client.bus := tables[client.bus][client.Index() := w]];
    forall s: nat | s in Flatten(after)
      ensures s in Flatten(tables) && Flatten(after)[s] == Flatten(tables)[client.Source() := w][s]
    {
      assert s == 256 * (s / 256) + s % 256;
    }
  }
}
