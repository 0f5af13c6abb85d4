/** The device entries of an AMD IVRS IVHD block: a stream of records of several sizes, where
    a range is two records with anything but another range between them. */
module IvrsEntries {
  import opened Basics
  import opened Bits
  import opened TableBytes

  const PAD: nat := 0x00
  const ALL: nat := 0x01
  const SELECT: nat := 0x02
  const RANGE_START: nat := 0x03
  const RANGE_END: nat := 0x04
  const ALIAS_SELECT: nat := 0x42
  const ALIAS_RANGE_START: nat := 0x43
  const EXTENDED_SELECT: nat := 0x46
  const EXTENDED_RANGE_START: nat := 0x47
  const SPECIAL: nat := 0x48
  const ACPI_NAMED: nat := 0xf0
  const ACPI_NAMED_MIN_LENGTH: nat := 22

  datatype DeviceEntry =
    | Pad
    | All(data: nat)
    | Select(device: nat, data: nat)
    | DeviceRange(start: nat, end: nat, data: nat)
    | AliasSelect(device: nat, source: nat, data: nat)
    | AliasRange(start: nat, end: nat, source: nat, data: nat)
    | ExtendedSelect(device: nat, data: nat, extended: nat)
    | ExtendedRange(start: nat, end: nat, data: nat, extended: nat)
    | Special(device: nat, variety: nat)
    | AcpiNamed(device: nat, data: nat, hardwareId: nat, compatibleId: nat, uidFormat: nat, uid: seq<Byte>)
  {
    /** Every field has the width it has in the table, and a range is not reversed. */
    predicate WellFormed() {
      match this
      case Pad => true
      case All(data) => data < 256
      case Select(device, data) => device < U16_LIMIT && data < 256
      case DeviceRange(start, end, data) => start <= end < U16_LIMIT && data < 256
      case AliasSelect(device, source, data) => device < U16_LIMIT && source < U16_LIMIT && data < 256
      case AliasRange(start, end, source, data) => start <= end < U16_LIMIT && source < U16_LIMIT && data < 256
      case ExtendedSelect(device, data, extended) => device < U16_LIMIT && data < 256 && extended < U32_LIMIT
      case ExtendedRange(start, end, data, extended) => start <= end < U16_LIMIT && data < 256 && extended < U32_LIMIT
      case Special(device, variety) => device < U16_LIMIT && variety < 256
      case AcpiNamed(device, data, hid, cid, format, uid) =>
        device < U16_LIMIT && data < 256 && hid < U64_LIMIT && cid < U64_LIMIT && format < 256 && |uid| < 256
    }
  }

  datatype RangeKind = Plain | Alias(source: nat) | Extended(setting: nat)

  /** The start of a range whose end has not been met. */
  datatype Pending = Pending(start: nat, kind: RangeKind, data: nat) {
    predicate WellFormed() {
      && start < U16_LIMIT && data < 256
      && (kind.Alias? ==> kind.source < U16_LIMIT)
      && (kind.Extended? ==> kind.setting < U32_LIMIT)
    }
  }

  function FixedSize(kind: nat): nat {
    if kind in {ALIAS_SELECT, ALIAS_RANGE_START, EXTENDED_SELECT, EXTENDED_RANGE_START, SPECIAL} then 8 else 4
  }

  datatype Framed = Stop | Bad(error: ParseError) | Record(size: nat)

  /** The record at `at` of a block that ends at `end`. Types above the ACPI one end the walk. */
  function RecordAt(t: seq<Byte>, at: nat, end: nat): (r: Framed)
    requires at < end <= |t|
    ensures r.Record? ==> r.size >= 4 && at + r.size <= end && IsRecord(t[at..at + r.size])
  {
    var kind := t[at];
    if kind == ACPI_NAMED && at + ACPI_NAMED_MIN_LENGTH > end then
      Bad(Malformed("ACPI named device entry truncated before UID length"))
    else if kind > ACPI_NAMED then Stop
    else
      var size := if kind == ACPI_NAMED then ACPI_NAMED_MIN_LENGTH + t[at + 21] else FixedSize(kind);
      if at + size > end then Bad(Malformed("device entry extends past block")) else Record(size)
  }

  /** How records are framed: four bytes, or eight for the five types with more fields; an ACPI
      entry has 22 bytes and its UID, whose length is its byte 21; types above it end the walk; and
      a record that does not fit is an error. */
  lemma RecordFraming(t: seq<Byte>, at: nat, end: nat)
    requires at < end <= |t|
    ensures var kind, r := t[at], RecordAt(t, at, end);
            if kind > 0xf0 then r == Stop
            else if kind == 0xf0 then
              if at + 22 <= end && at + 22 + t[at + 21] <= end then r == Record(t[at + 21] as nat + 22) else r.Bad?
            else
              var size := if kind in {0x42, 0x43, 0x46, 0x47, 0x48} then 8 else 4;
              if at + size <= end then r == Record(size) else r.Bad?
  {
  }

  /** The bytes of one whole record. */
  predicate IsRecord(b: seq<Byte>) {
    && |b| >= 4 && b[0] <= ACPI_NAMED
    && (if b[0] == ACPI_NAMED then |b| >= ACPI_NAMED_MIN_LENGTH && |b| == ACPI_NAMED_MIN_LENGTH + b[21]
        else |b| == FixedSize(b[0]))
  }

  datatype Fed = Fed(pending: Option<Pending>, emitted: Option<DeviceEntry>) | Reversed

  /** The effect of one record: what is pending afterwards, and the entry it completes. */
  function Feed(b: seq<Byte>, pending: Option<Pending>): (r: Fed)
    requires IsRecord(b)
  {
    var named := b[0] == ACPI_NAMED;
    var device := if named then ReadU16(b, 1).value else ReadU16(b, 2).value;
    var data := if named then b[3] else b[1];
    if b[0] == PAD then Fed(pending, Some(Pad))
    else if b[0] == ALL then Fed(pending, Some(All(data)))
    else if b[0] == SELECT then Fed(pending, Some(Select(device, data)))
    else if b[0] == RANGE_START then Fed(Some(Pending(device, Plain, data)), None)
    else if b[0] == ALIAS_RANGE_START then Fed(Some(Pending(device, Alias(ReadU16(b, 6).value), data)), None)
    else if b[0] == EXTENDED_RANGE_START then Fed(Some(Pending(device, Extended(ReadU32(b, 4).value), data)), None)
    else if b[0] == RANGE_END then FeedEnd(device, pending)
    else if b[0] == ALIAS_SELECT then Fed(pending, Some(AliasSelect(device, ReadU16(b, 6).value, data)))
    else if b[0] == EXTENDED_SELECT then Fed(pending, Some(ExtendedSelect(device, data, ReadU32(b, 4).value)))
    else if b[0] == SPECIAL then Fed(pending, Some(Special(ReadU16(b, 6).value, data)))
    else if named then
      Fed(pending, Some(AcpiNamed(device, data, ReadU64(b, 4).value, ReadU64(b, 12).value, b[20], b[22..])))
    else Fed(pending, None)
  }

  /** A range end with no range open is ignored. */
  function FeedEnd(device: nat, pending: Option<Pending>): Fed {
    match pending
    case None => Fed(None, None)
    case Some(p) =>
      if device < p.start then Reversed
      else match p.kind
        case Plain => Fed(None, Some(DeviceRange(p.start, device, p.data)))
        case Alias(source) => Fed(None, Some(AliasRange(p.start, device, source, p.data)))
        case Extended(setting) => Fed(None, Some(ExtendedRange(p.start, device, p.data, setting)))
  }

  /** Records that complete nothing: a range end with no range open, and every type that is not
      one of the eleven, leave what is pending as it is. A range end before its start is an error. */
  lemma IdleRecords(b: seq<Byte>, pending: Option<Pending>)
    requires IsRecord(b)
    ensures b[0] == 0x04 && pending == None ==> Feed(b, pending) == Fed(None, None)
    ensures b[0] !in {0x00, 0x01, 0x02, 0x03, 0x04, 0x42, 0x43, 0x46, 0x47, 0x48, 0xf0} ==>
              Feed(b, pending) == Fed(pending, None)
    ensures Feed(b, pending).Reversed? <==>
            b[0] == 0x04 && pending.Some? && ReadU16(b, 2).value < pending.value.start
  {
  }

  /** The entries a walk passes to its callback, and the error that ended it, if any. */
  datatype Walked = Walked(entries: seq<DeviceEntry>, error: Option<ParseError>) {
    function After(e: Option<DeviceEntry>): Walked {
      if e.Some? then Walked([e.value] + entries, error) else this
    }
  }

  function Walk(t: seq<Byte>, at: nat, end: nat, pending: Option<Pending>): Walked
    requires end <= |t|
    decreases end - at
  {
    if at >= end then Walked([], None)
    else match RecordAt(t, at, end)
      case Stop => Walked([], None)
      case Bad(e) => Walked([], Some(e))
      case Record(size) =>
        match Feed(t[at..at + size], pending)
        case Reversed => Walked([], Some(Malformed("device range is reversed")))
        case Fed(next, emitted) => Walk(t, at + size, end, next).After(emitted)
  }

  /** `walk_device_entries`: it ends, never reads outside the block, and passes on exactly the
      entries of the specification. */
  method WalkDeviceEntries(t: seq<Byte>, blockOffset: nat, entriesOffset: nat, blockLength: nat)
    returns (entries: seq<DeviceEntry>, error: Option<ParseError>)
    requires blockOffset + blockLength <= |t|
    ensures Walked(entries, error) == Walk(t, blockOffset + entriesOffset, blockOffset + blockLength, None)
  {
    hide Feed, RecordAt, IsRecord;
    var offset := entriesOffset;
    var pending: Option<Pending> := None;
    entries, error := [], None;
    ghost var end := blockOffset + blockLength;
    ghost var whole := Walk(t, blockOffset + entriesOffset, end, None);
    while offset < blockLength
      invariant whole == Walked(entries + Walk(t, blockOffset + offset, end, pending).entries,
                                Walk(t, blockOffset + offset, end, pending).error)
      decreases blockLength - offset
    {
      var at := blockOffset + offset;
      var framed := RecordAt(t, at, blockOffset + blockLength);
      if framed.Stop? {
        return;
      }
      if framed.Bad? {
        return entries, Some(framed.error);
      }
      var fed := Feed(t[at..at + framed.size], pending);
      if fed.Reversed? {
        return entries, Some(Malformed("device range is reversed"));
      }
      pending := fed.pending;
      if fed.emitted.Some? {
        entries := entries + [fed.emitted.value];
      }
      offset := offset + framed.size;
    }
  }

  /** The walk depends on nothing but the bytes of its window. */
  lemma {:induction false} WalkIsLocal(t: seq<Byte>, at: nat, end: nat, u: seq<Byte>, from: nat, to: nat,
                                       pending: Option<Pending>)
    requires at <= end <= |t| && from <= to <= |u| && t[at..end] == u[from..to]
    ensures Walk(t, at, end, pending) == Walk(u, from, to, pending)
    decreases end - at
  {
    hide Feed, IsRecord, RecordAt;
    assert |t[at..end]| == end - at == to - from;
    if at < end {
      SameRecord(t, at, end, u, from, to);
      var framed := RecordAt(t, at, end);
      if framed.Record? {
        var size := framed.size;
        assert t[at..at + size] == t[at..end][..size] == u[from..to][..size] == u[from..from + size];
        var fed := Feed(t[at..at + size], pending);
        if fed.Fed? {
          assert t[at + size..end] == t[at..end][size..] == u[from..to][size..] == u[from + size..to];
          WalkIsLocal(t, at + size, end, u, from + size, to, fed.pending);
        }
      }
    }
  }

  lemma SameRecord(t: seq<Byte>, at: nat, end: nat, u: seq<Byte>, from: nat, to: nat)
    requires at < end <= |t| && from < to <= |u| && t[at..end] == u[from..to]
    ensures RecordAt(t, at, end) == RecordAt(u, from, to)
  {
    assert |t[at..end]| == end - at == to - from;
    assert forall i :: 0 <= i < end - at ==> t[at + i] == t[at..end][i] == u[from..to][i] == u[from + i];
    assert t[at] == t[at + 0];
    assert end - at > 21 ==> t[at + 21] == u[from + 21];
  }

  // Writing entries, and reading them back.

  function Head(kind: Byte, data: nat, device: nat): (b: seq<Byte>)
    requires data < 256
    ensures |b| == 4
  {
    [kind, data] + Encode(device, 2)
  }

  /** The records of an entry in bytes. Its type comes first, then its data byte and its
      device; the longer ones go on with an alias source, an extended setting or a device. */
  function Records(e: DeviceEntry): (rs: seq<seq<Byte>>)
    requires e.WellFormed()
  {
    match e
    case Pad => [Head(0x00, 0, 0)]
    case All(data) => [Head(0x01, data, 0)]
    case Select(device, data) => [Head(0x02, data, device)]
    case DeviceRange(start, end, data) => [Head(0x03, data, start), Head(0x04, 0, end)]
    case AliasSelect(device, source, data) => [Head(0x42, data, device) + [0, 0] + Encode(source, 2)]
    case AliasRange(start, end, source, data) =>
      [Head(0x43, data, start) + [0, 0] + Encode(source, 2), Head(0x04, 0, end)]
    case ExtendedSelect(device, data, extended) => [Head(0x46, data, device) + Encode(extended, 4)]
    case ExtendedRange(start, end, data, extended) =>
      [Head(0x47, data, start) + Encode(extended, 4), Head(0x04, 0, end)]
    case Special(device, variety) => [Head(0x48, variety, 0) + [0, 0] + Encode(device, 2)]
    case AcpiNamed(device, data, hid, cid, format, uid) => [NamedRecord(device, data, hid, cid, format, uid)]
  }

  function NamedRecord(device: nat, data: nat, hid: nat, cid: nat, format: nat, uid: seq<Byte>): (b: seq<Byte>)
    requires data < 256 && format < 256 && |uid| < 256
    ensures |b| == 22 + |uid|
  {
    [0xf0] + Encode(device, 2) + [data] + Encode(hid, 8) + Encode(cid, 8) + [format, |uid|] + uid
  }

  function Flatten(rs: seq<seq<Byte>>): seq<Byte> {
    if rs == [] then [] else rs[0] + Flatten(rs[1..])
  }

  function EncodeEntries(es: seq<DeviceEntry>): seq<Byte>
    requires forall e :: e in es ==> e.WellFormed()
  {
    if es == [] then [] else Flatten(Records(es[0])) + EncodeEntries(es[1..])
  }

  lemma HeadReads(kind: Byte, data: nat, device: nat, rest: seq<Byte>)
    requires data < 256 && device < U16_LIMIT
    ensures var b := Head(kind, data, device) + rest;
            b[0] == kind && b[1] == data && ReadU16(b, 2) == Ok(device)
  {
    Powers();
    ReadEncoded([kind, data], device, 2, rest);
  }

  lemma TailReads16(head: seq<Byte>, n: nat)
    requires |head| == 4 && n < U16_LIMIT
    ensures ReadU16(head + [0, 0] + Encode(n, 2), 6) == Ok(n)
  {
    Powers();
    ReadEncoded(head + [0, 0], n, 2, []);
    assert head + [0, 0] + Encode(n, 2) + [] == head + [0, 0] + Encode(n, 2);
  }

  lemma TailReads32(head: seq<Byte>, n: nat)
    requires |head| == 4 && n < U32_LIMIT
    ensures ReadU32(head + Encode(n, 4), 4) == Ok(n)
  {
    Powers();
    ReadEncoded(head, n, 4, []);
    assert head + Encode(n, 4) + [] == head + Encode(n, 4);
  }

  lemma NamedDevice(device: nat, data: nat, rest: seq<Byte>)
    requires device < U16_LIMIT && data < 256
    ensures var b := [ACPI_NAMED] + Encode(device, 2) + [data] + rest;
            b[0] == ACPI_NAMED && ReadU16(b, 1) == Ok(device) && b[3] == data
  {
    ReadEncoded16([ACPI_NAMED], device, [data] + rest);
    assert [ACPI_NAMED] + Encode(device, 2) + [data] + rest == [ACPI_NAMED] + Encode(device, 2) + ([data] + rest);
  }

  lemma NamedReads(device: nat, data: nat, hid: nat, cid: nat, format: nat, uid: seq<Byte>)
    requires device < U16_LIMIT && data < 256 && hid < U64_LIMIT && cid < U64_LIMIT && format < 256 && |uid| < 256
    ensures var b := NamedRecord(device, data, hid, cid, format, uid);
            && b[0] == ACPI_NAMED && ReadU16(b, 1) == Ok(device) && b[3] == data
            && ReadU64(b, 4) == Ok(hid) && ReadU64(b, 12) == Ok(cid)
            && b[20] == format && b[21] == |uid| && b[22..] == uid
  {
    var b := NamedRecord(device, data, hid, cid, format, uid);
    var head, ending := [ACPI_NAMED] + Encode(device, 2) + [data], [format, |uid|] + uid;
    NamedDevice(device, data, Encode(hid, 8) + Encode(cid, 8) + ending);
    ReadEncoded64(head, hid, Encode(cid, 8) + ending);
    ReadEncoded64(head + Encode(hid, 8), cid, ending);
    hide ReadU16, ReadU64, Encode;
    assert b == head + (Encode(hid, 8) + Encode(cid, 8) + ending);
    assert b == head + Encode(hid, 8) + (Encode(cid, 8) + ending);
    assert b == head + Encode(hid, 8) + Encode(cid, 8) + ending;
  }

  /** Feeding one record of its own completes an entry. */
  lemma FeedSingle(e: DeviceEntry, pending: Option<Pending>)
    requires e.WellFormed() && |Records(e)| == 1
    ensures IsRecord(Records(e)[0]) && Feed(Records(e)[0], pending) == Fed(pending, Some(e))
  {
    match e
    case Pad => assert Head(PAD, 0, 0) + [] == Head(PAD, 0, 0);
    case All(data) => assert Head(ALL, data, 0) + [] == Head(ALL, data, 0);
    case Select(device, data) =>
      HeadReads(SELECT, data, device, []);
      assert Head(SELECT, data, device) + [] == Head(SELECT, data, device);
    case AliasSelect(device, source, data) =>
      var head := Head(ALIAS_SELECT, data, device);
      HeadReads(ALIAS_SELECT, data, device, [0, 0] + Encode(source, 2));
      TailReads16(head, source);
      assert head + [0, 0] + Encode(source, 2) == head + ([0, 0] + Encode(source, 2));
    case ExtendedSelect(device, data, extended) =>
      HeadReads(EXTENDED_SELECT, data, device, Encode(extended, 4));
      TailReads32(Head(EXTENDED_SELECT, data, device), extended);
    case Special(device, variety) =>
      var head := Head(SPECIAL, variety, 0);
      HeadReads(SPECIAL, variety, 0, [0, 0] + Encode(device, 2));
      TailReads16(head, device);
      assert head + [0, 0] + Encode(device, 2) == head + ([0, 0] + Encode(device, 2));
    case AcpiNamed(device, data, hid, cid, format, uid) =>
      NamedReads(device, data, hid, cid, format, uid);
  }

  /** Feeding the two records of a range completes it, whatever was pending. */
  lemma FeedPair(e: DeviceEntry, pending: Option<Pending>)
    requires e.WellFormed() && |Records(e)| == 2
    ensures IsRecord(Records(e)[0]) && IsRecord(Records(e)[1])
    ensures Feed(Records(e)[0], pending).Fed? && Feed(Records(e)[0], pending).emitted == None
    ensures Feed(Records(e)[1], Feed(Records(e)[0], pending).pending) == Fed(None, Some(e))
  {
    var first, second := Records(e)[0], Records(e)[1];
    HeadReads(RANGE_END, 0, e.end, []);
    assert second + [] == second;
    match e
    case DeviceRange(start, end, data) =>
      HeadReads(RANGE_START, data, start, []);
      assert first + [] == first;
    case AliasRange(start, end, source, data) =>
      var head := Head(ALIAS_RANGE_START, data, start);
      HeadReads(ALIAS_RANGE_START, data, start, [0, 0] + Encode(source, 2));
      TailReads16(head, source);
      assert first == head + ([0, 0] + Encode(source, 2));
    case ExtendedRange(start, end, data, extended) =>
      HeadReads(EXTENDED_RANGE_START, data, start, Encode(extended, 4));
      TailReads32(Head(EXTENDED_RANGE_START, data, start), extended);
  }

  /** A walk over a whole record and more takes the record first. */
  lemma WalkRecord(b: seq<Byte>, rest: seq<Byte>, pending: Option<Pending>)
    requires IsRecord(b)
    ensures Feed(b, pending).Fed? ==>
              Walk(b + rest, 0, |b + rest|, pending) ==
              Walk(rest, 0, |rest|, Feed(b, pending).pending).After(Feed(b, pending).emitted)
  {
    hide Feed;
    var t := b + rest;
    assert t[0..|b|] == b && t[0] == b[0];
    assert RecordAt(t, 0, |t|) == Record(|b|);
    if Feed(b, pending).Fed? {
      assert t[|b|..|t|] == rest == rest[0..|rest|];
      WalkIsLocal(t, |b|, |t|, rest, 0, |rest|, Feed(b, pending).pending);
    }
  }

  lemma WalkEntry(e: DeviceEntry, rest: seq<Byte>, pending: Option<Pending>) returns (next: Option<Pending>)
    requires e.WellFormed()
    ensures var t := Flatten(Records(e)) + rest;
            Walk(t, 0, |t|, pending) == Walk(rest, 0, |rest|, next).After(Some(e))
  {
    hide Walk, Feed, IsRecord;
    var rs := Records(e);
    if |rs| == 1 {
      FeedSingle(e, pending);
      assert rs == [rs[0]] && Flatten(rs) == rs[0] + Flatten([]) == rs[0];
      WalkRecord(rs[0], rest, pending);
      next := pending;
    } else {
      FeedPair(e, pending);
      assert rs == [rs[0], rs[1]] && rs[1..] == [rs[1]] && Flatten(rs[1..]) == rs[1] + Flatten([]) == rs[1];
      assert Flatten(rs) + rest == rs[0] + (rs[1] + rest);
      WalkRecord(rs[0], rs[1] + rest, pending);
      WalkRecord(rs[1], rest, Feed(rs[0], pending).pending);
      next := None;
    }
  }

  lemma {:induction false} WalkEncoded(es: seq<DeviceEntry>, pending: Option<Pending>)
    requires forall e :: e in es ==> e.WellFormed()
    ensures Walk(EncodeEntries(es), 0, |EncodeEntries(es)|, pending) == Walked(es, None)
    decreases |es|
  {
    if es != [] {
      var next := WalkEntry(es[0], EncodeEntries(es[1..]), pending);
      WalkEncoded(es[1..], next);
      assert [es[0]] + es[1..] == es;
    }
  }

  /** Round trip: entries written anywhere in a table are walked back, in order, with no error. */
  lemma RoundTrip(before: seq<Byte>, es: seq<DeviceEntry>, after: seq<Byte>)
    requires forall e :: e in es ==> e.WellFormed()
    ensures var end := |before| + |EncodeEntries(es)|;
            Walk(before + EncodeEntries(es) + after, |before|, end, None) == Walked(es, None)
  {
    hide Walk, EncodeEntries;
    var b := EncodeEntries(es);
    var t := before + b + after;
    assert t[|before|..|before| + |b|] == b == b[0..|b|];
    WalkIsLocal(t, |before|, |before| + |b|, b, 0, |b|, None);
    WalkEncoded(es, None);
  }

  /** Every entry a walk passes on is well formed, whatever the bytes. */
  lemma {:induction false} WalkedAreWellFormed(t: seq<Byte>, at: nat, end: nat, pending: Option<Pending>)
    requires end <= |t| && (pending.Some? ==> pending.value.WellFormed())
    ensures forall e :: e in Walk(t, at, end, pending).entries ==> e.WellFormed()
    decreases end - at
  {
    hide Feed, IsRecord, RecordAt;
    if at < end {
      var framed := RecordAt(t, at, end);
      if framed.Record? {
        var record := t[at..at + framed.size];
        FeedWellFormed(record, pending);
        if Feed(record, pending).Fed? {
          WalkedAreWellFormed(t, at + framed.size, end, Feed(record, pending).pending);
        }
      }
    }
  }

  lemma FeedWellFormed(b: seq<Byte>, pending: Option<Pending>)
    requires IsRecord(b) && (pending.Some? ==> pending.value.WellFormed())
    ensures var r := Feed(b, pending);
            r.Fed? ==> (r.pending.Some? ==> r.pending.value.WellFormed())
                       && (r.emitted.Some? ==> r.emitted.value.WellFormed())
  {
  }

  /** So writing out what any walk passed on and walking that gives the same entries. */
  lemma WalkIsNormal(t: seq<Byte>, at: nat, end: nat)
    requires end <= |t|
    ensures var es := Walk(t, at, end, None).entries;
            && (forall e :: e in es ==> e.WellFormed())
            && Walk(EncodeEntries(es), 0, |EncodeEntries(es)|, None) == Walked(es, None)
  {
    WalkedAreWellFormed(t, at, end, None);
    WalkEncoded(Walk(t, at, end, None).entries, None);
  }
}
