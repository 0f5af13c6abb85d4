/** The memory behind a command ring: its validation, and where its entries lie. */
module CommandBacking {
  import opened Basics
  import opened Bits
  import opened Errors
  import opened RingProtocol

  /** An address range, which ends inside the address space. */
  datatype Span = Span(start: nat, size: nat) {
    predicate Valid() { start + size < USIZE_LIMIT }
  }

  datatype Backing = Backing(phys: Span, virt: Span, entryCount: nat, entryBytes: nat) {
    ghost predicate Valid() {
      && phys.Valid() && virt.Valid()
      && IsPow2(entryCount) && IsPow2(entryBytes) && entryBytes >= 8
      && entryCount * entryBytes <= phys.size && entryCount * entryBytes <= virt.size
      && phys.start % entryBytes == 0 && virt.start % entryBytes == 0
    }

    function Ring(): Ring { RingProtocol.Ring.Ring(entryCount, entryBytes) }
  }

  /** `usize::is_power_of_two`. */
  predicate PowerOfTwo(n: nat) {
    n > 0 && Pow2(FloorLog2(n)) == n
  }

  lemma PowerOfTwoIsPow2(n: nat)
    ensures PowerOfTwo(n) <==> IsPow2(n)
  {
    if IsPow2(n) {
      var k: nat :| n == Pow2(k);
      LogUnique(n, k, FloorLog2(n));
    }
  }

  /** `CommandQueueBacking::new`: every backing that meets its conditions is accepted, and
      nothing else. */
  function NewBacking(phys: Span, virt: Span, entryCount: nat, entryBytes: nat): (r: Result<Backing>)
    requires phys.Valid() && virt.Valid()
    ensures r.Ok? <==> Backing(phys, virt, entryCount, entryBytes).Valid()
    ensures r.Ok? ==> r.value == Backing(phys, virt, entryCount, entryBytes)
    ensures r == Err(InvalidGranule) <==> IsPow2(entryCount) && !(IsPow2(entryBytes) && entryBytes >= 8)
    ensures r == Err(AddressOverflow) <==>
            IsPow2(entryCount) && IsPow2(entryBytes) && entryBytes >= 8 && entryCount * entryBytes >= USIZE_LIMIT
    ensures r == Err(InvalidAddress) <==>
            && IsPow2(entryCount) && IsPow2(entryBytes) && entryBytes >= 8
            && entryCount * entryBytes <= Min(phys.size, virt.size)
            && (phys.start % entryBytes != 0 || virt.start % entryBytes != 0)
    ensures r.Err? ==> r.error in {InvalidRange, InvalidGranule, AddressOverflow, InvalidAddress}
  {
    PowerOfTwoIsPow2(entryCount);
    PowerOfTwoIsPow2(entryBytes);
    if entryCount == 0 || !PowerOfTwo(entryCount) then Err(InvalidRange)
    else if entryBytes == 0 || !PowerOfTwo(entryBytes) || entryBytes < 8 then Err(InvalidGranule)
    else if entryCount * entryBytes >= USIZE_LIMIT then Err(AddressOverflow)
    else if phys.size < entryCount * entryBytes || virt.size < entryCount * entryBytes then Err(InvalidRange)
    else if phys.start % entryBytes != 0 || virt.start % entryBytes != 0 then Err(InvalidAddress)
    else Ok(Backing(phys, virt, entryCount, entryBytes))
  }

  /** The address of an entry, with the source's two overflow checks. */
  function EntryVaddr(b: Backing, slot: nat): Result<nat> {
    if slot * b.entryBytes >= USIZE_LIMIT then Err(AddressOverflow)
    else if b.virt.start + slot * b.entryBytes >= USIZE_LIMIT then Err(AddressOverflow)
    else Ok(b.virt.start + slot * b.entryBytes)
  }

  lemma EntryEnd(slot: nat, count: nat, width: nat)
    requires slot < count
    ensures slot * width + width <= count * width
  {
    assert count * width == slot * width + width + (count - slot - 1) * width;
    MultipleBound(width, count - slot - 1);
  }

  /** On a valid backing the overflow checks never fail: every entry lies in the mapped range,
      and entries are apart. */
  lemma EntriesApart(b: Backing, i: nat, j: nat)
    requires b.Valid() && i < b.entryCount && j < b.entryCount
    ensures EntryVaddr(b, i) == Ok(b.virt.start + i * b.entryBytes)
    ensures EntryVaddr(b, i).value + b.entryBytes <= b.virt.start + b.virt.size
    ensures i < j ==> EntryVaddr(b, j).Ok? && EntryVaddr(b, i).value + b.entryBytes <= EntryVaddr(b, j).value
  {
    EntryEnd(i, b.entryCount, b.entryBytes);
    EntryEnd(j, b.entryCount, b.entryBytes);
    if i < j {
      EntryEnd(i, j, b.entryBytes);
    }
  }

  /** The mapped bytes as the entries of the ring. */
  function Entries(b: Backing, memory: seq<Byte>): (r: seq<seq<Byte>>)
    requires b.Valid() && |memory| == b.virt.size
    ensures |r| == b.entryCount
    ensures forall i :: 0 <= i < |r| ==> |r[i]| == b.entryBytes
  {
    seq(b.entryCount, i requires 0 <= i < b.entryCount => EntryOf(b, memory, i))
  }

  function EntryOf(b: Backing, memory: seq<Byte>, i: nat): (r: seq<Byte>)
    requires b.Valid() && |memory| == b.virt.size && i < b.entryCount
    ensures |r| == b.entryBytes
  {
    EntryEnd(i, b.entryCount, b.entryBytes);
    memory[i * b.entryBytes..i * b.entryBytes + b.entryBytes]
  }

  /** `write_slot` on the mapped bytes, where `memory[k]` is the byte at `virt.start + k`: one
      entry becomes the zero-padded descriptor, and no other byte changes. */
  method WriteSlot(b: Backing, memory: array<Byte>, slot: nat, bytes: seq<Byte>) returns (r: Result<()>)
    requires b.Valid() && memory.Length == b.virt.size && slot < b.entryCount
    modifies memory
    ensures r == Ok(())
    ensures Entries(b, memory[..]) == old(Entries(b, memory[..]))[slot := Pad(bytes, b.entryBytes)]
    ensures forall k :: b.entryCount * b.entryBytes <= k < memory.Length ==> memory[k] == old(memory[k])
  {
    EntriesApart(b, slot, slot);
    EntryEnd(slot, b.entryCount, b.entryBytes);
    var vaddr := EntryVaddr(b, slot);
    assert vaddr.Ok?;
    var base := vaddr.value - b.virt.start;
    for offset := 0 to b.entryBytes
      invariant forall k :: 0 <= k < memory.Length && !(base <= k < base + offset) ==> memory[k] == old(memory[k])
      invariant forall i :: 0 <= i < offset ==> memory[base + i] == Pad(bytes, b.entryBytes)[i]
    {
      memory[base + offset] := if offset < |bytes| then bytes[offset] else 0;
    }
    SlotWritten(b, old(memory[..]), memory[..], slot, Pad(bytes, b.entryBytes));
    r := Ok(());
  }

  lemma SlotWritten(b: Backing, before: seq<Byte>, after: seq<Byte>, slot: nat, content: seq<Byte>)
    requires b.Valid() && |before| == |after| == b.virt.size && slot < b.entryCount && |content| == b.entryBytes
    requires slot * b.entryBytes + b.entryBytes <= b.virt.size
    requires forall i :: 0 <= i < b.entryBytes ==> after[slot * b.entryBytes + i] == content[i]
    requires forall k :: 0 <= k < |before| && !(slot * b.entryBytes <= k < slot * b.entryBytes + b.entryBytes) ==>
                           after[k] == before[k]
    ensures Entries(b, after) == Entries(b, before)[slot := content]
  {
    forall i | 0 <= i < b.entryCount
      ensures Entries(b, after)[i] == Entries(b, before)[slot := content][i]
    {
      EntryEnd(i, b.entryCount, b.entryBytes);
      if i < slot {
        EntryEnd(i, slot, b.entryBytes);
      } else if slot < i {
        EntryEnd(slot, i, b.entryBytes);
      }
    }
  }
}
