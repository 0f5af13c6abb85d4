/** Little-endian reads from a firmware table. */
module TableBytes {
  import opened Bits

  /** Why a table is rejected. */
  datatype ParseError =
    | OutOfBounds
    | Malformed(reason: string)
    | Cycle
    | RangesFull

  datatype Parsed<+T> = Ok(value: T) | Err(error: ParseError)

  const U16_LIMIT: nat := 0x1_0000
  const U32_LIMIT: nat := 0x1_0000_0000
  const U64_LIMIT: nat := 0x1_0000_0000_0000_0000

  function ReadU8(bytes: seq<Byte>, offset: nat): (r: Parsed<nat>)
    ensures r.Ok? <==> offset < |bytes|
    ensures r.Ok? ==> r.value < 256
  {
    if offset < |bytes| then Ok(bytes[offset]) else Err(OutOfBounds)
  }

  function Little(bytes: seq<Byte>): (n: nat) {
    if bytes == [] then 0 else bytes[0] + 256 * Little(bytes[1..])
  }

  function ReadLittle(bytes: seq<Byte>, offset: nat, width: nat): (r: Parsed<nat>)
    ensures r.Ok? <==> offset + width <= |bytes|
  {
    if offset + width <= |bytes| then Ok(Little(bytes[offset..offset + width])) else Err(OutOfBounds)
  }

  function ReadU16(bytes: seq<Byte>, offset: nat): (r: Parsed<nat>)
    ensures r.Ok? <==> offset + 2 <= |bytes|
    ensures r.Ok? ==> r.value < U16_LIMIT
  {
    if offset + 2 <= |bytes| then LittleBound2(bytes[offset..offset + 2]); ReadLittle(bytes, offset, 2)
    else Err(OutOfBounds)
  }

  function ReadU32(bytes: seq<Byte>, offset: nat): (r: Parsed<nat>)
    ensures r.Ok? <==> offset + 4 <= |bytes|
    ensures r.Ok? ==> r.value < U32_LIMIT
  {
    if offset + 4 <= |bytes| then LittleBound4(bytes[offset..offset + 4]); ReadLittle(bytes, offset, 4)
    else Err(OutOfBounds)
  }

  function ReadU64(bytes: seq<Byte>, offset: nat): (r: Parsed<nat>)
    ensures r.Ok? <==> offset + 8 <= |bytes|
    ensures r.Ok? ==> r.value < U64_LIMIT
  {
    if offset + 8 <= |bytes| then LittleBound8(bytes[offset..offset + 8]); ReadLittle(bytes, offset, 8)
    else Err(OutOfBounds)
  }

  lemma LittleCons2(b: seq<Byte>, n: nat)
    requires |b| == n + 2
    ensures Little(b) == b[0] + 256 * b[1] + 0x1_0000 * Little(b[2..])
  {
  }

  lemma LittleBound2(b: seq<Byte>)
    requires |b| == 2
    ensures Little(b) < U16_LIMIT
  {
    LittleCons2(b, 0);
  }

  lemma LittleBound4(b: seq<Byte>)
    requires |b| == 4
    ensures Little(b) < U32_LIMIT
  {
    LittleCons2(b, 2);
    LittleBound2(b[2..]);
  }

  lemma LittleBound8(b: seq<Byte>)
    requires |b| == 8
    ensures Little(b) < U64_LIMIT
  {
    LittleCons2(b, 6);
    LittleCons2(b[2..], 4);
    LittleBound4(b[2..][2..]);
  }

  /** The encoding the reads undo. */
  function Encode(n: nat, width: nat): (b: seq<Byte>)
    ensures |b| == width
  {
    if width == 0 then [] else [n % 256] + Encode(n / 256, width - 1)
  }

  function Power256(width: nat): (p: nat)
    ensures p > 0
  {
    if width == 0 then 1 else 256 * Power256(width - 1)
  }

  lemma {:induction false} LittleEncode(n: nat, width: nat)
    requires n < Power256(width)
    ensures Little(Encode(n, width)) == n
  {
    if width > 0 {
      LittleEncode(n / 256, width - 1);
      assert Encode(n, width)[1..] == Encode(n / 256, width - 1);
    }
  }

  lemma Powers()
    ensures Power256(2) == U16_LIMIT && Power256(4) == U32_LIMIT && Power256(8) == U64_LIMIT
  {
  }

  /** A number encoded in the middle of a table is read back. */
  lemma ReadEncoded(before: seq<Byte>, n: nat, width: nat, after: seq<Byte>)
    requires n < Power256(width)
    ensures ReadLittle(before + Encode(n, width) + after, |before|, width) == Ok(n)
  {
    LittleEncode(n, width);
    var all := before + Encode(n, width) + after;
    assert all[|before|..|before| + width] == Encode(n, width);
  }

  lemma ReadEncoded16(before: seq<Byte>, n: nat, after: seq<Byte>)
    requires n < U16_LIMIT
    ensures ReadU16(before + Encode(n, 2) + after, |before|) == Ok(n)
  {
    Powers();
    ReadEncoded(before, n, 2, after);
  }

  lemma ReadEncoded32(before: seq<Byte>, n: nat, after: seq<Byte>)
    requires n < U32_LIMIT
    ensures ReadU32(before + Encode(n, 4) + after, |before|) == Ok(n)
  {
    Powers();
    ReadEncoded(before, n, 4, after);
  }

  lemma ReadEncoded64(before: seq<Byte>, n: nat, after: seq<Byte>)
    requires n < U64_LIMIT
    ensures ReadU64(before + Encode(n, 8) + after, |before|) == Ok(n)
  {
    Powers();
    ReadEncoded(before, n, 8, after);
  }

  /** The length of the block at `offset` of a table of blocks with a 16-bit length at byte 2,
      if its header and extent are sound. */
  function FrameAt(t: seq<Byte>, offset: nat): (r: Parsed<nat>)
    requires offset < |t|
    ensures r.Ok? ==> r.value >= 4 && offset + r.value <= |t|
  {
    if offset + 4 > |t| then Err(Malformed("block truncated before header"))
    else
      var length := ReadU16(t, offset + 2).value;
      if length < 4 then Err(Malformed("block length smaller than header"))
      else if offset + length > |t| then Err(Malformed("block extends past table length"))
      else Ok(length)
  }
}
