/** The little-endian integer tables: `parse_uints_le`,
    `parse_header_uint32_le`, `inspect_uint32_pairs`, `format_u16_list` and
    `format_u32_list`. */
module Tables {
  import opened Bytes
  import Utf16

  /** The two bytes that `struct.pack("<H", v)` writes. */
  function EncodeLE16(v: nat): (s: seq<byte>)
    requires v < 0x1_0000
    ensures |s| == 2
  {
    [v % 256, v / 256]
  }

  /** Every two bytes are the encoding of their `LE16` value. */
  lemma EncodeOfLE16(s: seq<byte>)
    requires |s| == 2
    ensures EncodeLE16(LE16(s, 0)) == s
  {
  }

  /** `min(max_count, len // unit)`, and no entries at all when max_count is
      negative (`range` of a negative count is empty). */
  function Slots(n: nat, unit: nat, maxCount: int): nat
    requires unit > 0
  {
    if maxCount < 0 then 0 else if maxCount < n / unit then maxCount else n / unit
  }

  /** The value `struct.unpack_from("<H" if unit == 2 else "<I", blob, off)`
      reads. */
  function UintAt(blob: seq<byte>, off: nat, unit: nat): nat
    requires unit == 2 || unit == 4
    requires off + unit <= |blob|
  {
    if unit == 2 then LE16(blob, off) else LE32(blob, off)
  }

  /** A slot below len // unit lies inside the data. */
  lemma SlotFits(i: nat, unit: nat, n: nat)
    requires unit == 2 || unit == 4
    requires i < n / unit
    ensures i * unit + unit <= n
  {
  }

  /** The table `parse_uints_le(blob, unit, max_count)` returns. */
  function UintTable(blob: seq<byte>, unit: nat, maxCount: int): seq<(nat, nat)>
    requires unit == 2 || unit == 4
  {
    var c := Slots(|blob|, unit, maxCount);
    seq(c, i requires 0 <= i < c => SlotFits(i, unit, |blob|); (i * unit, UintAt(blob, i * unit, unit)))
  }

  /** `parse_uints_le`: one entry per whole unit at the front, at most
      max_count of them. */
  method ParseUintsLe(blob: seq<byte>, unit: nat, maxCount: int) returns (vals: seq<(nat, nat)>)
    requires unit == 2 || unit == 4
    ensures vals == UintTable(blob, unit, maxCount)
  {
    var count := if maxCount < |blob| / unit then maxCount else |blob| / unit;
    vals := [];
    var i := 0;
    while i < count
      invariant 0 <= i <= Slots(|blob|, unit, maxCount)
      invariant count >= 0 ==> count == Slots(|blob|, unit, maxCount)
      invariant vals == UintTable(blob, unit, maxCount)[..i]
    {
      var off := i * unit;
      SlotFits(i, unit, |blob|);
      var val := if unit == 2 then LE16(blob, off) else LE32(blob, off);
      vals := vals + [(off, val)];
      i := i + 1;
    }
    assert i == Slots(|blob|, unit, maxCount);
  }

  /** `parse_header_uint32_le`: the 32-bit table. */
  method ParseHeaderUint32Le(blob: seq<byte>, maxCount: int) returns (entries: seq<(nat, nat)>)
    ensures entries == UintTable(blob, 4, maxCount)
  {
    entries := ParseUintsLe(blob, 4, maxCount);
  }

  /** What the table holds: min(max_count, len // unit) entries; entry i sits
      at offset i * unit and writing its value back in the same width gives
      the bytes it was read from. */
  lemma UintTableProperties(blob: seq<byte>, unit: nat, maxCount: int)
    requires unit == 2 || unit == 4
    ensures maxCount >= 0 ==> |UintTable(blob, unit, maxCount)| == if maxCount < |blob| / unit then maxCount else |blob| / unit
    ensures maxCount < 0 ==> UintTable(blob, unit, maxCount) == []
    ensures |UintTable(blob, unit, maxCount)| * unit <= |blob|
    ensures forall i :: 0 <= i < |UintTable(blob, unit, maxCount)| ==> UintTable(blob, unit, maxCount)[i].0 == i * unit
    ensures unit == 2 ==> forall i :: 0 <= i < |UintTable(blob, unit, maxCount)| ==>
              UintTable(blob, unit, maxCount)[i].1 < 0x1_0000 &&
              EncodeLE16(UintTable(blob, unit, maxCount)[i].1) == blob[2 * i..2 * i + 2]
    ensures unit == 4 ==> forall i :: 0 <= i < |UintTable(blob, unit, maxCount)| ==>
              UintTable(blob, unit, maxCount)[i].1 < 0x1_0000_0000 &&
              EncodeLE32(UintTable(blob, unit, maxCount)[i].1) == blob[4 * i..4 * i + 4]
  {
    var t := UintTable(blob, unit, maxCount);
    if |t| > 0 {
      SlotFits(|t| - 1, unit, |blob|);
    }
    forall i | 0 <= i < |t| && unit == 2
      ensures t[i].1 < 0x1_0000 && EncodeLE16(t[i].1) == blob[2 * i..2 * i + 2]
    {
      SlotFits(i, unit, |blob|);
      var s := blob[2 * i..2 * i + 2];
      EncodeOfLE16(s);
      assert LE16(s, 0) == LE16(blob, 2 * i);
    }
    forall i | 0 <= i < |t| && unit == 4
      ensures t[i].1 < 0x1_0000_0000 && EncodeLE32(t[i].1) == blob[4 * i..4 * i + 4]
    {
      SlotFits(i, unit, |blob|);
      var s := blob[4 * i..4 * i + 4];
      EncodeOfLE32(s);
      assert LE32(s, 0) == LE32(blob, 4 * i);
    }
  }

  /** A pair slot below len // 8 lies inside the data. */
  lemma PairFits(i: nat, n: nat)
    requires i < n / 8
    ensures 8 * i + 8 <= n
  {
  }

  /** The pairs `inspect_uint32_pairs(decomp, max_pairs)` returns. */
  function PairTable(decomp: seq<byte>, maxPairs: int): seq<(nat, nat, nat)> {
    var c := Slots(|decomp|, 8, maxPairs);
    seq(c, i requires 0 <= i < c => PairFits(i, |decomp|);
      (8 * i, LE32(decomp, 8 * i), LE32(decomp, 8 * i + 4)))
  }

  /** `inspect_uint32_pairs`: the data as (uint32, uint32) pairs. */
  method InspectUint32Pairs(decomp: seq<byte>, maxPairs: int) returns (pairs: seq<(nat, nat, nat)>)
    ensures pairs == PairTable(decomp, maxPairs)
  {
    var totalPairs := if maxPairs < |decomp| / 8 then maxPairs else |decomp| / 8;
    pairs := [];
    var i := 0;
    while i < totalPairs
      invariant 0 <= i <= Slots(|decomp|, 8, maxPairs)
      invariant totalPairs >= 0 ==> totalPairs == Slots(|decomp|, 8, maxPairs)
      invariant pairs == PairTable(decomp, maxPairs)[..i]
    {
      var off := i * 8;
      PairFits(i, |decomp|);
      var a := LE32(decomp, off);
      var b := LE32(decomp, off + 4);
      pairs := pairs + [(off, a, b)];
      i := i + 1;
    }
    assert i == Slots(|decomp|, 8, maxPairs);
  }

  /** The pairs are the 32-bit table read two entries at a time: pair i is
      entries 2i and 2i+1, and there are min(max_pairs, len // 8) of them. */
  lemma PairsAreTableEntries(decomp: seq<byte>, maxPairs: int)
    ensures maxPairs >= 0 ==> |PairTable(decomp, maxPairs)| == if maxPairs < |decomp| / 8 then maxPairs else |decomp| / 8
    ensures maxPairs < 0 ==> PairTable(decomp, maxPairs) == []
    ensures forall i :: 0 <= i < |PairTable(decomp, maxPairs)| ==>
              2 * i + 1 < |UintTable(decomp, 4, |decomp|)| &&
              PairTable(decomp, maxPairs)[i].0 == UintTable(decomp, 4, |decomp|)[2 * i].0 &&
              PairTable(decomp, maxPairs)[i].1 == UintTable(decomp, 4, |decomp|)[2 * i].1 &&
              PairTable(decomp, maxPairs)[i].2 == UintTable(decomp, 4, |decomp|)[2 * i + 1].1
  {
    var p := PairTable(decomp, maxPairs);
    var t := UintTable(decomp, 4, |decomp|);
    assert |t| == |decomp| / 4;
    forall i | 0 <= i < |p| ensures 2 * i + 1 < |t| {
      PairFits(i, |decomp|);
    }
  }

  /** The values `format_u16_list` returns: `range(0, len - 1, 2)`. */
  method FormatU16List(data: seq<byte>) returns (values: seq<nat>)
    ensures values == Utf16.CodeUnits(data, false)
  {
    ghost var units := Utf16.CodeUnits(data, false);
    values := [];
    var i := 0;
    while i < |data| - 1
      invariant i % 2 == 0 && 0 <= i && (|data| == 0 || i <= |data|)
      invariant i <= 2 * |units|
      invariant values == units[..i / 2]
    {
      values := values + [LE16(data, i)];
      i := i + 2;
    }
    assert i / 2 == |units|;
  }

  /** The values `format_u32_list` returns: `range(0, len - 3, 4)`. */
  method FormatU32List(data: seq<byte>) returns (values: seq<nat>)
    ensures |values| == |data| / 4
    ensures forall k :: 0 <= k < |values| ==> values[k] == UintTable(data, 4, |data|)[k].1
  {
    ghost var table := UintTable(data, 4, |data|);
    values := [];
    var i := 0;
    while i < |data| - 3
      invariant i % 4 == 0 && 0 <= i && (|data| < 3 || i <= |data|)
      invariant i <= 4 * |table| && |table| == |data| / 4
      invariant |values| == i / 4
      invariant forall k :: 0 <= k < |values| ==> values[k] == table[k].1
    {
      values := values + [LE32(data, i)];
      i := i + 4;
    }
  }

  /** The 16-bit list has len // 2 values, value k being
      `data[2k] + 256 * data[2k+1]`. */
  lemma U16ListValues(data: seq<byte>)
    ensures |Utf16.CodeUnits(data, false)| == |data| / 2
    ensures forall k :: 0 <= k < |data| / 2 ==>
              Utf16.CodeUnits(data, false)[k] == data[2 * k] as int + 256 * data[2 * k + 1] as int
  {
  }
}
