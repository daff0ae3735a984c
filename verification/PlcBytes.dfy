/** A tag's data buffer, and the little-endian accessors of lib.c that read it. */
module PlcBytes {
  import opened Basics

  type Byte = b: int | 0 <= b < 0x100

  /** plc_tag_get_uint16(): an offset out of bounds gives UINT16_MAX. */
  function Get16(data: seq<Byte>, offset: nat): (v: nat)
    ensures v < 0x1_0000
  {
    if offset + 2 <= |data| then data[offset] as int + 0x100 * data[offset + 1] as int else 0xFFFF
  }

  /** plc_tag_get_uint32(): an offset out of bounds gives UINT32_MAX. */
  function Get32(data: seq<Byte>, offset: nat): (v: nat)
    ensures v < 0x1_0000_0000
  {
    if offset + 4 <= |data| then
      data[offset] as int + 0x100 * data[offset + 1] as int
      + 0x1_0000 * data[offset + 2] as int + 0x100_0000 * data[offset + 3] as int
    else
      0xFFFF_FFFF
  }

  /** plc_tag_get_string_length() of a zero-terminated string: it may also run up to the end of the buffer. */
  function StringLength(data: seq<Byte>, offset: nat): (n: nat)
    ensures offset <= |data| ==> offset + n <= |data|
    ensures forall i :: offset <= i < offset + n && i < |data| ==> data[i] != 0
    ensures offset + n < |data| ==> data[offset + n] == 0
    decreases |data| - offset
  {
    if offset >= |data| || data[offset] == 0 then 0 else 1 + StringLength(data, offset + 1)
  }

  /** The wire form of a 16-bit and a 32-bit number. */
  function Put16(v: nat): (bytes: seq<Byte>)
    requires v < 0x1_0000
    ensures |bytes| == 2
  {
    [v % 0x100, v / 0x100]
  }

  function Put32(v: nat): (bytes: seq<Byte>)
    requires v < 0x1_0000_0000
    ensures |bytes| == 4
  {
    [v % 0x100, v / 0x100 % 0x100, v / 0x1_0000 % 0x100, v / 0x100_0000]
  }

  lemma Get16OfPut16(data: seq<Byte>, offset: nat, v: nat)
    requires v < 0x1_0000 && offset + 2 <= |data| && data[offset..offset + 2] == Put16(v)
    ensures Get16(data, offset) == v
  {
    var slice := data[offset..offset + 2];
    assert data[offset] == slice[0] && data[offset + 1] == slice[1];
  }

  lemma Get32OfPut32(data: seq<Byte>, offset: nat, v: nat)
    requires v < 0x1_0000_0000 && offset + 4 <= |data| && data[offset..offset + 4] == Put32(v)
    ensures Get32(data, offset) == v
  {
    var slice := data[offset..offset + 4];
    FourBytes(v);
    assert data[offset] == slice[0] && data[offset + 1] == slice[1];
    assert data[offset + 2] == slice[2] && data[offset + 3] == slice[3];
  }

  lemma FourBytes(v: nat)
    requires v < 0x1_0000_0000
    ensures v == v % 0x100 + 0x100 * (v / 0x100 % 0x100) + 0x1_0000 * (v / 0x1_0000 % 0x100) + 0x100_0000 * (v / 0x100_0000)
  {
    var q := v / 0x100;
    assert q / 0x100 == v / 0x1_0000 && q / 0x1_0000 == v / 0x100_0000;
  }

  /** An encoded number that lies inside a larger piece of the data. */
  lemma Slice16(data: seq<Byte>, offset: nat, e: seq<Byte>, at: nat, v: nat)
    requires v < 0x1_0000 && offset + |e| <= |data| && data[offset..offset + |e|] == e
    requires at + 2 <= |e| && e[at..at + 2] == Put16(v)
    ensures Get16(data, offset + at) == v
  {
    SliceOfSlice(data, offset, offset + |e|, at, at + 2);
    Get16OfPut16(data, offset + at, v);
  }

  lemma Slice32(data: seq<Byte>, offset: nat, e: seq<Byte>, at: nat, v: nat)
    requires v < 0x1_0000_0000 && offset + |e| <= |data| && data[offset..offset + |e|] == e
    requires at + 4 <= |e| && e[at..at + 4] == Put32(v)
    ensures Get32(data, offset + at) == v
  {
    SliceOfSlice(data, offset, offset + |e|, at, at + 4);
    Get32OfPut32(data, offset + at, v);
  }

  /** The lowest byte comes first. */
  lemma ByteOrder()
    ensures Get16([0x34, 0x12], 0) == 0x1234
    ensures Get32([0x78, 0x56, 0x34, 0x12], 0) == 0x1234_5678
    ensures Put16(0x1234) == [0x34, 0x12] && Put32(0x1234_5678) == [0x78, 0x56, 0x34, 0x12]
  {
  }
}
