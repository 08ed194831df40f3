/**
 The sizes and codes a server goes by when it writes, each given by itself and by number, so that
 what the decoder goes by is proved to agree with them and does not agree by definition.
 */
module Wire {
  import opened Bytes
  import opened Outcomes

  const DESCRIPTION := 0x0f
  const TABLE_MAP := 0x13
  const UPDATE_V1 := 0x18

  /** The bytes of a table id in an event of that type. The post-header lengths a server announces
      are those of the id and two bytes of flags, and in a version 2 rows event of two more bytes.
      Before it has announced any, ids have six bytes. */
  function IdWidth(announced: Option<seq<byte>>, eventType: int): (width: Option<nat>)
    ensures width.Some? ==> width.value == 4 || width.value == 6
  {
    if announced.None? then Some(6)
    else if !(1 <= eventType <= |announced.value|) then None
    else
      var length := announced.value[eventType - 1];
      if 0x1e <= eventType <= 0x20 then (if length == 6 + 2 + 2 then Some(6) else None)
      else if length == 4 + 2 then Some(4)
      else if length == 6 + 2 then Some(6)
      else None
  }

  /** The metadata bytes of a column type in a table map. */
  function MetaBytes(code: byte): nat {
    if code in [0xfe, 0xfd, 0x0f, 0x00, 0xf6, 0xf7, 0xf8] then 2
    else if code in [0xfc, 0x05, 0x04, 0x13, 0x12, 0x11] then 1
    else 0
  }

  /** A bitmap of n columns: a bit for each, and less than a byte to spare. */
  predicate Bitmap(mask: seq<byte>, n: int) {
    n <= 8 * |mask| < n + 8
  }

  function PowerOfTwo(k: nat): (p: nat)
    ensures p > 0
  {
    if k == 0 then 1 else 2 * PowerOfTwo(k - 1)
  }

  /** Bit i, least significant first in each byte. */
  predicate BitAt(mask: seq<byte>, i: nat)
    requires i < 8 * |mask|
  {
    mask[i / 8] / PowerOfTwo(i % 8) % 2 == 1
  }
}
