/**
 Length-encoded integers and strings (tools.c): the two readers as the source has them,
 the writer that works in a buffer, and the encodings they are meant to read.
 */
module LengthEncoded {
  import opened Bytes
  import opened Outcomes

  /** What a reader hands back: the value and the number of bytes it says it used. */
  datatype Read<+T> = Read(value: T, length: nat)

  /** The shortest encoding of n (Protocol::LengthEncodedInteger). */
  function EncodeNumber(n: nat): (b: seq<byte>)
    ensures 1 <= |b| <= 9
  {
    if n < 251 then [n]
    else if n < 0x1_0000 then [0xFC] + EncodeLE(n, 2)
    else if n < 0x100_0000 then [0xFD] + EncodeLE(n, 3)
    else [0xFE] + EncodeLE(n, 8)
  }

  /** Protocol::LengthEncodedString. */
  function EncodeString(s: seq<byte>): seq<byte> {
    EncodeNumber(|s|) + s
  }

  /** get_length_encode_number. The first byte is a plain `char` widened to int, so on a
      signed-char machine it is always below 0xFB. A first byte of 0xFB or 0xFF copies that
      many bytes into an 8-byte local. The 64-bit result is returned as an int. */
  function GetNumber(signedChar: bool, mem: seq<byte>): Outcome<Read<int>> {
    if |mem| == 0 then Undefined else
    var tmp := PlainChar(signedChar, mem[0]);
    if tmp < 0xFB then
      Done(Read(ToInt32(ToUint64(tmp)), 1))
    else
      var width := if tmp == 0xFC then 2 else if tmp == 0xFD then 3 else if tmp == 0xFE then 8 else tmp;
      if width > 8 || |mem| < 1 + width then Undefined
      else Done(Read(ToInt32(LE(mem[1..1 + width])), width + 1))
  }

  /** get_length_encode_string. The length it reports counts the terminating zero it
      appended to its own copy, a byte that is not in the buffer. */
  function GetString(signedChar: bool, mem: seq<byte>): Outcome<Read<seq<byte>>> {
    var n :- GetNumber(signedChar, mem);
    if n.value < 0 || |mem| < n.length + n.value then Undefined
    else Done(Read(mem[n.length..n.length + n.value], n.length + n.value + 1))
  }

  /** The bytes set_length_encode_string writes: the low byte of the length, then the string. */
  function WrittenString(s: seq<byte>): (b: seq<byte>)
    ensures |b| == |s| + 1
  {
    [|s| % 256] + s
  }

  /** set_length_encode_string: writes at the start of buf and returns how much it wrote. */
  method SetString(buf: array<byte>, s: seq<byte>) returns (length: nat)
    requires |s| < buf.Length
    modifies buf
    ensures length == |s| + 1
    ensures buf[..] == WrittenString(s) + old(buf[|s| + 1..])
  {
    length := |s|;
    buf[0] := length % 256;
    for i := 0 to |s|
      invariant buf[0] == |s| % 256
      invariant buf[1..1 + i] == s[..i]
      invariant buf[|s| + 1..] == old(buf[|s| + 1..])
    {
      buf[1 + i] := s[i];
      assert buf[1..1 + i + 1] == buf[1..1 + i] + [s[i]];
    }
    length := length + 1;
    assert buf[..] == [buf[0]] + buf[1..1 + |s|] + buf[|s| + 1..];
  }

  // ---------- integers ----------

  lemma ReadBack(n: nat, k: nat, tail: seq<byte>, first: byte)
    requires n < Pow256(k)
    ensures LE(([first] + EncodeLE(n, k) + tail)[1..1 + k]) == n
  {
    DecodeEncodeLE(n, k);
    Middle([first] + EncodeLE(n, k) + tail, [first], EncodeLE(n, k), tail);
  }

  /** On an unsigned-char machine the reader returns every 64-bit number cut to 32 bits and
      always the right length; on a signed-char machine it takes every number for one byte. */
  lemma GetNumberComputes(signedChar: bool, n: nat, tail: seq<byte>)
    requires n < TWO_64
    ensures GetNumber(signedChar, EncodeNumber(n) + tail) ==
            if signedChar && n >= 0x80
            then Done(Read((if n < 251 then n else if n < 0x1_0000 then 0xFC
                            else if n < 0x100_0000 then 0xFD else 0xFE) - 256, 1))
            else Done(Read(ToInt32(n), |EncodeNumber(n)|))
  {
    var mem := EncodeNumber(n) + tail;
    assert mem[0] == EncodeNumber(n)[0];
    assert Pow256(2) == 0x1_0000 && Pow256(3) == 0x100_0000 && Pow256(8) == TWO_64;
    if n >= 251 {
      var k := if n < 0x1_0000 then 2 else if n < 0x100_0000 then 3 else 8;
      ReadBack(n, k, tail, mem[0]);
      assert mem == [mem[0]] + EncodeLE(n, k) + tail;
    }
  }

  /** The integer reader is right exactly below 2^31 on an unsigned-char machine, and exactly
      below 0x80 on a signed-char one, whatever follows the encoding. */
  lemma NumberRoundTrip(signedChar: bool, n: nat, tail: seq<byte>)
    requires n < TWO_64
    ensures GetNumber(signedChar, EncodeNumber(n) + tail) == Done(Read(n, |EncodeNumber(n)|))
       <==> n < TWO_31 && (!signedChar || n < 0x80)
  {
    GetNumberComputes(signedChar, n, tail);
  }

  /** First bytes no number starts with. On an unsigned-char machine they stand for more bytes than
      the reader's local holds, on a signed-char one for small negative numbers. */
  lemma UnusedFirstBytes(signedChar: bool, mem: seq<byte>)
    requires |mem| > 0 && mem[0] in [0xFB, 0xFF]
    ensures GetNumber(signedChar, mem)
         == if signedChar then Done(Read((mem[0] as int) - 0x100, 1)) else Undefined
  {
  }

  /** Of an encoding cut short nothing is read on an unsigned-char machine. */
  lemma CutNumber(n: nat, k: nat)
    requires n < TWO_64 && k < |EncodeNumber(n)|
    ensures GetNumber(false, EncodeNumber(n)[..k]) == Undefined
  {
    hide LE;
    if k > 0 {
      assert EncodeNumber(n)[..k][0] == EncodeNumber(n)[0];
    }
  }

  function EncodeNumbers(ns: seq<nat>): seq<byte> {
    if |ns| == 0 then [] else EncodeNumber(ns[0]) + EncodeNumbers(ns[1..])
  }

  /** One number after another, each from where the length reported for the last one leads. */
  function ReadNumbers(signedChar: bool, mem: seq<byte>, count: nat): Outcome<seq<int>> {
    if count == 0 then Done([]) else
    var n :- GetNumber(signedChar, mem);
    if n.length > |mem| then Undefined else
    var rest :- ReadNumbers(signedChar, mem[n.length..], count - 1);
    Done([n.value] + rest)
  }

  /** The reader gets a whole list of numbers right, whatever follows it, exactly when it gets
      each of them right. */
  lemma {:induction false} NumbersRoundTrip(signedChar: bool, ns: seq<nat>, tail: seq<byte>)
    requires forall i :: 0 <= i < |ns| ==> ns[i] < TWO_64
    ensures ReadNumbers(signedChar, EncodeNumbers(ns) + tail, |ns|) == Done(ns)
       <==> forall i :: 0 <= i < |ns| ==> ns[i] < TWO_31 && (!signedChar || ns[i] < 0x80)
  {
    hide GetNumber, EncodeNumber;
    if |ns| > 0 {
      var n, rest := ns[0], EncodeNumbers(ns[1..]) + tail;
      var mem := EncodeNumber(n) + rest;
      assert EncodeNumbers(ns) + tail == mem;
      GetNumberComputes(signedChar, n, rest);
      NumbersRoundTrip(signedChar, ns[1..], tail);
      assert mem[|EncodeNumber(n)|..] == rest;
      assert ns == [n] + ns[1..];
      if ReadNumbers(signedChar, mem, |ns|) == Done(ns) {
        assert ns[0] == GetNumber(signedChar, mem).value.value;
        assert ReadNumbers(signedChar, rest, |ns| - 1).value == ns[1..];
      }
    }
  }

  // ---------- strings ----------

  /** The string reader recovers a protocol string under the same condition as the integer
      reader recovers its length; the length it then reports is always one too large. */
  lemma StringRoundTrip(signedChar: bool, s: seq<byte>, tail: seq<byte>)
    requires |s| < TWO_31
    ensures var r := GetString(signedChar, EncodeString(s) + tail);
            if !signedChar || |s| < 0x80
            then r == Done(Read(s, |EncodeString(s)| + 1))
            else r == Undefined
  {
    var mem := EncodeString(s) + tail;
    assert mem == EncodeNumber(|s|) + (s + tail);
    GetNumberComputes(signedChar, |s|, s + tail);
    Middle(mem, EncodeNumber(|s|), s, tail);
  }

  /** A first byte below 0xFB is the number; any other stands for a longer encoding. */
  lemma FirstByteOfNumber(signedChar: bool, mem: seq<byte>)
    requires |mem| > 0
    ensures var tmp := PlainChar(signedChar, mem[0]);
            if tmp < 0xFB then GetNumber(signedChar, mem) == Done(Read(tmp, 1))
            else GetNumber(signedChar, mem).Done? ==> GetNumber(signedChar, mem).value.length > 1
  {
    hide LE;
  }

  lemma StringLength(signedChar: bool, mem: seq<byte>)
    requires GetString(signedChar, mem).Done? && GetNumber(signedChar, mem).Done?
    ensures var n, r := GetNumber(signedChar, mem).value, GetString(signedChar, mem).value;
            |r.value| == n.value && r.length == n.length + n.value + 1
  {
    hide GetNumber;
  }

  /** Reading back what the writer wrote gives the string, with a length one above the one
      the writer returned, exactly for the lengths whose low byte is itself a one-byte
      number: below 251, or below 0x80 where `char` is signed. */
  lemma WriteThenRead(signedChar: bool, s: seq<byte>, tail: seq<byte>)
    ensures GetString(signedChar, WrittenString(s) + tail) == Done(Read(s, |WrittenString(s)| + 1))
       <==> |s| < (if signedChar then 0x80 else 251)
  {
    hide GetNumber, GetString;
    var mem := WrittenString(s) + tail;
    assert mem[0] == |s| % 256;
    FirstByteOfNumber(signedChar, mem);
    if |s| < (if signedChar then 0x80 else 251) {
      ReadsOneByteString(signedChar, s, tail);
    } else if GetString(signedChar, mem) == Done(Read(s, |WrittenString(s)| + 1)) {
      NumberOfString(signedChar, mem);
      StringLength(signedChar, mem);
    }
  }

  lemma NumberOfString(signedChar: bool, mem: seq<byte>)
    requires GetString(signedChar, mem).Done?
    ensures GetNumber(signedChar, mem).Done?
  {
    hide GetNumber;
  }

  lemma ReadsOneByteString(signedChar: bool, s: seq<byte>, tail: seq<byte>)
    requires |s| < (if signedChar then 0x80 else 251)
    ensures GetString(signedChar, WrittenString(s) + tail) == Done(Read(s, |WrittenString(s)| + 1))
  {
    hide GetNumber;
    var mem := WrittenString(s) + tail;
    assert mem == [|s|] + s + tail;
    FirstByteOfNumber(signedChar, mem);
    Middle(mem, [|s|], s, tail);
  }
}
