/**
 Bytes, the little- and big-endian numbers they spell, the C integer conversions the
 source relies on, and the fixed-width readers of tools.c.
 */
module Bytes {

  type byte = b: int | 0 <= b < 256 witness 0

  function Pow256(k: nat): (p: int)
    ensures 1 <= p
  {
    if k == 0 then 1 else 256 * Pow256(k - 1)
  }

  /** The number a byte string spells, least significant byte first. */
  function LE(b: seq<byte>): (n: int)
    ensures 0 <= n
  {
    if |b| == 0 then 0 else b[0] + 256 * LE(b[1..])
  }

  /** The number a byte string spells, most significant byte first. */
  function BE(b: seq<byte>): (n: int)
    ensures 0 <= n
  {
    if |b| == 0 then 0 else 256 * BE(b[..|b| - 1]) + b[|b| - 1]
  }

  /** The low k bytes of n, least significant first. */
  function EncodeLE(n: nat, k: nat): (b: seq<byte>)
    ensures |b| == k
  {
    if k == 0 then [] else [n % 256] + EncodeLE(n / 256, k - 1)
  }

  /** The low k bytes of n, most significant first. */
  function EncodeBE(n: nat, k: nat): (b: seq<byte>)
    ensures |b| == k
  {
    if k == 0 then [] else EncodeBE(n / 256, k - 1) + [n % 256]
  }

  lemma {:induction false} LEBound(b: seq<byte>)
    ensures LE(b) < Pow256(|b|)
  {
    if |b| > 0 {
      LEBound(b[1..]);
    }
  }

  lemma {:induction false} BEBound(b: seq<byte>)
    ensures BE(b) < Pow256(|b|)
  {
    if |b| > 0 {
      BEBound(b[..|b| - 1]);
    }
  }

  lemma {:induction false} DecodeEncodeLE(n: nat, k: nat)
    requires n < Pow256(k)
    ensures LE(EncodeLE(n, k)) == n
  {
    if k > 0 {
      DecodeEncodeLE(n / 256, k - 1);
      assert EncodeLE(n, k)[1..] == EncodeLE(n / 256, k - 1);
    }
  }

  lemma {:induction false} EncodeDecodeLE(b: seq<byte>)
    ensures EncodeLE(LE(b), |b|) == b
  {
    if |b| > 0 {
      EncodeDecodeLE(b[1..]);
      assert LE(b) % 256 == b[0] && LE(b) / 256 == LE(b[1..]);
    }
  }

  lemma {:induction false} DecodeEncodeBE(n: nat, k: nat)
    requires n < Pow256(k)
    ensures BE(EncodeBE(n, k)) == n
  {
    if k > 0 {
      DecodeEncodeBE(n / 256, k - 1);
      assert EncodeBE(n, k)[..k - 1] == EncodeBE(n / 256, k - 1);
    }
  }

  lemma {:induction false} EncodeDecodeBE(b: seq<byte>)
    ensures EncodeBE(BE(b), |b|) == b
  {
    if |b| > 0 {
      EncodeDecodeBE(b[..|b| - 1]);
      assert BE(b) % 256 == b[|b| - 1] && BE(b) / 256 == BE(b[..|b| - 1]);
    }
  }

  lemma Three(b: seq<byte>)
    requires |b| == 3
    ensures LE(b) == b[0] + 0x100 * (b[1] as int) + 0x1_0000 * (b[2] as int)
    ensures BE(b) == 0x1_0000 * (b[0] as int) + 0x100 * (b[1] as int) + b[2]
  {
    assert LE(b[1..][1..]) == b[2];
    assert BE(b[..2][..1]) == b[0];
  }

  lemma Four(b: seq<byte>)
    requires |b| == 4
    ensures LE(b) == b[0] + 0x100 * (b[1] as int) + 0x1_0000 * (b[2] as int) + 0x100_0000 * (b[3] as int)
    ensures BE(b) == 0x100_0000 * (b[0] as int) + 0x1_0000 * (b[1] as int) + 0x100 * (b[2] as int) + b[3]
  {
    Three(b[1..]);
    Three(b[..3]);
  }

  lemma Five(b: seq<byte>)
    requires |b| == 5
    ensures BE(b) == 0x1_0000_0000 * (b[0] as int) + 0x100_0000 * (b[1] as int)
                     + 0x1_0000 * (b[2] as int) + 0x100 * (b[3] as int) + b[4]
  {
    Four(b[..4]);
  }

  // ---------- C integer conversions ----------

  const TWO_7 := 0x80
  const TWO_31 := 0x8000_0000
  const TWO_32 := 0x1_0000_0000
  const TWO_63 := 0x8000_0000_0000_0000
  const TWO_64 := 0x1_0000_0000_0000_0000

  /** The constants are the counts and half counts of one, four and eight bytes. */
  lemma WordSizes()
    ensures 2 * TWO_7 == Pow256(1) && 2 * TWO_31 == TWO_32 == Pow256(4) && 2 * TWO_63 == TWO_64 == Pow256(8)
  {
  }

  /** What a k-byte two's-complement integer with bit pattern n denotes. */
  function TwosComplement(n: nat, k: nat): int {
    if 2 * n < Pow256(k) then n else n - Pow256(k)
  }

  /** Conversion to int32_t: reduction modulo 2^32 into the signed range. */
  function ToInt32(x: int): (r: int)
    ensures -TWO_31 <= r < TWO_31
    ensures -TWO_31 <= x < TWO_31 ==> r == x
  {
    (x + TWO_31) % TWO_32 - TWO_31
  }

  function ToUint32(x: int): (r: int)
    ensures 0 <= r < TWO_32
    ensures 0 <= x < TWO_32 ==> r == x
  {
    x % TWO_32
  }

  function ToUint64(x: int): (r: int)
    ensures 0 <= r < TWO_64
    ensures 0 <= x < TWO_64 ==> r == x
  {
    x % TWO_64
  }

  /** A plain `char` read as a number. Whether it is signed is up to the C implementation
      (x86 Linux: signed; ARM Linux: unsigned), so the model takes it as a parameter. */
  function PlainChar(signedChar: bool, b: byte): (c: int)
    ensures c == b || (signedChar && b >= TWO_7 && c == b - 256)
  {
    if signedChar && b >= TWO_7 then b - 256 else b
  }

  // ---------- the fixed-width readers ----------

  function ReadInt2(mem: seq<byte>): int
    requires |mem| >= 2
  {
    TwosComplement(LE(mem[..2]), 2)
  }

  /** Three bytes copied into a zeroed word, whose top byte is then set by hand when bit 23
      is on. */
  function ReadInt3(mem: seq<byte>): int
    requires |mem| >= 3
  {
    var tmp := LE(mem[..3]);
    if (tmp / 0x80_0000) % 2 == 1 then ToInt32(tmp + 0xFF00_0000) else tmp
  }

  function ReadInt4(mem: seq<byte>): int
    requires |mem| >= 4
  {
    TwosComplement(LE(mem[..4]), 4)
  }

  /** Six bytes copied into a zeroed 64-bit word: never negative. */
  function ReadInt6(mem: seq<byte>): int
    requires |mem| >= 6
  {
    LE(mem[..6])
  }

  /** The two's-complement bytes of n, k of them, least significant first. */
  function EncodeSigned(n: int, k: nat): (b: seq<byte>)
    ensures |b| == k
  {
    EncodeLE(n % Pow256(k), k)
  }

  /** A header field declared unsigned but read through a signed reader gets its bits back. */
  lemma UnsignedFieldKeepsBits(mem: seq<byte>)
    requires |mem| >= 4
    ensures ToUint32(ReadInt4(mem)) == LE(mem[..4])
  {
    LEBound(mem[..4]);
    assert Pow256(4) == TWO_32;
  }

  lemma UnsignedShortKeepsBits(mem: seq<byte>)
    requires |mem| >= 2
    ensures ReadInt2(mem) % 0x1_0000 == LE(mem[..2])
  {
    LEBound(mem[..2]);
    assert Pow256(2) == 0x1_0000;
  }

  /** The hand-made sign extension is two's complement: the reader gives back n exactly for
      the numbers three bytes can hold. */
  lemma ReadInt3Exact(n: int, tail: seq<byte>)
    ensures ReadInt3(EncodeSigned(n, 3) + tail) == n <==> -0x80_0000 <= n < 0x80_0000
  {
    var m := n % Pow256(3);
    assert Pow256(3) == 0x100_0000;
    DecodeEncodeLE(m, 3);
    assert (EncodeSigned(n, 3) + tail)[..3] == EncodeSigned(n, 3);
    assert m < 0x80_0000 <==> (m / 0x80_0000) % 2 == 0;
  }

  lemma TwosComplementRange(n: nat, k: nat)
    requires n < Pow256(k)
    ensures -Pow256(k) <= 2 * TwosComplement(n, k) < Pow256(k)
  {
  }

  lemma TwosComplementOf(n: int, k: nat)
    requires -Pow256(k) <= 2 * n < Pow256(k)
    ensures TwosComplement(n % Pow256(k), k) == n
  {
    var p := Pow256(k);
    if n < 0 {
      DivMod(n, p, -1, n + p);
    } else {
      DivMod(n, p, 0, n);
    }
  }

  /** The two's-complement readers give back n exactly when k bytes can hold it. */
  lemma ReadSignedExact(n: int, k: nat, tail: seq<byte>)
    ensures TwosComplement(LE((EncodeSigned(n, k) + tail)[..k]), k) == n
       <==> -Pow256(k) <= 2 * n < Pow256(k)
  {
    var m := n % Pow256(k);
    DecodeEncodeLE(m, k);
    assert (EncodeSigned(n, k) + tail)[..k] == EncodeSigned(n, k);
    TwosComplementRange(m, k);
    if -Pow256(k) <= 2 * n < Pow256(k) {
      TwosComplementOf(n, k);
    }
  }

  lemma MulNat(a: nat, p: nat)
    ensures 0 <= a * p
  {
  }

  lemma MulStep(x: int, y: int, p: int)
    requires x < y && 0 < p
    ensures x * p + p <= y * p
  {
    var d := y - x - 1;
    MulNat(d, p);
    assert y * p == (x + 1 + d) * p == x * p + p + d * p;
  }

  /** A number splits into quotient and remainder in one way only. */
  lemma SplitUnique(x: int, d: int, y: int, e: int, p: int)
    requires 0 <= d < p && 0 <= e < p
    requires x * p + d == y * p + e
    ensures x == y && d == e
  {
    if x < y {
      MulStep(x, y, p);
    } else if y < x {
      MulStep(y, x, p);
    }
  }

  lemma DivMod(n: int, p: int, q: int, r: int)
    requires 0 <= r < p && n == q * p + r
    ensures n / p == q && n % p == r
  {
    SplitUnique(n / p, n % p, q, r, p);
  }

  // ---------- places in memory ----------

  /** What stands at offset |pre| of pre + x + post. */
  lemma Middle(mem: seq<byte>, pre: seq<byte>, x: seq<byte>, post: seq<byte>)
    requires mem == pre + x + post
    ensures mem[|pre|..] == x + post
    ensures mem[|pre|..|pre| + |x|] == x
    ensures mem[|pre| + |x|..] == post
  {
  }
}
