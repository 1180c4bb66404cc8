/** Low-level numeric decoding: big-endian 16- and 32-bit reconstruction,
    the scale/offset formulas of the floating-point initialisers (as exact
    reals), and single-bit tests. */
module ByteCodec {

  /** An unsigned 8-bit value. */
  type byte = x: int | 0 <= x < 256

  /** Two to the power `n`. */
  function Pow2(n: nat): (r: nat)
    ensures r >= 1
  {
    if n == 0 then 1 else 2 * Pow2(n - 1)
  }

  /** `UInt16(high:low:)`: the high byte shifted left by eight plus the low
      byte. Both bytes can be read back, so the value is injective and the
      addition never overflows 16 bits. */
  function U16(high: byte, low: byte): (r: nat)
    ensures r < 0x1_0000
    ensures r / 256 == high && r % 256 == low
  {
    (high as int) * 256 + low
  }

  /** `Float(high:low:)`: the 16-bit value as a number. */
  function FromBytes(high: byte, low: byte): (r: real)
    ensures 0.0 <= r <= 65535.0
    ensures r.Floor == U16(high, low) && r == r.Floor as real
  {
    U16(high, low) as real
  }

  /** `Float(high:low:scale:)`: the 16-bit value multiplied by `scale`. */
  function Scaled(high: byte, low: byte, scale: real): (r: real)
    ensures scale >= 0.0 ==> 0.0 <= r <= 65535.0 * scale
    ensures scale != 0.0 ==> r / scale == U16(high, low) as real
  {
    var raw := FromBytes(high, low);
    MulNonNegative(65535.0 - raw, scale);
    MulNonNegative(raw, scale);
    MulDivCancel(raw, scale);
    raw * scale
  }

  /** The product of two non-negative reals is non-negative. */
  lemma MulNonNegative(a: real, b: real)
    ensures a >= 0.0 && b >= 0.0 ==> a * b >= 0.0
  {
  }

  /** Multiplying and then dividing by the same non-zero real is the identity. */
  lemma MulDivCancel(a: real, s: real)
    ensures s != 0.0 ==> a * s / s == a
  {
  }

  /** `Float(high:low:offset:scale:)`: the offset is subtracted from the
      16-bit value before scaling. */
  function OffsetScaled(high: byte, low: byte, offset: real, scale: real): (r: real)
    ensures scale > 0.0 ==> (r < 0.0 <==> (U16(high, low) as real) < offset)
    ensures scale > 0.0 ==> (r == 0.0 <==> (U16(high, low) as real) == offset)
    ensures scale != 0.0 ==> r / scale + offset == U16(high, low) as real
  {
    (FromBytes(high, low) - offset) * scale
  }

  /** `Float(raw:offset:)`: an unsigned byte minus an offset, no scaling. */
  function OffsetByte(raw: byte, offset: real): (r: real)
    ensures r + offset == raw as real
    ensures -offset <= r <= 255.0 - offset
  {
    raw as real - offset
  }

  /** `UInt32(_:)`: big-endian reconstruction of exactly four bytes; any
      other count gives zero. A Dafny slice is re-indexed from zero, which
      is what the source's `startIndex`-relative indexing achieves. */
  function U32(bytes: seq<byte>): (r: nat)
    ensures r < 0x1_0000_0000
    ensures |bytes| != 4 ==> r == 0
    ensures |bytes| == 4 ==>
              && r % 256 == bytes[3]
              && r / 256 % 256 == bytes[2]
              && r / 256 / 256 % 256 == bytes[1]
              && r / 256 / 256 / 256 == bytes[0]
  {
    if |bytes| != 4 then 0
    else
      var r := (bytes[0] as int) * 0x100_0000 + (bytes[1] as int) * 0x1_0000 + (bytes[2] as int) * 0x100 + bytes[3];
      var hi3 := ((bytes[0] as int) * 256 + bytes[1]) * 256 + bytes[2];
      var hi2 := (bytes[0] as int) * 256 + bytes[1];
      assert r == hi3 * 256 + bytes[3];
      assert hi3 == hi2 * 256 + bytes[2];
      PeelByte(hi3, bytes[3]);
      PeelByte(hi2, bytes[2]);
      PeelByte(bytes[0], bytes[1]);
      r
  }

  /** Appending a low byte to a number can be undone by division and remainder. */
  lemma PeelByte(q: nat, b: byte)
    ensures (q * 256 + b) / 256 == q && (q * 256 + b) % 256 == b
  {
  }

  /** Decoding a four-byte window of a longer buffer reads exactly the
      window's bytes, whatever lies around it. */
  lemma U32Window(buffer: seq<byte>, other: seq<byte>, i: nat, j: nat)
    requires i + 4 <= |buffer| && j + 4 <= |other|
    ensures U32(buffer[i..i + 4]) == U32(other[j..j + 4])
            <==> buffer[i..i + 4] == other[j..j + 4]
  {
    var a, b := buffer[i..i + 4], other[j..j + 4];
    if U32(a) == U32(b) {
      assert a == [a[0], a[1], a[2], a[3]];
      assert b == [b[0], b[1], b[2], b[3]];
    }
  }

  /** Bit `i` (0 = least significant) of `x`: `(x >> i) & 1 > 0`, the
      shift written as `i` halvings. */
  predicate Bit(x: nat, i: nat) {
    if i == 0 then x % 2 == 1 else Bit(x / 2, i - 1)
  }

  /** `1 << n` has exactly one bit set, bit `n`. */
  lemma {:induction false} Pow2Bit(n: nat, i: nat)
    ensures Bit(Pow2(n), i) <==> i == n
  {
    if n > 0 && i > 0 {
      Pow2Bit(n - 1, i - 1);
    } else if n == 0 && i > 0 {
      ZeroBit(i - 1);
    }
  }

  /** Zero has no bit set. */
  lemma {:induction false} ZeroBit(i: nat)
    ensures !Bit(0, i)
  {
    if i > 0 {
      ZeroBit(i - 1);
    }
  }

  /** The number whose bit `i` is `bit`, i.e. `bit ? 1 << i : 0`. */
  function BitValue(bit: bool, i: nat): nat {
    if bit then Pow2(i) else 0
  }
}
