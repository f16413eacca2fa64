/**
 * Bit addressing inside the byte buffer of one float.
 *
 * The buffer is the little-endian byte view of a binary16, binary32 or
 * binary64 value, so display bit 0 (the sign) lives in the LAST byte and the
 * last display bit (the least significant fraction bit) in byte 0. A display
 * index maps to the byte `n - (index >> 3) - 1` and to the bit selected by the
 * mask `1 << (7 - (index & 7))`.
 */
module Bits {

  function Pow2(k: nat): (p: nat)
    ensures p >= 1
  {
    if k == 0 then 1 else 2 * Pow2(k - 1)
  }

  /**
   * A buffer of 2, 4 or 8 bytes with 1 sign bit, `exponentBits` exponent bits
   * and at least one fraction bit; `exponentBits <= 31` keeps the 32-bit
   * shifts `1 << (exponentBits - 1)` and `bit << (exponentBits - i - 1)` exact.
   */
  predicate ValidLayout(byteLength: nat, exponentBits: nat) {
    && (byteLength == 2 || byteLength == 4 || byteLength == 8)
    && 1 <= exponentBits <= 31
    && exponentBits + 1 < 8 * byteLength
  }

  /** The exponent bias `(1 << (exponentBits - 1)) - 1` of IEEE 754-2008 section 3.4. */
  function Bias(exponentBits: nat): (bias: int)
    requires exponentBits >= 1
    ensures bias >= 0 && 2 * bias + 2 == Pow2(exponentBits)
  {
    Pow2(exponentBits - 1) - 1
  }

  /** The three layouts the page instantiates: binary16, binary32, binary64. */
  lemma StandardLayouts()
    ensures ValidLayout(2, 5) && Bias(5) == 15
    ensures ValidLayout(4, 8) && Bias(8) == 127
    ensures ValidLayout(8, 11) && Bias(11) == 1023
  {
    assert Pow2(4) == 16;
    assert Pow2(7) == 128;
    assert Pow2(10) == 1024;
  }

  // ---------------------------------------------------------------------------
  // Addressing

  /** `bytes.length - (index >> 3) - 1`; for a non-negative index `>> 3` is `/ 8`. */
  function ByteIndex(byteLength: nat, index: nat): (j: nat)
    requires index < 8 * byteLength
    ensures j < byteLength
  {
    byteLength - index / 8 - 1
  }

  /** `7 - (index & 7)`: how far the addressed bit sits from the low end of its byte. */
  function BitShift(index: nat): (k: bv8)
    ensures k < 8
  {
    (7 - index % 8) as bv8
  }

  /** `1 << (7 - (index & 7))` */
  function Mask(index: nat): bv8 {
    1 << BitShift(index)
  }

  /** `(x >> k) & 1` */
  function ByteBit(x: bv8, k: bv8): bv8
    requires k < 8
  {
    (x >> k) & 1
  }

  /** `(bytes[bytes.length - (i >> 3) - 1] >> (7 - (i & 7))) & 1`, the bit shown at display index `i`. */
  function BitAt(s: seq<bv8>, index: nat): (bit: nat)
    requires index < 8 * |s|
    ensures bit <= 1
  {
    if ByteBit(s[ByteIndex(|s|, index)], BitShift(index)) == 0 then 0 else 1
  }

  /** Every mask has exactly one bit set. */
  lemma MaskIsSingleBit(index: nat)
    ensures Mask(index) != 0 && Mask(index) & (Mask(index) - 1) == 0
  {
  }

  /** Distinct display indices address distinct (byte, bit) pairs. */
  lemma AddressInjective(byteLength: nat, i: nat, j: nat)
    requires i < 8 * byteLength && j < 8 * byteLength && i != j
    ensures ByteIndex(byteLength, i) != ByteIndex(byteLength, j) || Mask(i) != Mask(j)
  {
    if ByteIndex(byteLength, i) == ByteIndex(byteLength, j) {
      assert i / 8 == j / 8;
      assert i % 8 != j % 8;
      assert BitShift(i) != BitShift(j);
    }
  }

  /** Testing a byte against the mask, as the click handler does, reads the displayed bit. */
  lemma MaskTestReadsBit(s: seq<bv8>, index: nat)
    requires index < 8 * |s|
    ensures (s[ByteIndex(|s|, index)] & Mask(index) != 0) <==> BitAt(s, index) == 1
  {
  }

  /** Display bit 0 is the 0x80 bit of the last byte: the bit `render` reads as the sign. */
  lemma SignBitAddress(s: seq<bv8>)
    requires |s| >= 1
    ensures ByteIndex(|s|, 0) == |s| - 1 && Mask(0) == 0x80
    ensures BitAt(s, 0) == if s[|s| - 1] & 0x80 != 0 then 1 else 0
  {
  }

  /** A byte is determined by its eight bits. */
  lemma ByteFromBits(x: bv8, y: bv8)
    requires forall k: bv8 :: k < 8 ==> ByteBit(x, k) == ByteBit(y, k)
    ensures x == y
  {
    assert ByteBit(x, 0) == ByteBit(y, 0) && ByteBit(x, 1) == ByteBit(y, 1);
    assert ByteBit(x, 2) == ByteBit(y, 2) && ByteBit(x, 3) == ByteBit(y, 3);
    assert ByteBit(x, 4) == ByteBit(y, 4) && ByteBit(x, 5) == ByteBit(y, 5);
    assert ByteBit(x, 6) == ByteBit(y, 6) && ByteBit(x, 7) == ByteBit(y, 7);
  }

  /** Two buffers of one width that show the same bits at every display index are equal. */
  lemma {:induction false} BitsDetermineBytes(a: seq<bv8>, b: seq<bv8>)
    requires |a| == |b|
    requires forall i :: 0 <= i < 8 * |a| ==> BitAt(a, i) == BitAt(b, i)
    ensures a == b
  {
    var n := |a|;
    forall j | 0 <= j < n
      ensures a[j] == b[j]
    {
      forall k: bv8 | k < 8
        ensures ByteBit(a[j], k) == ByteBit(b[j], k)
      {
        var i := 8 * (n - 1 - j) + (7 - k as int);
        assert ByteIndex(n, i) == j;
        assert BitShift(i) == k;
        assert BitAt(a, i) == BitAt(b, i);
      }
      ByteFromBits(a[j], b[j]);
    }
  }

  // ---------------------------------------------------------------------------
  // Editing

  /** `x ^ mask` */
  function FlipByte(x: bv8, mask: bv8): bv8 {
    x ^ mask
  }

  /** `(x & ~mask) | paint` */
  function ForceByte(x: bv8, mask: bv8, paint: bv8): bv8 {
    (x & !mask) | paint
  }

  /** The click edit `bytes[byteIndex] ^= byteMask`. */
  function ToggleBit(s: seq<bv8>, index: nat): seq<bv8>
    requires index < 8 * |s|
  {
    var j := ByteIndex(|s|, index);
    s[j := FlipByte(s[j], Mask(index))]
  }

  /**
   * The drag edit `bytes[byteIndex] = (bytes[byteIndex] & ~byteMask) | (byteMask * value)`;
   * for a paint value of 0 or 1 the product is 0 or the mask.
   */
  function PaintBit(s: seq<bv8>, index: nat, value: nat): seq<bv8>
    requires index < 8 * |s| && value <= 1
  {
    var j := ByteIndex(|s|, index);
    var paint: bv8 := if value == 0 then 0 else Mask(index);
    s[j := ForceByte(s[j], Mask(index), paint)]
  }

  /** One byte, bit by bit: XOR with a single-bit mask flips that bit only. */
  lemma XorFlipsOneBit(x: bv8, k: bv8, m: bv8)
    requires k < 8 && m < 8
    ensures ByteBit(FlipByte(x, 1 << k), m) == if m == k then 1 - ByteBit(x, m) else ByteBit(x, m)
  {
  }

  /** One byte, bit by bit: clear-then-or with a single-bit mask forces that bit only. */
  lemma PaintForcesOneBit(x: bv8, k: bv8, m: bv8, v: bool)
    requires k < 8 && m < 8
    ensures ByteBit(ForceByte(x, 1 << k, if v then 1 << k else 0), m) == if m == k then (if v then 1 else 0) else ByteBit(x, m)
  {
  }

  /** The toggle flips the addressed bit and leaves every other bit as it was. */
  lemma ToggleBitEffect(s: seq<bv8>, index: nat)
    requires index < 8 * |s|
    ensures |ToggleBit(s, index)| == |s|
    ensures BitAt(ToggleBit(s, index), index) == 1 - BitAt(s, index)
    ensures forall i :: 0 <= i < 8 * |s| && i != index ==> BitAt(ToggleBit(s, index), i) == BitAt(s, i)
  {
    var j, x := ByteIndex(|s|, index), s[ByteIndex(|s|, index)];
    assert ToggleBit(s, index)[j] == FlipByte(x, Mask(index));
    XorFlipsOneBit(x, BitShift(index), BitShift(index));
    forall i | 0 <= i < 8 * |s| && i != index
      ensures BitAt(ToggleBit(s, index), i) == BitAt(s, i)
    {
      ToggleOtherBit(s, index, i);
    }
  }

  /** The toggle keeps display bit `i` when it addresses another one. */
  lemma ToggleOtherBit(s: seq<bv8>, index: nat, i: nat)
    requires index < 8 * |s| && i < 8 * |s| && i != index
    ensures BitAt(ToggleBit(s, index), i) == BitAt(s, i)
  {
    var r := ToggleBit(s, index);
    AddressInjective(|s|, i, index);
    if ByteIndex(|s|, i) == ByteIndex(|s|, index) {
      XorFlipsOneBit(s[ByteIndex(|s|, index)], BitShift(index), BitShift(i));
    } else {
      assert r[ByteIndex(|s|, i)] == s[ByteIndex(|s|, i)];
    }
  }

  /** One byte: XOR with the same mask twice restores it. */
  lemma FlipByteTwice(x: bv8, mask: bv8)
    ensures FlipByte(FlipByte(x, mask), mask) == x
  {
  }

  /** Toggling the same display index twice restores the buffer. */
  lemma ToggleTwice(s: seq<bv8>, index: nat)
    requires index < 8 * |s|
    ensures ToggleBit(ToggleBit(s, index), index) == s
  {
    var j := ByteIndex(|s|, index);
    FlipByteTwice(s[j], Mask(index));
  }

  /**
   * The toggle is characterised by its bits: any buffer that flips the addressed
   * bit and keeps the others is the toggled buffer.
   */
  lemma ToggleBitUnique(s: seq<bv8>, index: nat, r: seq<bv8>)
    requires index < 8 * |s| && |r| == |s|
    requires BitAt(r, index) == 1 - BitAt(s, index)
    requires forall i :: 0 <= i < 8 * |s| && i != index ==> BitAt(r, i) == BitAt(s, i)
    ensures r == ToggleBit(s, index)
  {
    ToggleBitEffect(s, index);
    BitsDetermineBytes(r, ToggleBit(s, index));
  }

  /** The paint sets the addressed bit to the paint value and leaves every other bit as it was. */
  lemma PaintBitEffect(s: seq<bv8>, index: nat, value: nat)
    requires index < 8 * |s| && value <= 1
    ensures |PaintBit(s, index, value)| == |s|
    ensures BitAt(PaintBit(s, index, value), index) == value
    ensures forall i :: 0 <= i < 8 * |s| && i != index ==> BitAt(PaintBit(s, index, value), i) == BitAt(s, i)
  {
    var j, x := ByteIndex(|s|, index), s[ByteIndex(|s|, index)];
    var paint: bv8 := if value == 0 then 0 else Mask(index);
    assert PaintBit(s, index, value)[j] == ForceByte(x, Mask(index), paint);
    PaintForcesOneBit(x, BitShift(index), BitShift(index), value != 0);
    forall i | 0 <= i < 8 * |s| && i != index
      ensures BitAt(PaintBit(s, index, value), i) == BitAt(s, i)
    {
      PaintOtherBit(s, index, value, i);
    }
  }

  /** The paint keeps display bit `i` when it addresses another one. */
  lemma PaintOtherBit(s: seq<bv8>, index: nat, value: nat, i: nat)
    requires index < 8 * |s| && value <= 1 && i < 8 * |s| && i != index
    ensures BitAt(PaintBit(s, index, value), i) == BitAt(s, i)
  {
    var r := PaintBit(s, index, value);
    AddressInjective(|s|, i, index);
    if ByteIndex(|s|, i) == ByteIndex(|s|, index) {
      PaintForcesOneBit(s[ByteIndex(|s|, index)], BitShift(index), BitShift(i), value != 0);
    } else {
      assert r[ByteIndex(|s|, i)] == s[ByteIndex(|s|, i)];
    }
  }

  /** One byte: forcing the bits of `m` to `p` twice is forcing them once. */
  lemma PaintByteTwice(x: bv8, m: bv8, p: bv8)
    requires p == 0 || p == m
    ensures ForceByte(ForceByte(x, m, p), m, p) == ForceByte(x, m, p)
  {
  }

  /** Painting twice with the same value is the same as painting once. */
  lemma PaintIdempotent(s: seq<bv8>, index: nat, value: nat)
    requires index < 8 * |s| && value <= 1
    ensures PaintBit(PaintBit(s, index, value), index, value) == PaintBit(s, index, value)
  {
    var j := ByteIndex(|s|, index);
    var m := Mask(index);
    PaintByteTwice(s[j], m, if value == 0 then 0 else m);
  }

  /** Painting a bit with the value it already has changes nothing. */
  lemma PaintCurrentValue(s: seq<bv8>, index: nat)
    requires index < 8 * |s|
    ensures PaintBit(s, index, BitAt(s, index)) == s
  {
    PaintBitEffect(s, index, BitAt(s, index));
    BitsDetermineBytes(PaintBit(s, index, BitAt(s, index)), s);
  }

  // ---------------------------------------------------------------------------
  // Fields

  /** The unsigned value of `len` display bits starting at `start`, read most significant first. */
  function FieldValue(s: seq<bv8>, start: nat, len: nat): nat
    requires start + len <= 8 * |s|
  {
    if len == 0 then 0 else 2 * FieldValue(s, start, len - 1) + BitAt(s, start + len - 1)
  }

  /** A field of `len` bits holds a value below `2^len`. */
  lemma {:induction false} FieldValueBound(s: seq<bv8>, start: nat, len: nat)
    requires start + len <= 8 * |s|
    ensures FieldValue(s, start, len) < Pow2(len)
  {
    if len > 0 {
      FieldValueBound(s, start, len - 1);
    }
  }

  /** A field reads the same in two buffers that agree on its bits. */
  lemma {:induction false} FieldValueFrame(a: seq<bv8>, b: seq<bv8>, start: nat, len: nat)
    requires start + len <= 8 * |a| && start + len <= 8 * |b|
    requires forall i :: start <= i < start + len ==> BitAt(a, i) == BitAt(b, i)
    ensures FieldValue(a, start, len) == FieldValue(b, start, len)
  {
    if len > 0 {
      FieldValueFrame(a, b, start, len - 1);
    }
  }

  /** A field `0 1 ... 1` of `len >= 1` bits holds `2^(len-1) - 1`: the bias for `len` exponent bits. */
  lemma {:induction false} BiasPatternValue(s: seq<bv8>, start: nat, len: nat)
    requires 1 <= len && start + len <= 8 * |s|
    requires BitAt(s, start) == 0
    requires forall i :: start < i < start + len ==> BitAt(s, i) == 1
    ensures FieldValue(s, start, len) == Bias(len)
  {
    if len > 1 {
      BiasPatternValue(s, start, len - 1);
    }
  }

  /**
   * The exponent `render` shows: the raw field minus the bias, bumped by one
   * when it equals `-bias` (a zero raw field, i.e. zero or a subnormal).
   */
  function ShownExponent(raw: nat, exponentBits: nat): (exponent: int)
    requires exponentBits >= 1
  {
    var exponent := raw - Bias(exponentBits);
    if exponent == -Bias(exponentBits) then exponent + 1 else exponent
  }

  /**
   * For a raw exponent field of `exponentBits` bits the shown exponent is
   * `raw - bias` for normal numbers and `1 - bias` for zero and subnormals, and
   * lies in `[1 - bias, bias + 1]`.
   */
  lemma ShownExponentRange(raw: nat, exponentBits: nat)
    requires exponentBits >= 1 && raw < Pow2(exponentBits)
    ensures raw == 0 ==> ShownExponent(raw, exponentBits) == 1 - Bias(exponentBits)
    ensures raw != 0 ==> ShownExponent(raw, exponentBits) == raw - Bias(exponentBits)
    ensures 1 - Bias(exponentBits) <= ShownExponent(raw, exponentBits) <= Bias(exponentBits) + 1
  {
    assert Pow2(exponentBits) == 2 * Pow2(exponentBits - 1);
  }

  /** A field whose bits are all zero holds zero. */
  lemma {:induction false} ZeroFieldValue(s: seq<bv8>, start: nat, len: nat)
    requires start + len <= 8 * |s|
    requires forall i :: start <= i < start + len ==> BitAt(s, i) == 0
    ensures FieldValue(s, start, len) == 0
  {
    if len > 0 {
      ZeroFieldValue(s, start, len - 1);
    }
  }

  /**
   * The smallest positive binary32 subnormal, `0x00000001`, stored little-endian:
   * a zero exponent field, the exponent shown as `1 - 127 = -126`, and only
   * the last fraction bit set.
   */
  lemma SmallestSubnormal(s: seq<bv8>)
    requires s == [1, 0, 0, 0]
    ensures BitAt(s, 0) == 0
    ensures FieldValue(s, 1, 8) == 0 && ShownExponent(FieldValue(s, 1, 8), 8) == -126
    ensures BitAt(s, 31) == 1 && forall i :: 0 <= i < 31 ==> BitAt(s, i) == 0
  {
    forall i | 0 <= i < 31
      ensures BitAt(s, i) == 0
    {
      if i < 24 {
        assert ByteIndex(4, i) >= 1;
      } else {
        assert ByteIndex(4, i) == 0 && 1 <= BitShift(i) < 8;
      }
    }
    ZeroFieldValue(s, 1, 8);
    assert Pow2(7) == 128;
  }
}
