/**
 * One inspector instance (one call of `load`): the byte view of a float of
 * 2, 4 or 8 bytes, edited in place by the bit grid and the hex field, and the
 * integer side of `render`, which decomposes it into sign, exponent and a
 * masked copy whose reinterpretation is `1.fraction`.
 */
module Inspector {
  import opened Seqs
  import opened Bits
  import opened Hex

  /**
   * What `render` derives from the bytes, short of floating point: the sign,
   * the exponent it shows, whether the subnormal fix-up applied, and the copy
   * of the bytes that the source reinterprets as the fraction value.
   */
  datatype Fields = Fields(negative: bool, exponent: int, subnormal: bool, fractionBytes: seq<bv8>)

  /**
   * `copy` is `s` with the sign cleared and the exponent field set to `0 1 ... 1`,
   * i.e. to the bias, and with every fraction bit kept.
   */
  ghost predicate IsFractionCopy(s: seq<bv8>, exponentBits: nat, copy: seq<bv8>)
    requires exponentBits + 1 < 8 * |s|
  {
    && |copy| == |s|
    && BitAt(copy, 0) == 0
    && BitAt(copy, 1) == 0
    && (forall i :: 2 <= i <= exponentBits ==> BitAt(copy, i) == 1)
    && (forall i :: exponentBits < i < 8 * |s| ==> BitAt(copy, i) == BitAt(s, i))
  }

  /**
   * What the fraction loop of `render` has done after `i` passes over a copy of
   * `s`: display bit 1 cleared, display bits `2 .. i` set, every other bit kept.
   */
  ghost predicate MaskedUpTo(s: seq<bv8>, copy: seq<bv8>, i: nat)
    requires i < 8 * |s|
  {
    && |copy| == |s|
    && BitAt(copy, 0) == BitAt(s, 0)
    && (forall k :: 1 <= k <= i ==> BitAt(copy, k) == if k == 1 then 0 else 1)
    && (forall k :: i < k < 8 * |s| ==> BitAt(copy, k) == BitAt(s, k))
  }

  /** One pass of the fraction loop: pass `i` paints display bit `1 + i`, with 0 on the first pass and 1 after. */
  lemma MaskStep(s: seq<bv8>, copy: seq<bv8>, i: nat)
    requires i + 2 < 8 * |s| && MaskedUpTo(s, copy, i)
    ensures MaskedUpTo(s, PaintBit(copy, 1 + i, if i == 0 then 0 else 1), i + 1)
  {
    PaintBitEffect(copy, 1 + i, if i == 0 then 0 else 1);
  }

  /** Clearing the sign after the loop leaves the fraction copy, whose exponent field holds the bias. */
  lemma SignStep(s: seq<bv8>, masked: seq<bv8>, exponentBits: nat)
    requires 1 <= exponentBits && exponentBits + 1 < 8 * |s| && MaskedUpTo(s, masked, exponentBits)
    ensures IsFractionCopy(s, exponentBits, PaintBit(masked, 0, 0))
    ensures FieldValue(PaintBit(masked, 0, 0), 1, exponentBits) == Bias(exponentBits)
  {
    var copy := PaintBit(masked, 0, 0);
    PaintBitEffect(masked, 0, 0);
    BiasPatternValue(copy, 1, exponentBits);
  }

  /** A sequence that agrees with `before` outside `[offset, offset + |middle|)` and holds `middle` inside it. */
  lemma Spliced(before: seq<bv8>, after: seq<bv8>, offset: nat, middle: seq<bv8>)
    requires |after| == |before| && offset + |middle| <= |before|
    requires forall k :: 0 <= k < offset ==> after[k] == before[k]
    requires forall k :: 0 <= k < |middle| ==> after[offset + k] == middle[k]
    requires forall k :: offset + |middle| <= k < |before| ==> after[k] == before[k]
    ensures after == before[..offset] + middle + before[offset + |middle|..]
  {
  }

  /** A fraction copy holds the bias in its exponent field and is the only buffer that does all of the above. */
  lemma FractionCopyFacts(s: seq<bv8>, exponentBits: nat, copy: seq<bv8>, other: seq<bv8>)
    requires 1 <= exponentBits && exponentBits + 1 < 8 * |s|
    requires IsFractionCopy(s, exponentBits, copy) && IsFractionCopy(s, exponentBits, other)
    ensures FieldValue(copy, 1, exponentBits) == Bias(exponentBits)
    ensures copy == other
  {
    BiasPatternValue(copy, 1, exponentBits);
    forall i | 0 <= i < 8 * |copy|
      ensures BitAt(copy, i) == BitAt(other, i)
    {
    }
    BitsDetermineBytes(copy, other);
  }

  /**
   * The buffer the hex handler leaves behind: zeros, then the decoded bytes in
   * reverse order. Read back to front and printed, it is the typed text
   * upper-cased and padded with `'0'` to two digits per byte.
   */
  lemma PlacedHexView(text: string, values: seq<int>, byteLength: nat, placed: seq<bv8>)
    requires IsHexText(text) && values == DecodeHex(PadEven(text)) && |values| <= byteLength
    requires placed == Repeat(0, byteLength)[..byteLength - |values|] + Bytes(Reverse(values)) + Repeat(0, byteLength)[byteLength..]
    ensures |PadEven(text)| <= 2 * byteLength
    ensures ToHexString(Reverse(placed)) == UpperHex(PadEven(text)) + Repeat('0', 2 * byteLength - |PadEven(text)|)
  {
    var offset := byteLength - |values|;
    ZeroFilled(byteLength, offset, Bytes(Reverse(values)));
    ReverseOfPlaced(values, offset, placed);
    PrintedValues(text, values, offset);
  }

  /** Writing `middle` at `offset` into `n` zeros that it reaches the end of leaves zeros, then `middle`. */
  lemma ZeroFilled(n: nat, offset: nat, middle: seq<bv8>)
    requires offset + |middle| == n
    ensures Repeat(0, n)[..offset] + middle + Repeat(0, n)[n..] == Repeat(0, offset) + middle
  {
    assert Repeat(0 as bv8, n)[..offset] == Repeat(0, offset);
    assert Repeat(0 as bv8, n)[n..] == [];
  }

  /** The decoded values followed by zero bytes print as the text upper-cased, then `'0'` digits. */
  lemma PrintedValues(text: string, values: seq<int>, offset: nat)
    requires IsHexText(text) && values == DecodeHex(PadEven(text))
    ensures |PadEven(text)| == 2 * |values|
    ensures ToHexString(Bytes(values) + Repeat(0, offset)) == UpperHex(PadEven(text)) + Repeat('0', 2 * offset)
  {
    ToHexStringAppend(Bytes(values), Repeat(0, offset));
    HexReencode(PadEven(text));
    ToHexStringZeros(offset);
  }

  /** Zeros followed by the reversed values, read back to front, are the values followed by zeros. */
  lemma ReverseOfPlaced(values: seq<int>, offset: nat, placed: seq<bv8>)
    requires forall j :: 0 <= j < |values| ==> 0 <= values[j] < 256
    requires placed == Repeat(0, offset) + Bytes(Reverse(values))
    ensures Reverse(placed) == Bytes(values) + Repeat(0, offset)
  {
    var n := |placed|;
    forall k | 0 <= k < n
      ensures Reverse(placed)[k] == (Bytes(values) + Repeat(0, offset))[k]
    {
      if k < |values| {
        assert placed[n - 1 - k] == Bytes(Reverse(values))[|values| - 1 - k];
      }
    }
  }

  /**
   * What the exponent loop of `render` has added up after `i` passes: bit
   * `1 + k` shifted left by `len - k - 1`, for each `k < i`.
   */
  function Accumulated(s: seq<bv8>, i: nat, len: nat): nat
    requires i <= len && 1 + len <= 8 * |s|
  {
    if i == 0 then 0 else Accumulated(s, i - 1, len) + BitAt(s, i) * Pow2(len - i)
  }

  /** After `i` passes the sum is the first `i` bits of the field, scaled up to `len` bits. */
  lemma {:induction false} AccumulatedPrefix(s: seq<bv8>, i: nat, len: nat)
    requires i <= len && 1 + len <= 8 * |s|
    ensures Accumulated(s, i, len) == FieldValue(s, 1, i) * Pow2(len - i)
  {
    if i > 0 {
      AccumulatedPrefix(s, i - 1, len);
      var low := Pow2(len - i);
      assert Pow2(len - (i - 1)) == 2 * low;
      assert FieldValue(s, 1, i) == 2 * FieldValue(s, 1, i - 1) + BitAt(s, i);
      ShiftIn(FieldValue(s, 1, i - 1), BitAt(s, i), low);
    }
  }

  /** Appending a bit below a field scaled by `2 * low` gives the longer field scaled by `low`. */
  lemma ShiftIn(high: nat, bit: nat, low: nat)
    ensures high * (2 * low) + bit * low == (2 * high + bit) * low
  {
  }

  /** The loop reads the exponent field most significant bit first. */
  lemma ExponentFieldValue(s: seq<bv8>, len: nat)
    requires 1 + len <= 8 * |s|
    ensures Accumulated(s, len, len) == FieldValue(s, 1, len) < Pow2(len)
  {
    AccumulatedPrefix(s, len, len);
    FieldValueBound(s, 1, len);
  }

  /** Every bit cell on the page has a `data-index` below 64, the bit count of the binary64 grid. */
  const CellCount := 64

  /** `toHexString` of the reversed buffer prints the last byte first. */
  lemma ReversedHexAt(b: seq<bv8>)
    ensures forall k :: 0 <= k < |b| ==>
      ToHexString(Reverse(b))[2 * k] == ByteHex(b[|b| - 1 - k])[0] && ToHexString(Reverse(b))[2 * k + 1] == ByteHex(b[|b| - 1 - k])[1]
  {
    forall k | 0 <= k < |b|
      ensures ToHexString(Reverse(b))[2 * k] == ByteHex(b[|b| - 1 - k])[0]
      ensures ToHexString(Reverse(b))[2 * k + 1] == ByteHex(b[|b| - 1 - k])[1]
    {
      ReversedHexDigits(b, Reverse(b), k);
    }
  }

  lemma ReversedHexDigits(b: seq<bv8>, r: seq<bv8>, k: nat)
    requires k < |r| && |b| == |r| && r[k] == b[|b| - 1 - k]
    ensures ToHexString(r)[2 * k] == ByteHex(b[|b| - 1 - k])[0]
    ensures ToHexString(r)[2 * k + 1] == ByteHex(b[|b| - 1 - k])[1]
  {
    ToHexStringAt(r, k, 0);
    ToHexStringAt(r, k, 1);
  }

  class FloatInspector {
    const exponentBits: nat
    /** The `Uint8Array` view of the float's buffer: fixed length, updated in place. */
    const bytes: array<bv8>

    predicate Valid() {
      ValidLayout(bytes.Length, exponentBits)
    }

    /** `load` seeds the buffer with the bytes of an initial value. */
    constructor (seed: seq<bv8>, exponentBits: nat)
      requires ValidLayout(|seed|, exponentBits)
      ensures Valid() && fresh(bytes)
      ensures bytes[..] == seed && this.exponentBits == exponentBits
    {
      this.exponentBits := exponentBits;
      bytes := new bv8[|seed|](j requires 0 <= j < |seed| => seed[j]);
    }

    /** The hex field as `render` refreshes it: `toHexString(bytes.slice().reverse())`. */
    function HexView(): (hex: string)
      reads bytes
      ensures |hex| == 2 * bytes.Length
    {
      ToHexString(Reverse(bytes[..]))
    }

    /**
     * The mouse-down handler: flips the clicked bit and returns the value it now
     * has, which the following drag paints onto every bit it crosses.
     */
    method Toggle(index: nat) returns (mouseDownValue: nat)
      requires Valid() && index < 8 * bytes.Length
      modifies bytes
      ensures bytes[..] == ToggleBit(old(bytes[..]), index)
      ensures mouseDownValue == 1 - BitAt(old(bytes[..]), index)
      ensures mouseDownValue == BitAt(bytes[..], index)
    {
      ghost var before := bytes[..];
      var byteIndex := ByteIndex(bytes.Length, index);
      var byteMask := Mask(index);
      MaskTestReadsBit(before, index);
      mouseDownValue := if bytes[byteIndex] & byteMask != 0 then 0 else 1;
      bytes[byteIndex] := FlipByte(bytes[byteIndex], byteMask);
      assert bytes[..] == ToggleBit(before, index);
      ToggleBitEffect(before, index);
    }

    /**
     * The mouse-move handler during a drag: forces the bit under the cursor to
     * the captured value. The handler is installed on the whole document, so the
     * cursor may be over a cell of any of the page's grids: a cell index below
     * this buffer's bit count paints that bit here, and a larger one gives a
     * negative byte index, whose write the typed array drops.
     */
    method Paint(index: nat, mouseDownValue: nat)
      requires Valid() && index < CellCount && mouseDownValue <= 1
      modifies bytes
      ensures index < 8 * bytes.Length ==> bytes[..] == PaintBit(old(bytes[..]), index, mouseDownValue)
      ensures index < 8 * bytes.Length ==> BitAt(bytes[..], index) == mouseDownValue
      ensures index < 8 * bytes.Length ==>
        forall i :: 0 <= i < 8 * bytes.Length && i != index ==> BitAt(bytes[..], i) == BitAt(old(bytes[..]), i)
      ensures index >= 8 * bytes.Length ==> bytes[..] == old(bytes[..])
    {
      var byteIndex: int := bytes.Length - index / 8 - 1;
      if byteIndex < 0 {
        return;
      }
      ghost var before := bytes[..];
      assert byteIndex == ByteIndex(bytes.Length, index);
      var byteMask := Mask(index);
      var paint: bv8 := if mouseDownValue == 0 then 0 else byteMask;
      bytes[byteIndex] := ForceByte(bytes[byteIndex], byteMask, paint);
      assert bytes[..] == PaintBit(before, index, mouseDownValue);
      PaintBitEffect(before, index, mouseDownValue);
    }

    /** `bytes.fill(0)` */
    method Fill0()
      requires Valid()
      modifies bytes
      ensures bytes[..] == Repeat(0, bytes.Length)
    {
      var j := 0;
      while j < bytes.Length
        invariant 0 <= j <= bytes.Length
        invariant forall k :: 0 <= k < j ==> bytes[k] == 0
      {
        bytes[j] := 0;
        j := j + 1;
      }
    }

    /** `bytes.set(values, offset)` for values already in `[0, 255]`. */
    method SetValues(values: seq<int>, offset: nat)
      requires Valid() && offset + |values| <= bytes.Length
      requires forall j :: 0 <= j < |values| ==> 0 <= values[j] < 256
      modifies bytes
      ensures bytes[..] == old(bytes[..])[..offset] + Bytes(values) + old(bytes[..])[offset + |values|..]
    {
      var j := 0;
      while j < |values|
        invariant 0 <= j <= |values|
        invariant forall k :: 0 <= k < offset ==> bytes[k] == old(bytes[k])
        invariant forall k :: 0 <= k < j ==> bytes[offset + k] == ToUint8(values[k])
        invariant forall k :: offset + |values| <= k < bytes.Length ==> bytes[k] == old(bytes[k])
      {
        bytes[offset + j] := ToUint8(values[j]);
        j := j + 1;
      }
      Spliced(old(bytes[..]), bytes[..], offset, Bytes(values));
    }

    /**
     * The hex field's input handler. Text longer than two digits per byte, or
     * with a character outside the hex alphabet, is refused: the field drops its
     * last character and the bytes stay as they were. Otherwise the decoded
     * bytes, reversed, are written at the end of the zero-filled buffer, so the
     * hex view then reads the typed digits upper-cased and padded with `'0'`.
     */
    method SetFromHex(text: string) returns (shown: string, accepted: bool)
      requires Valid()
      modifies bytes
      ensures accepted <==> |text| <= 2 * bytes.Length && IsHexText(text)
      ensures !accepted ==> |text| >= 1 && shown == text[..|text| - 1] && bytes[..] == old(bytes[..])
      ensures accepted ==> shown == text && |PadEven(text)| <= 2 * bytes.Length
      ensures accepted ==> HexView() == UpperHex(PadEven(text)) + Repeat('0', 2 * bytes.Length - |PadEven(text)|)
    {
      var hexLength := bytes.Length;
      var validHexCharas := IsHexText(text);
      if |text| > hexLength * 2 || !validHexCharas {
        shown, accepted := text[..|text| - 1], false;
        return;
      }
      shown, accepted := text, true;
      Load(text);
    }

    /** The accepted branch of the hex handler: decode, zero-fill, and write the reversed bytes at the end. */
    method Load(text: string)
      requires Valid() && IsHexText(text) && |text| <= 2 * bytes.Length
      modifies bytes
      ensures |PadEven(text)| <= 2 * bytes.Length
      ensures HexView() == UpperHex(PadEven(text)) + Repeat('0', 2 * bytes.Length - |PadEven(text)|)
    {
      var hexLength := bytes.Length;
      var tmpBytes := ToByteArray(text);
      var reversed := Reverse(tmpBytes);
      var offset := hexLength - |tmpBytes|;
      Fill0();
      SetValues(reversed, offset);
      PlacedHexView(text, tmpBytes, hexLength, bytes[..]);
    }

    /**
     * The exponent loop of `render`: accumulates `bit << (exponentBits - i - 1)`
     * over display bits `1 .. exponentBits`, i.e. reads the raw exponent field
     * most significant bit first.
     */
    method ExponentField() returns (exponent: nat)
      requires Valid()
      ensures exponent == FieldValue(bytes[..], 1, exponentBits)
      ensures exponent < Pow2(exponentBits)
    {
      exponent := 0;
      for i := 0 to exponentBits
        invariant exponent == Accumulated(bytes[..], i, exponentBits)
      {
        var index := 1 + i;
        var bit := BitAt(bytes[..], index);
        exponent := exponent + bit * Pow2(exponentBits - i - 1);
      }
      ExponentFieldValue(bytes[..], exponentBits);
    }

    /** The fraction loop of `render` on the copy `a`: clear display bit 1, set display bits `2 .. exponentBits`. */
    static method MaskExponent(a: array<bv8>, exponentBits: nat)
      requires exponentBits + 1 < 8 * a.Length
      modifies a
      ensures MaskedUpTo(old(a[..]), a[..], exponentBits)
    {
      ghost var original := a[..];
      var i := 0;
      while i < exponentBits
        invariant 0 <= i <= exponentBits
        invariant MaskedUpTo(original, a[..], i)
      {
        ghost var before := a[..];
        var index := 1 + i;
        var byteIndex := ByteIndex(a.Length, index);
        var byteMask := Mask(index);
        a[byteIndex] := ForceByte(a[byteIndex], byteMask, if i == 0 then 0 else byteMask);
        assert a[..] == PaintBit(before, index, if i == 0 then 0 else 1);
        MaskStep(original, before, i);
        i := i + 1;
      }
    }

    /**
     * The fraction loop of `render`: a copy of the bytes whose first exponent
     * bit is cleared and whose other exponent bits are set, then whose sign is
     * read and cleared. The bytes themselves are not changed.
     */
    method FractionCopy() returns (copy: seq<bv8>, negative: bool)
      requires Valid()
      ensures IsFractionCopy(bytes[..], exponentBits, copy)
      ensures FieldValue(copy, 1, exponentBits) == Bias(exponentBits)
      ensures negative <==> BitAt(bytes[..], 0) == 1
    {
      var copyBytes := new bv8[bytes.Length](j requires 0 <= j < bytes.Length reads bytes => bytes[j]);
      assert copyBytes[..] == bytes[..];
      MaskExponent(copyBytes, exponentBits);
      ghost var masked := copyBytes[..];
      var signIndex := bytes.Length - 1;
      var signMask: bv8 := 0x80;
      SignBitAddress(masked);
      negative := copyBytes[signIndex] & signMask != 0;
      copyBytes[signIndex] := ForceByte(copyBytes[signIndex], signMask, 0);
      assert copyBytes[..] == PaintBit(masked, 0, 0);
      SignStep(bytes[..], masked, exponentBits);
      copy := copyBytes[..];
    }

    /**
     * The integer part of `render`: exponent minus bias, bumped by one for a
     * zero exponent field, with the sign and the fraction copy.
     */
    method Decompose() returns (fields: Fields)
      requires Valid()
      ensures var raw := FieldValue(bytes[..], 1, exponentBits);
        && fields.subnormal == (raw == 0)
        && fields.exponent == (if raw == 0 then 1 - Bias(exponentBits) else raw - Bias(exponentBits))
        && fields.exponent == ShownExponent(raw, exponentBits)
      ensures 1 - Bias(exponentBits) <= fields.exponent <= Bias(exponentBits) + 1
      ensures fields.negative <==> BitAt(bytes[..], 0) == 1
      ensures IsFractionCopy(bytes[..], exponentBits, fields.fractionBytes)
    {
      var exponent: int := ExponentField();
      ghost var raw := exponent;
      var exponentBias := Bias(exponentBits);
      exponent := exponent - exponentBias;
      var copy, negative := FractionCopy();
      var subnormal := exponent == -exponentBias;
      if subnormal {
        exponent := exponent + 1;
      }
      fields := Fields(negative, exponent, subnormal, copy);
      ShownExponentRange(raw, exponentBits);
    }
  }
}
