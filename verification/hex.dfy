/**
 * The hexadecimal codec: `toHexString` (a map/join over bytes, two upper-case
 * digits per byte) and `toByteArray` (pads odd input with a `'0'` nibble and
 * parses two digits at a time).
 */
module Hex {
  import opened Seqs

  /** The characters the hex field accepts, `'0123456789abcdefABCDEF'`. */
  const Alphabet: string := "0123456789abcdefABCDEF"

  predicate IsHexChar(c: char) {
    '0' <= c <= '9' || 'a' <= c <= 'f' || 'A' <= c <= 'F'
  }

  /** `hexAlphabet.split('').lastIndexOf(c) !== -1` holds exactly for the hex digits. */
  lemma AlphabetIsHexChars(c: char)
    ensures c in Alphabet <==> IsHexChar(c)
  {
    if IsHexChar(c) {
      HexCharInAlphabet(c);
    } else {
      OnlyHexCharsInAlphabet();
    }
  }

  lemma HexCharInAlphabet(c: char)
    requires IsHexChar(c)
    ensures c in Alphabet
  {
    var k := if c <= '9' then c as int - '0' as int
             else if c <= 'F' then c as int - 'A' as int + 16
             else c as int - 'a' as int + 10;
    assert Alphabet[k] == c;
  }

  lemma OnlyHexCharsInAlphabet()
    ensures forall k :: 0 <= k < |Alphabet| ==> IsHexChar(Alphabet[k])
  {
  }

  /** Every character of the text is a hex digit (the `every` check of the hex field). */
  predicate IsHexText(t: string) {
    forall k :: 0 <= k < |t| ==> IsHexChar(t[k])
  }

  /** A digit of `toString(16).toUpperCase()`. */
  predicate IsUpperHexChar(c: char) {
    '0' <= c <= '9' || 'A' <= c <= 'F'
  }

  /** The value of one hex digit, either case, as `parseInt(_, 16)` reads it. */
  function HexValue(c: char): (v: nat)
    requires IsHexChar(c)
    ensures v < 16
  {
    if '0' <= c <= '9' then c as int - '0' as int
    else if 'a' <= c <= 'f' then c as int - 'a' as int + 10
    else c as int - 'A' as int + 10
  }

  /** The upper-case digit for a value below 16. */
  function HexDigit(v: nat): (c: char)
    requires v < 16
    ensures IsUpperHexChar(c)
  {
    if v < 10 then ('0' as int + v) as char else ('A' as int + v - 10) as char
  }

  /** `byte.toString(16).toUpperCase()`: no leading zero. */
  function Base16(b: nat): (digits: string)
    requires b < 256
    ensures |digits| == (if b < 16 then 1 else 2)
    ensures forall k :: 0 <= k < |digits| ==> IsUpperHexChar(digits[k])
  {
    if b < 16 then [HexDigit(b)] else [HexDigit(b / 16), HexDigit(b % 16)]
  }

  /**
   * JavaScript's `s.slice(-n)`: the last `n` characters, or all of `s` when it
   * is shorter; `-0` is start index 0, so `n == 0` also keeps all of `s`.
   */
  function SliceLast(s: string, n: nat): (r: string)
    ensures |r| == if n == 0 || |s| < n then |s| else n
    ensures s == s[..|s| - |r|] + r
  {
    if n == 0 || |s| < n then s else s[|s| - n..]
  }

  /**
   * The value of a byte below 16. These two tables stand in for `x as int` and
   * `n as bv8`: the solver handles the symbolic bit-vector conversions poorly.
   */
  function NibbleValue(x: bv8): (n: nat)
    requires x < 16
    ensures n < 16
  {
    if x < 8 then
      if x < 4 then (if x < 2 then (if x == 0 then 0 else 1) else (if x == 2 then 2 else 3))
      else (if x < 6 then (if x == 4 then 4 else 5) else (if x == 6 then 6 else 7))
    else
      if x < 12 then (if x < 10 then (if x == 8 then 8 else 9) else (if x == 10 then 10 else 11))
      else (if x < 14 then (if x == 12 then 12 else 13) else (if x == 14 then 14 else 15))
  }

  /** The byte holding a value below 16. */
  function NibbleByte(n: nat): (x: bv8)
    requires n < 16
    ensures x < 16
  {
    if n < 8 then
      if n < 4 then (if n < 2 then (if n == 0 then 0 else 1) else (if n == 2 then 2 else 3))
      else (if n < 6 then (if n == 4 then 4 else 5) else (if n == 6 then 6 else 7))
    else
      if n < 12 then (if n < 10 then (if n == 8 then 8 else 9) else (if n == 10 then 10 else 11))
      else (if n < 14 then (if n == 12 then 12 else 13) else (if n == 14 then 14 else 15))
  }

  /**
   * The two digits `toHexString` prints for a byte, its high then its low
   * nibble; `ByteHexIsPadSlice` shows this is what the pad-and-slice of
   * `toString(16)` yields.
   */
  function ByteHex(b: bv8): (hex: string)
    ensures |hex| == 2 && IsUpperHexChar(hex[0]) && IsUpperHexChar(hex[1])
  {
    [HexDigit(NibbleValue(b >> 4)), HexDigit(NibbleValue(b & 15))]
  }

  /** `toHexString`: the bytes in the given order, two digits each, joined. */
  function ToHexString(bytes: seq<bv8>): (hex: string)
    ensures |hex| == 2 * |bytes|
    ensures forall k :: 0 <= k < |hex| ==> IsUpperHexChar(hex[k])
  {
    if bytes == [] then "" else ByteHex(bytes[0]) + ToHexString(bytes[1..])
  }

  /** `hexString.length % 2 == 1 ? hexString + '0' : hexString` */
  function PadEven(t: string): (padded: string)
    ensures |padded| % 2 == 0 && |t| <= |padded| <= |t| + 1
  {
    if |t| % 2 == 1 then t + "0" else t
  }

  /** Padding keeps the text and adds a `'0'` nibble only to odd-length text. */
  lemma PadEvenContents(t: string)
    ensures PadEven(t)[..|t|] == t
    ensures |PadEven(t)| == |t| + 1 <==> |t| % 2 == 1
    ensures |PadEven(t)| > |t| ==> PadEven(t)[|t|] == '0'
  {
  }

  /** `parseInt(pair, 16)` for a two-digit pair. */
  function ParsePair(pair: string): (v: nat)
    requires |pair| == 2 && IsHexText(pair)
    ensures v < 256
  {
    16 * HexValue(pair[0]) + HexValue(pair[1])
  }

  /** The bytes `toByteArray` produces from an even-length hex text: one per digit pair. */
  function DecodeHex(t: string): (values: seq<int>)
    requires |t| % 2 == 0 && IsHexText(t)
    ensures |values| == |t| / 2
    ensures forall j :: 0 <= j < |values| ==> 0 <= values[j] < 256
  {
    seq(|t| / 2, j requires 0 <= j < |t| / 2 => ParsePair(t[2 * j..2 * j + 2]))
  }

  /** `toByteArray`. Its one caller has already checked that every character is a hex digit. */
  method ToByteArray(hexString: string) returns (result: seq<int>)
    requires IsHexText(hexString)
    ensures result == DecodeHex(PadEven(hexString))
    ensures |result| == (|hexString| + 1) / 2
    ensures forall j :: 0 <= j < |result| ==> 0 <= result[j] < 256
  {
    var text := hexString;
    if |text| % 2 == 1 {
      text := text + "0";
    }
    result := [];
    var i := 0;
    while i < |text|
      invariant 0 <= i <= |text| && i % 2 == 0
      invariant |result| == i / 2
      invariant forall j :: 0 <= j < i / 2 ==> result[j] == ParsePair(text[2 * j..2 * j + 2])
    {
      result := result + [ParsePair(text[i..i + 2])];
      i := i + 2;
    }
  }

  /** The integer values of a byte sequence. */
  function Values(bytes: seq<bv8>): (values: seq<int>)
    ensures |values| == |bytes|
  {
    seq(|bytes|, j requires 0 <= j < |bytes| => bytes[j] as int)
  }

  /**
   * The byte `Uint8Array.prototype.set` stores for a value already in `[0, 255]`,
   * assembled from its high and its low nibble.
   */
  function ToUint8(v: int): bv8
    requires 0 <= v < 256
  {
    (NibbleByte(v / 16) << 4) | NibbleByte(v % 16)
  }

  /** The bytes `Uint8Array.prototype.set` stores for values already in `[0, 255]`. */
  function Bytes(values: seq<int>): (bytes: seq<bv8>)
    requires forall j :: 0 <= j < |values| ==> 0 <= values[j] < 256
    ensures |bytes| == |values|
  {
    seq(|values|, j requires 0 <= j < |values| => ToUint8(values[j]))
  }

  /** The hex text with `a`-`f` upper-cased. */
  function UpperHex(t: string): (u: string)
    ensures |u| == |t|
  {
    seq(|t|, k requires 0 <= k < |t| => UpperChar(t[k]))
  }

  /** `toUpperCase` on a single hex digit. */
  function UpperChar(c: char): (u: char)
    ensures IsHexChar(c) ==> IsUpperHexChar(u) && HexValue(u) == HexValue(c)
    ensures IsUpperHexChar(c) ==> u == c
  {
    if 'a' <= c <= 'f' then (c as int - 32) as char else c
  }

  lemma HexDigitValue(v: nat)
    requires v < 16
    ensures HexValue(HexDigit(v)) == v
  {
  }

  /** Printing the value of a digit gives the digit upper-cased. */
  lemma DigitOfValue(c: char)
    requires IsHexChar(c)
    ensures HexDigit(HexValue(c)) == UpperChar(c)
  {
  }

  lemma PairDigits(high: nat, low: nat)
    requires high < 16 && low < 16
    ensures (16 * high + low) / 16 == high && (16 * high + low) % 16 == low
  {
  }

  lemma NibbleValueOfByte(n: nat)
    requires n < 16
    ensures NibbleValue(NibbleByte(n)) == n
  {
  }

  lemma NibbleValueIsValue(x: bv8)
    requires x < 16
    ensures NibbleValue(x) == x as int
  {
  }

  /** Shifting right by four and masking with 15 read the two nibbles of a byte. */
  lemma NibbleSplit(b: bv8)
    ensures (b >> 4) as int == b as int / 16 && (b & 15) as int == b as int % 16
  {
  }

  lemma JoinNibbles(high: bv8, low: bv8)
    requires high < 16 && low < 16
    ensures ((high << 4) | low) >> 4 == high && ((high << 4) | low) & 15 == low
  {
  }

  /** The nibbles `ByteHex` prints are the high and the low digit of the byte's value. */
  lemma NibblesOfByte(b: bv8)
    ensures NibbleValue(b >> 4) == b as int / 16 && NibbleValue(b & 15) == b as int % 16
  {
    NibbleSplit(b);
    NibbleValueIsValue(b >> 4);
    NibbleValueIsValue(b & 15);
  }

  /** The stored byte's nibbles are the high and the low digit of the value. */
  lemma NibblesOfValue(v: int)
    requires 0 <= v < 256
    ensures NibbleValue(ToUint8(v) >> 4) == v / 16 && NibbleValue(ToUint8(v) & 15) == v % 16
  {
    JoinNibbles(NibbleByte(v / 16), NibbleByte(v % 16));
    NibbleValueOfByte(v / 16);
    NibbleValueOfByte(v % 16);
  }

  /** A value in `[0, 255]` is stored as the byte with that value. */
  lemma ByteOfValue(v: int)
    requires 0 <= v < 256
    ensures ToUint8(v) as int == v
  {
    NibblesOfValue(v);
    NibblesOfByte(ToUint8(v));
  }

  /** Padding with `'0'` and keeping the last two characters always gives the high and the low digit. */
  lemma PadSliceDigits(v: nat)
    requires v < 256
    ensures SliceLast("0" + Base16(v), 2) == [HexDigit(v / 16), HexDigit(v % 16)]
  {
    var digits := Base16(v);
    if v < 16 {
      assert SliceLast("0" + digits, 2) == "0" + digits;
    } else {
      assert ("0" + digits)[1..] == digits;
    }
  }

  /** `ByteHex` is `('0' + byte.toString(16).toUpperCase()).slice(-2)`. */
  lemma ByteHexIsPadSlice(b: bv8)
    ensures ByteHex(b) == SliceLast("0" + Base16(b as int), 2)
  {
    NibblesOfByte(b);
    PadSliceDigits(b as int);
  }

  /** Digit `d` of byte `j` is character `2j + d` of `toHexString`. */
  lemma {:induction false} ToHexStringAt(bytes: seq<bv8>, j: nat, d: nat)
    requires j < |bytes| && d < 2
    ensures ToHexString(bytes)[2 * j + d] == ByteHex(bytes[j])[d]
  {
    if j > 0 {
      ToHexStringAt(bytes[1..], j - 1, d);
      assert bytes[1..][j - 1] == bytes[j];
    }
  }

  /** `toByteArray(toHexString(b))` gives back the values of `b`. */
  lemma HexRoundTrip(bytes: seq<bv8>)
    ensures IsHexText(ToHexString(bytes))
    ensures PadEven(ToHexString(bytes)) == ToHexString(bytes)
    ensures DecodeHex(ToHexString(bytes)) == Values(bytes)
  {
    var hex := ToHexString(bytes);
    assert IsHexText(hex);
    forall j | 0 <= j < |bytes|
      ensures DecodeHex(hex)[j] == bytes[j] as int
    {
      ToHexStringAt(bytes, j, 0);
      ToHexStringAt(bytes, j, 1);
      ReadBackAt(hex, bytes[j], j);
    }
  }

  /** Digit pair `j` of a hex text that holds the two printed digits of `b` is read as `b`'s value. */
  lemma ReadBackAt(hex: string, b: bv8, j: nat)
    requires |hex| % 2 == 0 && IsHexText(hex) && j < |hex| / 2
    requires hex[2 * j] == ByteHex(b)[0] && hex[2 * j + 1] == ByteHex(b)[1]
    ensures DecodeHex(hex)[j] == b as int
  {
    DecodeAt(hex, j);
    ByteHexValue(b);
  }

  /** Pair `j` of the text is read as its high and its low digit. */
  lemma DecodeAt(t: string, j: nat)
    requires |t| % 2 == 0 && IsHexText(t) && j < |t| / 2
    ensures DecodeHex(t)[j] == 16 * HexValue(t[2 * j]) + HexValue(t[2 * j + 1])
  {
    var pair := t[2 * j..2 * j + 2];
    assert pair[0] == t[2 * j] && pair[1] == t[2 * j + 1];
  }

  /** Reading back the two printed digits of a byte gives its value. */
  lemma ByteHexValue(b: bv8)
    ensures 16 * HexValue(ByteHex(b)[0]) + HexValue(ByteHex(b)[1]) == b as int
  {
    NibblesOfByte(b);
    HexDigitValue(NibbleValue(b >> 4));
    HexDigitValue(NibbleValue(b & 15));
  }

  /** The byte stored for a value prints the value's high and low digit. */
  lemma StoredByteHex(v: int)
    requires 0 <= v < 256
    ensures ByteHex(ToUint8(v)) == [HexDigit(v / 16), HexDigit(v % 16)]
  {
    NibblesOfValue(v);
  }

  /** The value of a digit pair prints as the pair upper-cased. */
  lemma PrintedPair(high: char, low: char, v: nat)
    requires IsHexChar(high) && IsHexChar(low) && v == 16 * HexValue(high) + HexValue(low)
    ensures HexDigit(v / 16) == UpperChar(high) && HexDigit(v % 16) == UpperChar(low)
  {
    PairDigits(HexValue(high), HexValue(low));
    DigitOfValue(high);
    DigitOfValue(low);
  }

  /** The byte decoded from digit pair `j` prints as the pair upper-cased. */
  lemma DecodedPrintsPair(t: string, j: nat)
    requires |t| % 2 == 0 && IsHexText(t) && j < |t| / 2
    ensures ByteHex(Bytes(DecodeHex(t))[j]) == [UpperChar(t[2 * j]), UpperChar(t[2 * j + 1])]
  {
    var v := DecodeHex(t)[j];
    assert Bytes(DecodeHex(t))[j] == ToUint8(v);
    DecodeAt(t, j);
    StoredByteHex(v);
    PrintedPair(t[2 * j], t[2 * j + 1], v);
  }

  /** A byte that prints as digit pair `j` of the text puts those digits at `2j` and `2j + 1`. */
  lemma ReencodeAt(bytes: seq<bv8>, t: string, j: nat, d: nat)
    requires |t| == 2 * |bytes| && j < |bytes| && d < 2
    requires ByteHex(bytes[j]) == [UpperChar(t[2 * j]), UpperChar(t[2 * j + 1])]
    ensures ToHexString(bytes)[2 * j + d] == UpperChar(t[2 * j + d])
  {
    ToHexStringAt(bytes, j, d);
    PickDigit(t, j, d, ByteHex(bytes[j]));
  }

  /** Digit `d` of pair `j` of the text, upper-cased. */
  lemma PickDigit(t: string, j: nat, d: nat, pair: string)
    requires 2 * j + 1 < |t| && d < 2
    requires pair == [UpperChar(t[2 * j]), UpperChar(t[2 * j + 1])]
    ensures pair[d] == UpperChar(t[2 * j + d])
  {
    if d == 0 {
      assert t[2 * j + d] == t[2 * j];
    } else {
      assert t[2 * j + d] == t[2 * j + 1];
    }
  }

  /** Re-encoding the bytes decoded from an even-length hex text gives the text upper-cased. */
  lemma HexReencode(t: string)
    requires |t| % 2 == 0 && IsHexText(t)
    ensures ToHexString(Bytes(DecodeHex(t))) == UpperHex(t)
  {
    var values := DecodeHex(t);
    var bytes := Bytes(values);
    forall k | 0 <= k < |t|
      ensures ToHexString(bytes)[k] == UpperHex(t)[k]
    {
      var j, d := k / 2, k % 2;
      assert k == 2 * j + d;
      DecodedPrintsPair(t, j);
      ReencodeAt(bytes, t, j, d);
    }
  }

  /** `toHexString` distributes over concatenation. */
  lemma {:induction false} ToHexStringAppend(a: seq<bv8>, b: seq<bv8>)
    ensures ToHexString(a + b) == ToHexString(a) + ToHexString(b)
  {
    if a == [] {
      assert a + b == b;
    } else {
      assert (a + b)[0] == a[0];
      assert (a + b)[1..] == a[1..] + b;
      ToHexStringAppend(a[1..], b);
    }
  }

  /** Zero bytes print as `'0'` digits. */
  lemma {:induction false} ToHexStringZeros(count: nat)
    ensures ToHexString(Repeat(0, count)) == Repeat('0', 2 * count)
  {
    if count > 0 {
      assert Repeat(0 as bv8, count)[1..] == Repeat(0, count - 1);
      ToHexStringZeros(count - 1);
    }
  }
}
