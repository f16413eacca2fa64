# float-toy: a Dafny model of the inspector core

float-toy shows a binary16, binary32 or binary64 value three ways: as a grid of bits, as
a hexadecimal string and as the shortest decimal text that reads back as the same value.
Editing any one of them updates the other two. Each width is one call of `load` in
`src/script.js`. That call owns a `Uint8Array` view of the float's buffer, and every
edit changes those bytes in place. This project models the integer and string core of
one `load` instance and proves what it does.

- **Bit addressing** (`bits.dfy`, module `Bits`).
  - Display index `i` lives in byte `n - (i >> 3) - 1` under the mask
    `1 << (7 - (i & 7))`.
  - The buffer is little-endian, so display bit 0, the sign, is the `0x80` bit of the
    last byte.
  - The click handler flips one bit. The drag handler paints one bit with the value the
    click left. Both are modelled on byte sequences, and each is characterised bit by bit.
  - Fields are read most significant bit first. The bias is `2^(e-1) - 1`.
- **Hex codec** (`hex.dfy`, module `Hex`).
  - `toHexString` prints two upper-case digits per byte: it pads `toString(16)` with
    `'0'` and keeps the last two characters.
  - `toByteArray` pads odd-length text with a `'0'` nibble and parses two digits at a
    time.
  - Printing then decoding gives the bytes back. Decoding then printing gives the text
    upper-cased and padded to even length.
- **One inspector** (`inspector.dfy`, module `Inspector`). The class `FloatInspector`
  holds the byte buffer as an array that its methods update in place:
  - the mouse handlers. The drag handler is installed on the whole document, so it also
    receives the cell indices of the other grids on the page (all below 64). One below
    this buffer's bit count paints that bit of this buffer; a larger one gives a negative
    byte index, whose write the typed array drops, so the bytes stay as they were;
  - the hex input handler: validate, decode, `fill(0)`, then `set` the reversed bytes at
    the end;
  - the hex view `toHexString(bytes.slice().reverse())`;
  - the integer side of `render`: the exponent loop, the bias, the subnormal bump of the
    shown exponent, the sign, and the masked copy of the bytes whose reinterpretation
    the page shows as the fraction.
- **Decimal minimiser** (`decimal.dfy`, module `Decimal`). This is the string side of
  `reduceNumber`:
  - the special texts `NaN`, `Infinity` and `-Infinity`;
  - the split by `/^([+-]?\d+)((?:\.\d+)?)((?:[eE][+-]?\d+)?)$/`;
  - the digit-carry rounding of the fraction;
  - the loop that keeps dropping the last fraction digit, plain or rounded up, while the
    shorter text still reads back as the same value.
  - The floating-point parse and compare become a parameter `same: string -> bool`. The
    minimiser is proved for every such oracle.
- `seqs.dfy` (module `Seqs`) holds `Option`, `Reverse` and `Repeat`.

The hex handler writes the decoded bytes, reversed, at the END of the little-endian
buffer, the bytes the hex view prints first. So the typed digits become the leading
digits of the view and the bytes left zero are the low-order ones: after typing `3F` into
the binary32 field, the field shows `3F000000` once it loses focus (`render` leaves the
field's text alone while it has focus, and the blur handler re-renders it). Short input is therefore not left-padded as a number
would be (that would zero the high-order bytes and show `0000003F`); the model follows
the code (`Inspector.FloatInspector.Load`, `Inspector.PlacedHexView`).

The carry loop `while (i > 0)` never touches index 0 of the fraction, which holds the
`.`. An all-nines fraction therefore wraps to all zeros, and the carry into the whole
part is lost. The model keeps this behaviour as written (`IncrementValue`,
`CarryWraps`). The candidate it produces is still tested by the round-trip check before
it is accepted, so it can only be kept when it reads back as the same value.

## Model

| member | source | states |
|---|---|---|
| Bits.StandardLayouts | src/script.js:272-274 | the three instances (2 bytes/5 exponent bits, 4/8, 8/11) are valid layouts with biases 15, 127 and 1023 |
| Bits.ByteIndex | src/script.js:170 | the byte a display index addresses lies inside the buffer |
| Bits.Mask | src/script.js:171 | the byte mask; `Bits.MaskIsSingleBit` proves it has exactly one bit set |
| Bits.BitAt | src/script.js:196 | the bit shown at a display index is 0 or 1 |
| Bits.MaskIsSingleBit | src/script.js:171 | every byte mask has exactly one bit set |
| Bits.AddressInjective | src/script.js:170-171 | two different display indices never address the same bit of the same byte |
| Bits.MaskTestReadsBit | src/script.js:172 | testing the byte against the mask, as the click handler does, is true exactly when the shown bit is 1 |
| Bits.SignBitAddress | src/script.js:218-220 | display bit 0 is the 0x80 bit of the last byte, the bit `render` reads as the sign |
| Bits.Bias | src/script.js:206 | the bias `(1 << (e - 1)) - 1` is non-negative, and twice the bias plus two is `2^e`: the all-ones field `2^e - 1` is `2 * bias + 1` |
| Bits.BitsDetermineBytes | src/script.js:195-197 | two buffers of one width that show the same bits everywhere are equal |
| Bits.XorFlipsOneBit | src/script.js:173 | XOR with a single-bit mask flips that bit of the byte and keeps the other seven |
| Bits.FlipByte | src/script.js:173 | the byte XOR the mask; `Bits.XorFlipsOneBit` states that a single-bit mask flips exactly that bit |
| Bits.ForceByte | src/script.js:181 | the byte with the mask's bits cleared, then or-ed with the paint bits; `Bits.PaintForcesOneBit` states that it forces exactly the masked bit |
| Bits.ToggleBit | src/script.js:170-173 | the click edit `bytes[byteIndex] ^= byteMask`; its contract is `Bits.ToggleBitEffect` and `Bits.ToggleBitUnique` |
| Bits.ToggleBitEffect | src/script.js:170-173 | a click flips the addressed bit, keeps every other bit and the length |
| Bits.ToggleTwice | src/script.js:173 | clicking the same bit twice restores the buffer |
| Bits.ToggleBitUnique | src/script.js:173 | any buffer that differs from the old one in exactly the addressed bit is the toggled buffer |
| Bits.PaintForcesOneBit | src/script.js:181 | clear-then-or with a single-bit mask forces that bit of the byte and keeps the other seven |
| Bits.PaintBit | src/script.js:179-181 | the drag edit: clear the masked bit, then set it when the paint value is 1; its contract is `Bits.PaintBitEffect` |
| Bits.PaintBitEffect | src/script.js:179-181 | a drag step sets the addressed bit to the paint value and keeps every other bit and the length |
| Bits.PaintIdempotent | src/script.js:181 | painting the same bit with the same value twice is painting it once |
| Bits.PaintCurrentValue | src/script.js:172-181 | painting a bit with the value it already shows changes nothing |
| Bits.FieldValue | src/script.js:201-205 | a field read most significant bit first; `Bits.FieldValueBound`, `Bits.FieldValueFrame` and `Inspector.AccumulatedPrefix` state what it is |
| Bits.FieldValueBound | src/script.js:201-205 | an exponent field of `e` bits holds less than `2^e` |
| Bits.FieldValueFrame | src/script.js:201-205 | a field reads the same in two buffers that agree on its bits |
| Bits.BiasPatternValue | src/script.js:206-217 | the bit pattern `0 1 ... 1` that the fraction loop writes into the exponent field is the bias `2^(e-1) - 1` |
| Bits.ShownExponent | src/script.js:206-226 | the exponent `render` shows; its contract is `Bits.ShownExponentRange` |
| Bits.ShownExponentRange | src/script.js:206-226 | the shown exponent is `raw - bias` for a non-zero field and `1 - bias` for a zero field, and lies in `[1 - bias, bias + 1]` |
| Bits.ZeroFieldValue | src/script.js:201-205 | a field whose bits are all 0 holds 0 |
| Bits.SmallestSubnormal | src/script.js:199-226 | binary32 `0x00000001` has sign 0, a zero exponent field shown as -126, and only its last fraction bit set |
| Hex.IsHexText | src/script.js:150-152 | the `every` test: each character of the text is a hex digit of either case; it is the acceptance test in `Inspector.FloatInspector.SetFromHex`'s contract |
| Hex.AlphabetIsHexChars | src/script.js:149-152 | a character is in `'0123456789abcdefABCDEF'` exactly when it is a hex digit of either case |
| Hex.SliceLast | src/script.js:254 | `slice(-n)` is a suffix of its input, of length `min(n, len)` for `n >= 1`; `slice(-0)` keeps the whole input |
| Hex.Base16 | src/script.js:254 | `toString(16).toUpperCase()` of a byte is one upper-case digit below 16 and two from 16 on |
| Hex.ByteHex | src/script.js:253-255 | a byte prints as two upper-case digits; `Hex.ByteHexIsPadSlice` shows they are the pad-and-slice of `toString(16)` |
| Hex.ByteHexIsPadSlice | src/script.js:254 | the two digits the model prints for a byte are exactly `('0' + byte.toString(16).toUpperCase()).slice(-2)` |
| Hex.ToHexString | src/script.js:252-256 | the text has two characters per byte, all upper-case hex digits |
| Hex.ToHexStringAt | src/script.js:252-256 | characters `2j` and `2j+1` of the text are the two digits of byte `j` |
| Hex.ToHexStringAppend | src/script.js:252-256 | printing a concatenation is concatenating the printed parts |
| Hex.ToHexStringZeros | src/script.js:254 | zero bytes print as `'0'` digits, two per byte |
| Hex.PadEven | src/script.js:260-262 | the padded text has even length, one more than the input's at most |
| Hex.PadEvenContents | src/script.js:260-262 | the padded text starts with the input, is longer exactly when the input has odd length, and then ends in `'0'` |
| Hex.ParsePair | src/script.js:264 | `parseInt` of a two-digit hex pair is below 256 |
| Hex.DecodeHex | src/script.js:263-265 | an even-length hex text decodes to half as many values, each in `[0, 255]` |
| Hex.ToByteArray | src/script.js:258-267 | the loop yields the decoding of the `'0'`-padded text: `ceil(len/2)` values in `[0, 255]` |
| Hex.ToUint8 | src/script.js:160 | the byte `set` stores for a value in `[0, 255]`; `Hex.ByteOfValue` proves the byte has that value |
| Hex.UpperChar | src/script.js:254 | `toUpperCase` of a hex digit is an upper-case hex digit with the same value, and leaves an upper-case digit as it is |
| Hex.UpperHex | src/script.js:254 | `toUpperCase` of a text, character by character, keeping its length; `Hex.HexReencode` and `Inspector.PlacedHexView` state what it yields |
| Hex.ByteOfValue | src/script.js:160 | a value in `[0, 255]` is stored as the byte with that value |
| Hex.HexRoundTrip | src/script.js:252-267 | printed bytes are valid even-length hex that decodes back to the bytes' values |
| Hex.HexReencode | src/script.js:252-267 | decoding an even-length hex text, storing the bytes and printing them gives the text upper-cased |
| Inspector.FloatInspector.constructor | src/script.js:5-7 | the instance holds the seeded bytes and its exponent width |
| Inspector.FloatInspector.HexView | src/script.js:235-241 | the hex field shows two digits per byte; `Inspector.ReversedHexAt` states that it prints the last byte first |
| Inspector.ReversedHexAt | src/script.js:235-236 | in `toHexString(bytes.slice().reverse())`, characters `2k` and `2k+1` are the two digits of byte `n - 1 - k` |
| Seqs.Reverse | src/script.js:160 | `reverse()` keeps the length and puts element `n - 1 - k` at position `k` |
| Inspector.FloatInspector.Toggle | src/script.js:167-174 | the new buffer is the old one with the clicked bit flipped; the returned paint value is the bit's new value, 1 minus its old one |
| Inspector.FloatInspector.Paint | src/script.js:176-183 | for the index of any cell on the page: below this buffer's bit count, the new buffer is the old one with that bit forced to the paint value and every other bit kept; from the bit count on, the bytes stay as they were |
| Inspector.FloatInspector.Fill0 | src/script.js:159 | every byte is zero |
| Inspector.FloatInspector.SetValues | src/script.js:160 | the bytes from `offset` on hold the values; the bytes before and after are kept |
| Inspector.FloatInspector.SetFromHex | src/script.js:148-162 | text is accepted exactly when it is at most two digits per byte and all hex. A refused text loses its last character and leaves the bytes as they were. After an accepted text the hex view reads it upper-cased, padded to even length and then with `'0'` to full width |
| Inspector.FloatInspector.Load | src/script.js:158-160 | after decode, `fill(0)` and `set` of the reversed values at the end, the hex view reads the text upper-cased and `'0'`-padded |
| Inspector.PlacedHexView | src/script.js:158-236 | zeros followed by the reversed decoded values, read back to front and printed, are the typed text upper-cased and then `'0'` digits |
| Inspector.ReverseOfPlaced | src/script.js:158-160 | zeros followed by the reversed values, reversed, are the values followed by zeros |
| Inspector.Accumulated | src/script.js:201-205 | the running sum `exponent += bit << (e - i - 1)` after `i` passes; `Inspector.AccumulatedPrefix` states its value |
| Inspector.AccumulatedPrefix | src/script.js:201-205 | after `i` passes the exponent loop holds the first `i` field bits scaled up to the full width |
| Inspector.ExponentFieldValue | src/script.js:200-205 | after all passes the exponent loop holds the raw exponent field, below `2^e` |
| Inspector.FloatInspector.ExponentField | src/script.js:200-205 | the loop computes the unsigned value of display bits `1..e`, below `2^e` |
| Inspector.MaskStep | src/script.js:212-217 | one pass of the fraction loop extends the masked prefix of the exponent field by one bit: 0 on the first pass, 1 after |
| Inspector.FloatInspector.MaskExponent | src/script.js:212-217 | the loop clears exponent bit 1, sets exponent bits `2..e` and keeps every other bit |
| Inspector.SignStep | src/script.js:218-221 | clearing the sign after the loop yields the fraction copy, whose exponent field holds the bias |
| Inspector.FloatInspector.FractionCopy | src/script.js:209-221 | the copy has a clear sign, the exponent field `0 1 ... 1` (the bias) and the original fraction bits; the sign test reads display bit 0; the bytes are untouched |
| Inspector.FractionCopyFacts | src/script.js:210-221 | a fraction copy's exponent field is the bias, and the copy is uniquely determined by the original |
| Inspector.FloatInspector.Decompose | src/script.js:199-228 | the subnormal flag is "raw field is 0"; the exponent is `raw - bias`, or `1 - bias` when the flag is set, and lies in `[1 - bias, bias + 1]`; the sign is display bit 0; the fraction copy is as above |
| Decimal.IsSpecial | src/script.js:15 | the three texts `reduceNumber` returns unchanged; `Decimal.ReduceNumber` states that it does |
| Decimal.IsWhole | src/script.js:19 | the first group `[+-]?\d+`: an optional sign and at least one digit; used by `Decimal.Split` and `Decimal.SplitComplete` |
| Decimal.IsFraction | src/script.js:19 | the second group `(?:\.\d+)?`: empty, or a `.` and at least one digit; used by `Decimal.Split` and `Decimal.SplitComplete` |
| Decimal.IsExponent | src/script.js:19 | the third group `(?:[eE][+-]?\d+)?`: empty, or `e`/`E` and a signed digit run; used by `Decimal.Split` and `Decimal.SplitComplete` |
| Decimal.Split | src/script.js:19-22 | a match gives three groups of the pattern that concatenate to the text |
| Decimal.SplitComplete | src/script.js:19-22 | every whole/fraction/exponent text is matched and split back into exactly those parts |
| Decimal.NextDigit | src/script.js:43 | `(c + 1) % 10` of a digit is a digit |
| Decimal.IncrementDigits | src/script.js:41-46 | the carry keeps the length and yields digits |
| Decimal.IncrementValue | src/script.js:41-46 | incrementing adds one to the digits' value, except an all-nines string, which wraps to zero |
| Decimal.IncrementCarries | src/script.js:41-46 | trailing nines become zeros, the digit before them goes up by one, and the rest is kept |
| Decimal.IncrementAllNines | src/script.js:41-46 | an all-nines string becomes all zeros |
| Decimal.RoundedFraction | src/script.js:38-46 | rounding keeps the length and the leading `.` and yields a trimmed fraction |
| Decimal.CarryStep | src/script.js:42-45 | one pass of the carry loop increments digit `i` of the zero-tailed prefix, and a nine extends the run of nines |
| Decimal.CarryStops | src/script.js:44 | when the carry stops at a non-nine digit, the text is the rounded fraction |
| Decimal.CarryWraps | src/script.js:41 | when the loop reaches index 0, every digit was a nine and the text is the rounded fraction |
| Decimal.RoundUp | src/script.js:38-46 | the carry loop computes the rounded fraction |
| Decimal.Candidate | src/script.js:28-47 | the candidate text is no longer than its parts together |
| Decimal.Truncated | src/script.js:27 | dropping the last character leaves a trimmed fraction, one shorter and a prefix |
| Decimal.Step | src/script.js:26-57 | an accepted step drops one fraction character, and its text is the candidate and reads back as the value; a step is refused exactly when neither the truncated nor the rounded candidate reads back |
| Decimal.Trim | src/script.js:25-58 | the loop ends on a trimmed fraction no longer than the one it started with |
| Decimal.StepsBound | src/script.js:25-58 | the loop accepts at most one step per fraction character, and each accepted step shortens the fraction by exactly one |
| Decimal.TrimAccepted | src/script.js:31-53 | the loop ends on the text it started with or on a candidate the round-trip check accepted |
| Decimal.TrimShape | src/script.js:28-52 | the final text is the candidate built from the final fraction |
| Decimal.TrimStable | src/script.js:25-58 | running the loop again from where it stopped changes nothing |
| Decimal.TrimLoop | src/script.js:25-58 | the while loop ends in the state the loop function describes |
| Decimal.Steps | src/script.js:25-58 | the number of accepted passes; its contract is `Decimal.StepsBound` |
| Decimal.Reduced | src/script.js:15-60 | what `reduceNumber` returns for a formatted text; its contracts are `Decimal.ReduceNumber` and `Decimal.ReducedRoundTrips` |
| Decimal.ReduceNumber | src/script.js:15-60 | special texts come back unchanged; the result is the start text or reads back as the value, and is never longer than the start text |
| Decimal.ReducedRoundTrips | src/script.js:25-60 | when the start text reads back as the value, so does the minimised text |
| Decimal.SplitAt | src/script.js:19 | once the ends of the first two groups are known and the rest is an exponent, the match is the three slices |

## Left out

- The DOM: building the bit table, the text fields, the help line and `render`'s display loop, which writes each bit as text. The bit it writes is `Bits.BitAt`.
- Event wiring: focus, blur, Enter, `document.activeElement`, and when `render` runs. The handlers themselves are modelled as methods.
- Floating point: the typed-array reinterpretation of the bytes; `+text`; `value + ''`; the `-0` detection; the float compare in `reduceNumber`; and `fraction--` for subnormals. The compare is the parameter `same`, and the formatted start text is an input.
- The decimal field's input handler and `extractNumber`, which only parse and store a float.
- The `Float16Array` polyfill and the `Math.PI` seed values. The constructor takes any seed bytes.
- `parseInt` on non-hex characters. The only caller of `toByteArray` has already checked that every character is a hex digit, so `Hex.ToByteArray` requires hex text.
- Inspector.FloatInspector.SetFromHex: text is a sequence of Unicode characters, while JavaScript measures and slices strings in UTF-16 code units. Acceptance and the bytes written agree, since every hex digit is one code unit. A refused text that ends in a character outside the Basic Multilingual Plane loses the whole character in the model, where `slice(0, -1)` leaves its high surrogate behind; and such a character counts as one toward the length limit, where JavaScript counts two.
- Hex.ToUint8: modelled only for values in `[0, 255]`, the only values the hex handler stores. The modulo-256 wrap of `Uint8Array.prototype.set` is not modelled.
- Decimal.CarryWraps: keeps the loss of the carry into the whole part as the source has it, rather than extending the whole part.
- Decimal.ReduceNumber: takes the formatted text and requires it to be special or to match the pattern, which is what the platform's number formatting produces. That formatting is not modelled.
