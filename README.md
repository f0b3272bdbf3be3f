# QR-code data segments, modelled and verified in Dafny

This project models the segment encoder of `internal/qrcode`, which turns a
payload into the bit layout of ISO/IEC 18004 section 6.4:

- a 4-bit mode indicator (Table 2: numeric 1, alphanumeric 2, byte 4);
- a character count indicator whose width depends on mode and version
  (Table 3);
- the data, as 10-bit digit triples (section 6.4.3), as 11-bit pairs of
  alphanumeric codes (section 6.4.4, Table 5), or as 8-bit bytes
  (section 6.4.5).

It has five parts, one Dafny module each:

| file | module | models |
|---|---|---|
| `digits.dfy` | `Digits` | `digits.go`: the decimal digit counters, all measured against one reference count `DigitCount` |
| `codes.dfy` | `Codes` | `codes.go`: the alphanumeric code table and the switch, a bijection between the 45-character alphabet and 0..44 |
| `bitseq.dfy` | `BitSeq` | bit-level vocabulary: MSB-first fields `NatBits`, their values `BitsToNat`, Go's `>>` as `Shr`, bytes as bits |
| `bitstream.dfy` | `Bitstream` | `bitstream.go`: the `bitStream` writer as a class over a byte array, with the cursor `index`/`left` |
| `encoding.dfy` | `Encoding` | `encoding.go`: the three payload encoders, each proved against a specification function and a decoder |
| `segment.dfy` | `Segments` | `segment.go`: the segment constructors, `DataBits`, `LengthBits` and `Encode`, with a segment decoder |

The bit stream's abstract view is `Content()`, the bits of the whole buffer.
The first `Count()` of them are `Written()`. Every write is specified by
`OredInto(new, old, c, f)`: the field `f` is ORed into the buffer at
position `c`, and nothing else changes. On a stream whose bits past the
cursor are all zero (`Clean()`), this means that `f` is appended. Every
encoder, and `Encode`, is stated both ways.

Go's panics are modelled as results (`Outcome`, `Status`, `Built`). The one
exception is the space check of `ensureState`: it becomes the precondition
`HasRoom`.

## Model

| member | source | states |
|---|---|---|
| Digits.ComputeDigits | internal/qrcode/digits.go:52-95 | `computeDigits` gives between 1 and 20 digits |
| Digits.ComputeDigitsCorrect | internal/qrcode/digits.go:52-95 | the 19 thresholds give the reference digit count for every 64-bit number, and `10^(k-1) <= num < 10^k` for `num > 0` |
| Digits.DigitCountIs | internal/qrcode/digits.go:141-148 | a number has `k` digits exactly when `10^(k-1) <= n < 10^k` (or `k` is 1 and `n < 10`), both directions |
| Digits.ComputeDigitsUInt32 | internal/qrcode/digits.go:27-50 | the 32-bit chain gives 1 to 10 digits |
| Digits.ComputeDigitsUInt32Agrees | internal/qrcode/digits.go:27-50 | on 32-bit numbers the short chain equals `computeDigits` and the reference count |
| Digits.ComputeDigitsSwitch | internal/qrcode/digits.go:150-173 | the top-down switch gives 1 to 10 digits |
| Digits.ComputeDigitsSwitchAgrees | internal/qrcode/digits.go:150-173 | the top-down switch equals `computeDigitsUInt32` and the reference count on every 32-bit number |
| Digits.ComputeDigitsBranch | internal/qrcode/digits.go:101-139 | the binary search as written gives 1 to 10 digits |
| Digits.ComputeDigitsBranchAgrees | internal/qrcode/digits.go:101-139 | the binary search gives the reference count for every 32-bit number except 10 |
| Digits.ComputeDigitsBranchAtTen | internal/qrcode/digits.go:134-138 | at 10 the binary search answers 1, where 10 has 2 digits |
| Digits.ComputeDigitsBranchFixed | internal/qrcode/digits.go:101-139 | with the last test `num >= 10`, the binary search is the reference count everywhere |
| Digits.ComputeDigitsCompute | internal/qrcode/digits.go:141-148 | the divide-by-ten loop terminates and returns the reference count, at most 10 |
| Codes.Sub32 | internal/qrcode/codes.go:56 | `ch - ' '` in `int32` arithmetic: exact when it does not overflow, and wrapped when it does |
| Codes.GetAlphaCode | internal/qrcode/codes.go:51-66 | a found code is at most 44; every failure carries `InvalidAlphaCode` (255); every `ch > 'Z'` fails; the lookup faults exactly for the runes from `-2^31 + 32` to 31, whose index is negative |
| Codes.GetAlphaCodeSwitch | internal/qrcode/codes.go:68-95 | a found code is at most 44, for a character between `' '` and `'Z'`; every failure is 255 with "invalid character" |
| Codes.SymbolTableSpan | internal/qrcode/codes.go:33-49 | the table has 59 entries, one for each character from `' '` to `'Z'`, and the alphabet has 45 |
| Codes.TableMatchesSwitch | internal/qrcode/codes.go:33-49 | entry `ch - ' '` of the table is the switch's code for `ch` |
| Codes.SwitchInverse | internal/qrcode/codes.go:68-95 | a code found by the switch names its character in the alphabet |
| Codes.AlphabetCodes | internal/qrcode/codes.go:33-95 | the `k`-th alphabet character has code `k` under both lookups |
| Codes.LookupsAgree | internal/qrcode/codes.go:51-95 | from `' '` upwards the two lookups never fault, succeed together and give the same code |
| Codes.LookupFaultsBelowSpace | internal/qrcode/codes.go:56-61 | rune 31 makes the table lookup fault, while the switch fails cleanly |
| Codes.GetAlphaCodeFixed | internal/qrcode/codes.go:51-66 | with a lower bound on the index, the table lookup never faults and agrees with the switch everywhere |
| Codes.CodesDistinct | internal/qrcode/codes.go:33-95 | distinct accepted characters get distinct codes under both lookups |
| Bitstream.NeededBytes | internal/qrcode/bitstream.go:32 | the intended buffer size, without the `uint32` wrap: the ceiling of `capacity / 8` bytes |
| Bitstream.NeededBytesAsWrittenAgrees | internal/qrcode/bitstream.go:32 | the `uint32` computation equals the ceiling below the wrap-around |
| Bitstream.NeededBytesAsWrittenWraps | internal/qrcode/bitstream.go:32 | the capacity `2^32 - 1` gives 0 bytes instead of `2^29` |
| Bitstream.GuardOverstatesRoom | internal/qrcode/bitstream.go:50-61 | on every valid cursor, `ensureState` passes a request exactly when it fits in the free bits plus 8 |
| Bitstream.GuardAdmitsOverflow | internal/qrcode/bitstream.go:57-60 | a one-byte buffer with 7 bits written passes the check for an 8-bit write, with 1 bit free |
| Bitstream.Wrote | internal/qrcode/bitstream.go:71-153 | a write that stores its field shifted into byte `index`, or split over `index` and `index + 1`, ORs exactly the field's bits in at the cursor |
| Bitstream.BitStream.Capacity | internal/qrcode/bitstream.go:63-65 | capacity is the buffer length in bits |
| Bitstream.BitStream.Count | internal/qrcode/bitstream.go:67-69 | the count of written bits, `index*8 + 8 - left`, never exceeds the capacity |
| Bitstream.BitStream.New | internal/qrcode/bitstream.go:31-40 | a fresh buffer of `(capacity + 7) >> 3` zero bytes computed in `uint32`; below the wrap-around its capacity is `capacity` rounded up to a multiple of 8; the cursor is at 0 and nothing is set |
| Bitstream.BitStream.Wrap | internal/qrcode/bitstream.go:42-48 | the stream shares the caller's buffer, with capacity `8 * len`, and starts at count 0 |
| Bitstream.BitStream.HasRoomPassesGuard | internal/qrcode/bitstream.go:50-61 | the corrected room test implies the test `ensureState` makes |
| Bitstream.BitStream.AppendedWhenClean | internal/qrcode/bitstream.go:71-153 | a field ORed in at the end of the written bits, with nothing set past them, is appended |
| Bitstream.BitStream.Write1 | internal/qrcode/bitstream.go:71-89 | with room for 1 bit: the invariant holds, the count grows by 1, the low bit of `n` is ORed in at the cursor, and on a clean stream it is appended |
| Bitstream.BitStream.Write2 | internal/qrcode/bitstream.go:91-114 | the same for the low 2 bits, in every arm including the split over a byte boundary |
| Bitstream.BitStream.Write4 | internal/qrcode/bitstream.go:116-136 | the same for the low 4 bits |
| Bitstream.BitStream.Write8 | internal/qrcode/bitstream.go:138-153 | the same for all 8 bits |
| Bitstream.BitStream.PutWithin | internal/qrcode/bitstream.go:110-112 | the arm of `Write1`, `Write2` and `Write4` where the field ends inside the current byte: the count grows by the width, and the field is ORed in at the cursor (appended on a clean stream) |
| Bitstream.BitStream.PutClosing | internal/qrcode/bitstream.go:106-109 | the arm of every `WriteN` where the field exactly fills the current byte: the same, with the cursor moving on to the next byte |
| Bitstream.BitStream.PutSplit | internal/qrcode/bitstream.go:101-105 | the arm of `Write2`, `Write4` and `Write8` where the field crosses a byte boundary: its high part ends this byte, its low part starts the next, and together they are the field ORed in at the cursor |
| Encoding.NumericBitsLength | internal/qrcode/encoding.go:25-52 | numeric mode takes `10*(n/3)` bits plus 0, 4 or 7 |
| Encoding.NumericRoundTrip | internal/qrcode/encoding.go:25-52 | the numeric bits of a digit sequence decode back to the same digits |
| Encoding.AlphaBitsLength | internal/qrcode/encoding.go:54-74 | alphanumeric mode takes `11*(n/2)` bits plus 6 for an odd last code |
| Encoding.AlphaRoundTrip | internal/qrcode/encoding.go:54-74 | the alphanumeric bits of a code sequence decode back to the same codes |
| Encoding.BytesRoundTrip | internal/qrcode/encoding.go:76-80 | the byte bits of any byte sequence decode back to the same bytes |
| Encoding.WriteTriple | internal/qrcode/encoding.go:35-36 | the writes `v >> 2` in 8 bits and `v` in 2 bits together put `v` in as one 10-bit field |
| Encoding.WriteDigit | internal/qrcode/encoding.go:44 | a last single digit goes in as a 4-bit field |
| Encoding.WriteDigitPair | internal/qrcode/encoding.go:46-50 | the writes `v >> 3`, `v >> 1` and `v` in 4, 2 and 1 bits put `v` in as one 7-bit field |
| Encoding.WriteCodePair | internal/qrcode/encoding.go:59-64 | the writes `v >> 3`, `v >> 1` and `v` in 8, 2 and 1 bits put `v` in as one 11-bit field |
| Encoding.WriteCode | internal/qrcode/encoding.go:70-72 | a last single code goes in as a 6-bit field |
| Encoding.WriteByte | internal/qrcode/encoding.go:78 | a byte goes in as an 8-bit field |
| Encoding.EncodeNumeric | internal/qrcode/encoding.go:25-52 | exactly `NumericBitCount(n)` bits are written, and they are the specification `NumericBits(data)`: triples in input order, then the tail; on a clean stream they are appended |
| Encoding.NumericTriple | internal/qrcode/encoding.go:29-39 | one turn of the loop extends the ORed-in prefix from `g` triples to `g + 1` |
| Encoding.NumericLast | internal/qrcode/encoding.go:41-51 | the tail completes the prefix of whole triples to all of `NumericBits(data)` |
| Encoding.EncodeAlphaNumeric | internal/qrcode/encoding.go:54-74 | exactly `AlphaBitCount(n)` bits are written, and they are `AlphaBits(data)`: pairs in input order, then a last code; on a clean stream they are appended |
| Encoding.AlphaPairStep | internal/qrcode/encoding.go:58-67 | one turn of the loop extends the ORed-in prefix from `g` pairs to `g + 1` |
| Encoding.AlphaLast | internal/qrcode/encoding.go:69-73 | the tail completes the prefix of whole pairs to all of `AlphaBits(data)` |
| Encoding.EncodeBytes | internal/qrcode/encoding.go:76-80 | exactly `8n` bits are written: each byte as 8 bits in input order; on a clean stream they are appended |
| Encoding.NumericVector673 | internal/qrcode/encoder_test.go:43 | 673 is written as the 10 leading bits of `0xA8 0x40` |
| Encoding.AlphaVectorA | internal/qrcode/encoder_test.go:73 | "A" is written as the 6 leading bits of `0x28` |
| Encoding.ByteVectorA | internal/qrcode/encoder_test.go:100 | "a" is written as the byte `0x61` |
| Segments.NewSegment | internal/qrcode/segment.go:40-45 | the segment holds the mode and data as given |
| Segments.NewNumericSegment | internal/qrcode/segment.go:47-61 | numeric mode, as many elements as `num` has decimal digits, each a digit, most significant first, whose decimal value is `num` |
| Segments.DecimalValueBound | internal/qrcode/segment.go:47-61 | `k` digits are worth less than `10^k` |
| Segments.DecimalValueInjective | internal/qrcode/segment.go:47-61 | two digit sequences of one length with one value are equal, so the digits of `num` are unique |
| Segments.NumericSegmentOf10001 | internal/qrcode/segment_test.go:54 | the only five digits worth 10001 are 1, 0, 0, 0, 1, and they take 17 bits |
| Segments.NewAlphaSegment | internal/qrcode/segment.go:63-79 | success exactly when every character has a code; then `data[i]` is the code of `s[i]`; otherwise the outcome of the first character without a code: its error with `Segment{}`, or the lookup's fault |
| Segments.AlphaCodesNameCharacters | internal/qrcode/segment.go:63-79 | the codes of an accepted text are at most 44 and name its characters in the alphabet |
| Segments.NewUTF8Segment | internal/qrcode/segment.go:81-88 | byte mode, and the segment's bits decode back to the text's bytes |
| Segments.DataBits | internal/qrcode/segment.go:90-117 | panics exactly for an unknown mode; the numeric count and the even alphanumeric count are the encoder's; an odd number of codes counts 5 bits fewer than the encoder writes; byte mode counts bytes |
| Segments.DataBitsFixed | internal/qrcode/segment.go:90-117 | with 6 bits for a last code and 8 per byte, the count is the encoder's in every mode |
| Segments.DataBitsRightExactly | internal/qrcode/segment.go:90-117 | `DataBits` as written is right exactly for numeric segments, an even number of codes, or no bytes (both directions) |
| Segments.DataBitsUndercounts | internal/qrcode/segment.go:104-111 | one code and one byte are each counted as 1 bit, where 6 and 8 are written |
| Segments.LengthBits | internal/qrcode/segment.go:119-156 | the width is Table 3's for every known mode and version (version 10 in the middle group); otherwise a panic, "invalid version" or "unsupported data mode in segment" |
| Segments.Field3 | internal/qrcode/segment.go:165-177 | three writes of `x >> (b+c)`, `x >> c` and `x`, in `a`, `b` and `c` bits, make the `(a+b+c)`-bit field of `x` |
| Segments.CountFieldAsWrittenAgrees | internal/qrcode/segment.go:163-206 | the count field as written is the count in Table 3's width, except for alphanumeric mode at versions 27-40 with 32 or more characters, and byte mode at versions 1-9 |
| Segments.CountFieldAsWrittenLoses | internal/qrcode/segment.go:181-205 | 32 alphanumeric characters at version 27 get the same field as 0, and 1 byte at version 1 gets the same field as 0, where the standard's fields differ |
| Segments.WriteNumericCount | internal/qrcode/segment.go:165-178 | the numeric count field: Table 3's width for a known version, written as the three range arms do; nothing for an unknown version |
| Segments.WriteAlphaCount | internal/qrcode/segment.go:181-195 | the alphanumeric count field as written |
| Segments.WriteByteCount | internal/qrcode/segment.go:198-206 | the byte count field as written |
| Segments.WriteAlphaCountFixed | internal/qrcode/segment.go:181-195 | with `l >> 5` at versions 27-40: the count in Table 3's width at every version |
| Segments.WriteByteCountFixed | internal/qrcode/segment.go:198-206 | with `l` unshifted at versions 1-9: the count in Table 3's width at every version |
| Segments.CountFieldWidth | internal/qrcode/segment.go:163-206 | every count field as written has Table 3's width |
| Segments.EncodedLength | internal/qrcode/segment.go:158-211 | `Encode` writes the 4-bit mode, then `LengthBits(v)` header bits, then the data; only the mode when it panics |
| Segments.SegmentBitsLength | internal/qrcode/segment.go:178-207 | the data part has the length each encoder writes |
| Segments.EncodedAsWrittenAgrees | internal/qrcode/segment.go:158-211 | where the count field comes out right, `Encode`'s bits are the standard's layout |
| Segments.Encode | internal/qrcode/segment.go:158-211 | the mode nibble first; then, for a known mode and version, the count field as written and the data; a panic (with its message) exactly for an unknown mode or version; the bits are ORed in at the cursor and appended on a clean stream |
| Segments.WriteCount | internal/qrcode/segment.go:163-206 | the count writer of the segment's mode |
| Segments.WriteData | internal/qrcode/segment.go:178-207 | the encoder of the segment's mode writes the segment's data bits |
| Segments.EncodeFixed | internal/qrcode/segment.go:158-211 | with the corrected count fields: exactly the standard's layout of mode, count and data, with the same panics |
| Segments.WriteCountFixed | internal/qrcode/segment.go:163-206 | the corrected count writer of the segment's mode: the count in Table 3's width |
| Segments.DataRoundTrip | internal/qrcode/encoding.go:25-80 | the data bits of a segment in its mode's range decode back to its data |
| Segments.DecodeLayout | internal/qrcode/segment.go:158-211 | a mode nibble and a count field, followed by the data bits, read back as that mode and the decoded data |
| Segments.SegmentRoundTrip | internal/qrcode/segment.go:158-211 | the standard's layout of a segment with in-range data and a count that fits reads back as the segment, whatever follows |
| Segments.ByteCountMisreads | internal/qrcode/segment.go:203 | what `Encode` writes for "a" at version 1 reads back as a byte segment with no data |
| Segments.AlphaCountMisreads | internal/qrcode/segment.go:183 | what `Encode` writes for 32 alphanumeric characters at version 27 reads back as a segment with no data |

## Left out

- `computeDigitsUInt32_Log10` (`digits.go:97-99`) is left out: it uses floating-point `math.Log10`.
- `strings.ToValidUTF8` in `NewUTF8Segment` is a library call. The model takes the text as bytes that are already valid UTF-8. So the `?` substitution never applies, and the result is never an error.
- Segments.NewAlphaSegment takes the text as a sequence of runes, where Go ranges over a string by byte offset. On success every character is ASCII, so the positions coincide. Go's buffer of `len(s)` bytes is not modelled for texts that fail.
- The `ensureState` panics are not modelled as outcomes. Every write, encoder and `Encode` instead requires `HasRoom` for all it writes. The as-written check is modelled on its own (`GuardAsWritten`). The "invalid bitstream state" panic at `left == 0` cannot happen under the stream invariant.
- `Encode` and `EncodeFixed` require room for the whole layout. Go could also panic in the middle of the count or the data for lack of room; the model does not cover that.
- The encoders take the segment's data rather than the `Segment`: they read nothing else from it.
- The Go functions are split into helper methods that Go does not have. The arms of each `WriteN` are `PutWithin`, `PutClosing` and `PutSplit`. Each run of short writes is one field method, such as `WriteTriple`. The loop bodies and tails of the encoders are separate methods. `Encode`'s inner switches are `WriteCount` (with a count writer per mode) and `WriteData`. The order of writes and the panics are unchanged.
- Go's `uint8(l >> k)` truncation and the data's `byte` elements are modelled exactly. The count `l` is unbounded. `uint` arithmetic in the encoders never overflows for digits and codes; for out-of-range data the fields are the low bits of the value, as in Go.
- Encoding.NumericVector673, Encoding.AlphaVectorA, Encoding.ByteVectorA: only the short test vectors are proved. The longer vectors ("HELLO WORLD", "aЉ윇😱" and the long numbers) are not stated: evaluating fields of 61 bits and more is beyond the solver's budget. The general packing lemmas cover them.
- The other packages (HTTP services, authentication, command-line setup) and the benchmarks are not part of this model.

## Findings

| source | as written | input that shows it | evidently intended | confidence | as-written member | corrected member |
|---|---|---|---|---|---|---|
| internal/qrcode/bitstream.go:57 | `avail := (l-index)*8 + left` counts the whole current byte and its free bits, 8 bits too many | a 1-byte buffer with 7 bits written passes the check for `Write8`, which then indexes past the buffer | free bits `l*8 - Count()` | high; not executed | Bitstream.GuardAdmitsOverflow | Bitstream.BitStream.Write8 |
| internal/qrcode/bitstream.go:32 | `(capacity + 7) >> 3` in `uint32` arithmetic | capacity `0xFFFFFFFF` gives a 0-byte buffer | `ceil(capacity / 8)` bytes | high; not executed | Bitstream.NeededBytesAsWrittenWraps | Bitstream.NeededBytes |
| internal/qrcode/digits.go:134 | `num > 10` | 10 counted as 1 digit | `num >= 10` | high; not executed | Digits.ComputeDigitsBranchAtTen | Digits.ComputeDigitsBranchFixed |
| internal/qrcode/codes.go:56-61 | the index `ch - ' '` is checked only against the table's end | a rune below `' '`, such as 31 or a newline, indexes the table at a negative position and faults | an error, as the switch returns | high; not executed | Codes.LookupFaultsBelowSpace | Codes.GetAlphaCodeFixed |
| internal/qrcode/segment.go:104-111 | an odd last alphanumeric code adds 1 bit; byte mode returns `l` | "A" (one code) gives 1 where 6 bits are written; "a" gives 1 where 8 are written | 6 bits for the last code, `8*l` for bytes | high; not executed | Segments.DataBitsUndercounts | Segments.DataBitsFixed |
| internal/qrcode/segment.go:183 | alphanumeric, versions 27-40: first write `uint8(l >> 6)` | 32 characters at version 27 are written with count 0 | `uint8(l >> 5)` | high; not executed | Segments.AlphaCountMisreads | Segments.EncodeFixed |
| internal/qrcode/segment.go:203 | byte mode, versions 1-9: `uint8(l >> 1)` | "a" at version 1 is written with count 0 | `uint8(l)` | high; not executed | Segments.ByteCountMisreads | Segments.EncodeFixed |
