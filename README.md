# Extended Hamming encoder for a message and its length

The program turns a message into two blocks of bits, each laid out as an extended Hamming
(SECDED) code word: parity bits at the power-of-two positions, the overall parity at
position 0, and the data at every other position. The header is such a code word; the
payload block departs from it in the ways listed below.

- `encode_message_length` (module `LengthEncoder`) writes the message's byte count as 11
  binary digits, most significant first. The digits go into positions
  3, 5, 6, 7, 9, …, 15 of a 16-bit block. It then sets parity bits 1, 2, 4 and 8 and the
  overall bit 0.
- `encode_message` (module `PayloadEncoder`) first writes every byte of the message as
  eight binary digits. The block length is the next power of two of `8 * len`. It spreads
  the digits over the positions that are neither 0 nor a power of two, in order, and sets bits
  1, 2, 4, 8, 16, 32 and 0.

Module `Bits` holds powers of two, the next power of two and binary digits. Module
`Hamming` holds the covering rule (position `p` covers `i` when `(i / p) % 2 == 1`), the
XOR over what a parity bit covers, the XOR over a range, and the rank of a data position.

Both encoders are imperative. They are methods over `array<bool>`, with loop invariants
for every counting loop. Each is proved against a ghost predicate that says what the
finished block is: `IsLengthCodeword` and `IsPayloadCodeword`. Lemmas about those
predicates then prove four things:

- the data reads back
- the parity checks that the code satisfies come out zero: in the header, the checks
  over bits 1, 2, 4 and 8 and the overall parity; in the payload block, the checks over
  bits 2, 4, 8 and 16 and the overall parity, and the check over bit 32 only when the
  block is 64 bits long
- the block is unique for its input
- the encoder's irregularities, as written

Those irregularities are modelled as the code has them:

- Bit 1 of the payload block counts positions, not set bits. It is therefore always set,
  and the check over what bit 1 covers fails for an all-zero message.
- Bit 32 XORs everything from 33 on. That equals what bit 32 covers only for a block of
  64.
- Powers of two from 64 up carry no parity and stay false.
- The block length is the next power of two of the raw bit count (src/main.rs:66) and
  reserves nothing for the parity positions. Five to seven bytes still fit a block of 64,
  but message bits beyond the data capacity are dropped, for example whenever the byte
  count is a power of two from 8 on.

A panic in the source becomes a `requires`:

- `encode_message_length` needs a size below 2048, since `{size:011b}` must fit the
  11-element array.
- `encode_message` needs at least five bytes. Shorter messages give a block of at most
  32 bits, and the write to position 32, or an earlier one, is out of bounds.

## Model

| member | source | states |
|---|---|---|
| LengthEncoder.EncodeMessageLength | src/main.rs:11-63 | for every size below 2048 the result is the header code word of that size: 11 binary digits of size in the data positions, bits 1, 2, 4, 8 each the XOR of what they cover, bit 0 the XOR of bits 1-15 |
| LengthEncoder.SetHeaderParity | src/main.rs:35-62 | the writes to bits 1, 2, 4, 8 and then 0, applied in place to a laid-out header whose bit 0 is still false, leave the header code word of the size its data bits carry |
| LengthEncoder.CountSetAt | src/main.rs:43-52 | the count of set bits at the listed indices is odd exactly when the XOR of those bits is set, and is at most the number of indices |
| LengthEncoder.ListParityTwo | src/main.rs:44-47 | the fixed index list 3, 6, 7, 10, 11, 14, 15 gives the same XOR as everything parity bit 2 covers above itself in a 16-bit block |
| LengthEncoder.ListParityFour | src/main.rs:49-52 | the fixed index list 5, 6, 7, 12, 13, 14, 15 gives the same XOR as everything parity bit 4 covers above itself |
| LengthEncoder.CoverListTwo | src/main.rs:44 | the indices above 2 that bit 2 covers in a 16-bit block are exactly 3, 6, 7, 10, 11, 14, 15, in that order |
| LengthEncoder.CoverListFour | src/main.rs:49 | the indices above 4 that bit 4 covers in a 16-bit block are exactly 5, 6, 7, 12, 13, 14, 15, in that order |
| LengthEncoder.LengthBitsAt | src/main.rs:16-33 | a block whose positions 3, 5-7, 9-15 hold the 11 digits one for one carries exactly those digits |
| LengthEncoder.HeaderSteps | src/main.rs:35-61 | the five writes in source order (bit 1, 2, 4, 8, then 0) applied to the laid-out block yield a header code word |
| LengthEncoder.HeaderBitOne | src/main.rs:35-42 | the count of set bits at 3, 5, 7, …, 15 has the parity of what bit 1 covers, and stays so after the later writes |
| LengthEncoder.HeaderBitEight | src/main.rs:53-60 | the count of set bits from 9 to 15 has the parity of what bit 8 covers |
| LengthEncoder.HeaderBitZero | src/main.rs:61 | folding XOR over all 16 bits while bit 0 is still false gives the XOR of bits 1-15 |
| LengthEncoder.LengthRoundTrip | src/main.rs:11-33 | the data positions of a header code word, read as an 11-bit binary number, give back the size |
| LengthEncoder.SizeFive | src/main.rs:11-63 | the header code word of size 5 is exactly 1010 0000 0000 0101 |
| LengthEncoder.DigitsOfFive | src/main.rs:13-14 | the 11-digit binary form of 5 is 00000000101 |
| LengthEncoder.LengthBitsAtPositions | src/main.rs:16-33 | the data bits of a header are the bits at positions 3, 5-7, 9-15 in that order, the same list as the layout constant |
| LengthEncoder.LengthParityChecks | src/main.rs:35-61 | in a header code word every check over what bits 1, 2, 4 and 8 cover is zero, and the whole block has even parity |
| LengthEncoder.LengthCodewordUnique | src/main.rs:11-63 | a size has exactly one header code word |
| LengthEncoder.ParityBitsAgree | src/main.rs:35-60 | two blocks with the same data bits whose bits 1, 2, 4, 8 are each the XOR of what they cover have equal parity bits |
| LengthEncoder.SameParityBitsSameHeader | src/main.rs:61 | blocks with equal data and parity bits 1-8 and bit 0 the XOR of 1-15 are equal |
| LengthEncoder.LengthLayoutIsGeneralLayout | src/main.rs:16-33 | the header's 11 data positions are the first 11 positions of a block of 16 that are neither 0 nor a power of two, in order, which is all of them |
| PayloadEncoder.EncodeMessage | src/main.rs:65-142 | for a message of at least five bytes the result is the payload code word of its digits at length next_power_of_two(len * 8): data positions hold the digits by rank (false past the end), powers of two from 64 are false, bit 1 the parity of the number of positions 3, 5, …, bits 2, 4, 8, 16 the XOR of what they cover, bit 32 the XOR of 33.., bit 0 the XOR of 1.. |
| PayloadEncoder.SetParityBits | src/main.rs:86-141 | the writes to bits 1, 2, 4, 8, 16, 32 and then 0, applied in place to a laid-out block of power-of-two length from 64, leave the payload code word of the laid-out data |
| PayloadEncoder.BinaryMessage | src/main.rs:67-70 | the binary string is the concatenation of the eight-digit forms of the bytes |
| PayloadEncoder.BytesRoundTrip | src/main.rs:67-70 | reading the binary string back in groups of eight gives the message |
| PayloadEncoder.PayloadLength | src/main.rs:66 | the block length reaches 64 exactly for five or more bytes; it is at most 32 for one to four bytes and 1 for none |
| PayloadEncoder.LayOut | src/main.rs:71-85 | a fresh array of the block length with false at 0 and every power of two, and the data bit of each other position's rank, false once the digits run out |
| PayloadEncoder.CountCovered | src/main.rs:87-126 | each skipping loop (start p + 1, jump p when (i + 1) % m == 0) counts set bits with the parity of exactly what bit p covers above itself |
| PayloadEncoder.SkipStep | src/main.rs:89-125 | from a covered index the loop's step lands on the next covered index and jumps over only uncovered ones |
| PayloadEncoder.CountFrom | src/main.rs:127-140 | the plain loops count set bits from start to the end with the parity of their XOR |
| PayloadEncoder.SetCoverBit | src/main.rs:87-126 | one parity bit is stored as the XOR of what it covers above itself and nothing else changes |
| PayloadEncoder.SetRangeBit | src/main.rs:127-140 | bit 32 or bit 0 is stored as the XOR of the range from its start and nothing else changes |
| PayloadEncoder.PayloadSteps | src/main.rs:86-140 | the layout followed by the writes to bits 1, 2, 4, 8, 16, 32, 0 in source order yields a payload code word |
| PayloadEncoder.ChainLayout | src/main.rs:71-86 | the parity writes leave every data position and every power of two from 64 as the layout left it |
| PayloadEncoder.CoverBitSurvives | src/main.rs:87-126 | a parity bit stays the XOR of what it covers while the later writes touch only positions it does not cover |
| PayloadEncoder.ChainRanges | src/main.rs:127-140 | bit 32 ends as the XOR of 33.. and bit 0, counted while still false, as the XOR of 1.. |
| PayloadEncoder.PayloadParityChecks | src/main.rs:87-140 | in a payload code word the checks over what bits 2, 4, 8 and 16 cover are zero and the whole block has even parity |
| PayloadEncoder.OddPositionsOdd | src/main.rs:86 | for a power-of-two length from 64 the number of positions 3, 5, …, L - 1 is odd |
| PayloadEncoder.PayloadBitOneSet | src/main.rs:86 | bit 1 of every payload block is set, whatever the message |
| PayloadEncoder.PayloadBitOneCheck | src/main.rs:86 | the check over what bit 1 covers passes exactly when the bits it covers above 1 have odd parity |
| PayloadEncoder.ZeroMessageFailsBitOneCheck | src/main.rs:86 | for an all-zero data stream the check over bit 1 fails |
| PayloadEncoder.ThirtyTwoRangeIsCover | src/main.rs:127-133 | every position from 33 to L - 1 is covered by 32 if and only if L is 64 |
| PayloadEncoder.PayloadBitThirtyTwo | src/main.rs:127-133 | in a block of 64 the check over what bit 32 covers is zero |
| PayloadEncoder.PayloadCodewordUnique | src/main.rs:65-142 | a data stream and a length have exactly one payload code word |
| PayloadEncoder.SameLayoutAgree | src/main.rs:71-85 | two blocks laid out from the same data agree at every position the parity writes leave alone |
| PayloadEncoder.CoverBitsAgree | src/main.rs:87-126 | blocks agreeing off the parity positions give equal XORs over what bits 2, 4, 8, 16 cover |
| PayloadEncoder.SameParityBitsSame | src/main.rs:127-140 | blocks agreeing off the parity positions, with equal bits 1-16 and bits 32 and 0 set by the range rules, are equal |
| PayloadEncoder.DataOfPlaced | src/main.rs:71-85 | the data positions below n, read in order, hold the first DataSlots(n) data bits |
| PayloadEncoder.PayloadDataReadBack | src/main.rs:71-85 | a block of power-of-two length L carries L - 1 - log2 L data bits, the message's digits in order padded with false, and they read back as the message whenever they fit |
| PayloadEncoder.ShortMessagesFit | src/main.rs:66-85 | five to seven bytes give a block of 64 with 57 data positions, enough for the whole message |
| PayloadEncoder.PowerOfTwoLengthTruncates | src/main.rs:66-85 | when the byte count is a power of two (from 8 on) the block is exactly 8 * len long and has fewer data positions than the message has bits |
| Bits.IsPow2Iff | src/main.rs:74 | `is_power_of_two` holds of n exactly when n = 2^k for some k |
| Bits.Pow2IsPow2 | src/main.rs:74 | every 2^k passes `is_power_of_two` |
| Bits.NextPowerOfTwo | src/main.rs:66 | the result is a power of two, at least n, and its half is below n |
| Bits.NextPowerOfTwoIsLeast | src/main.rs:66 | no power of two at least n is smaller than the result |
| Bits.Digits | src/main.rs:13-14 | the w-digit binary form of n (`{:011b}`, `{:08b}`) has exactly w digits |
| Bits.DigitsAt | src/main.rs:68-69 | digit k of the w-digit form of n, most significant first, is bit w - 1 - k of n |
| Bits.FromDigits | src/main.rs:13-14 | a number below 2^w written as w binary digits reads back as itself |
| Bits.FromBitsBound | src/main.rs:67-70 | w binary digits read as a number stay below 2^w, so eight of them fit a byte |
| Hamming.RangeXorCount | src/main.rs:61 | the XOR fold over a range of bits is set exactly when the range holds an odd number of set bits, which is also the parity of the counting loops at src/main.rs:127-140 |
| Hamming.StepCountTrueClear | src/main.rs:35-60 | with no set bit from start on, the stride count of set bits is 0 |
| Hamming.StepCount | src/main.rs:86 | `skip(start).step_by(step).count()` over len elements is 0 when start >= len and otherwise between 1 and len - start |
| Hamming.StepCountCeiling | src/main.rs:86 | that count r is the ceiling of (len - start) / step: (r - 1) * step < len - start <= r * step |
| Hamming.StepCountTrue | src/main.rs:35-60 | the count of set bits along `skip(start).step_by(step)` is at most the number of elements the stride visits |
| Hamming.StepOddIsCoverOne | src/main.rs:35-42 | counting set bits at every second position from an odd start has the parity of what bit 1 covers there |
| Hamming.StepOneIsRangeXor | src/main.rs:53-60 | counting set bits from a start to the end has the parity of their XOR |
| Hamming.CoveredListXor | src/main.rs:43-52 | XOR over the list of covered indices equals the XOR over what the parity bit covers |
| Hamming.CoveredListMembers | src/main.rs:43-52 | an index is in the covered list exactly when it is in range and covered |
| Hamming.ZeroSyndrome | src/main.rs:87-126 | a parity bit set to the XOR of what it covers above itself makes the whole check over its positions zero |
| Hamming.EvenParity | src/main.rs:61 | bit 0 set to the XOR of the rest makes the whole block's XOR zero |
| Hamming.CoveredAreData | src/main.rs:87-126 | for p up to 32 every position above p that p covers is a data position, never another parity position |
| Hamming.DataCapacity | src/main.rs:71-85 | a block of power-of-two length n has n - 1 - log2 n data positions |
| Hamming.DataSlotsInjective | src/main.rs:71-85 | distinct data positions receive distinct data bits, later positions later bits |
| Hamming.DataSlotsOnto | src/main.rs:71-85 | each of the first DataSlots(n) data bits lands at some data position below n |

## Left out

- `main` is not part of this model: reading the command-line argument, the usage message and exit, and printing the blocks.
- The digits that `main` computes at the end and never uses are not modelled.
- The message is a Rust `String`; the model takes its UTF-8 bytes, `into_bytes()`, as given, and does not model the text-to-bytes encoding.
- `message.len() * 8` and `next_power_of_two` on `usize` can overflow only for messages near the address-space size; the model uses unbounded integers.
- EncodeMessageLength: a size of 2048 or more makes the source panic; the model requires a size below 2048 instead of modelling the panic.
- EncodeMessage: messages of fewer than five bytes make the source panic on an out-of-bounds index; the model requires at least five bytes, and PayloadLength states why.
- The `String` of `'0'`/`'1'` characters from `format!` is modelled directly as a sequence of booleans.
- The `Vec` built with `with_capacity` and `push` is modelled as an array of the final length written position by position.
- No decoder or error correction exists in the source. The model proves only the parity checks a decoder would run: in the header, those over bits 1, 2, 4 and 8 and the overall parity come out zero; in the payload block, those over bits 2, 4, 8 and 16 and the overall parity come out zero, the one over bit 32 comes out zero only for a block of 64, and the one over bit 1 fails for an all-zero message. Powers of two from 64 up carry no parity, so no check over them is stated.
