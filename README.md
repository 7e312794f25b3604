# MD4 hash: a verified Dafny model

This project models `md4.py`, a pure-Python implementation of the MD4 message
digest (RFC 1320). It has two parts.

- The module-level helpers `mul`, `neg`, `F`, `G`, `H`,
  `left_circular_shift` and `chunk`.
- The class `MD4`. It holds a running four-word `state` and the accumulated
  `message` bytes. `update` appends bytes. `digest` pads the message in
  place, compresses every 64-byte block into the state and packs the state
  as 16 little-endian bytes. `hexdigest` returns those bytes as hexadecimal
  text.

The model has five modules.

- `Words` (`words.dfy`): the 32-bit helpers. A Python integer given to a
  helper is a `Wide` (`bv64`). A result after `& WORD_MASK` is a `Word`
  (`bv32`).
- `Bytes` (`bytes.dfy`): `chunk`, the `struct` formats `<I` and `<Q`, and
  `bytes.hex()`. `struct.pack('<Q', n)` raising for n ≥ 2^64 is the
  `PackOutOfRange` error of a `Result`. The small module `ByteCasts` holds
  the byte/number conversion facts.
- `Padding` (`padding.dfy`): `_get_padding` as a function of the message
  length, and its shape.
- `Rounds` (`rounds.dfy`): the compression function as pure functions over
  the state.
  - The round tables.
  - One step, which is `_round` followed by `_right_circular_shift`.
  - The 48 steps of a block and the feed-forward addition.
  - Several blocks in turn, and the packing of the state.
- `Md4` (`md4.dfy`): the class `MD4`. Its fields are `state: State` and
  `message: seq<Byte>`. Every method modifies them as the Python method
  does and is proved against the pure functions above.
  - `ProcessBlock` keeps the two nested loops of `_process_block`.
  - `Digest` keeps the loop over the blocks.
  - `Md4(m)` is the digest of a fresh object after `update(m)`. The client
    methods `HashOf`, `HashOfParts` and `HexOf` connect the class to it.

Three facts about the code shape the model.

- `_round` stores the new word in `state[0]` and then rotates the state right
  by one. A step therefore turns `[A, B, C, D]` into `[D, new A, B, C]`, the
  register order of RFC 1320. `Rounds.StepShape` states this order.
- `digest` has no guard against a second call. A second call pads the
  already padded message once more and compresses every block again, from
  the state the first call left. `MD4.Digest` states exactly this effect, and
  `Padding.RepadIsOneBlock` gives the length of the second padding.
- `struct.pack('<Q', 8 * len)` in `_get_padding` raises when the bit length
  is 2^64 or more. The model carries that error through `PaddingFor`, `Pad`,
  `Digest` and `Md4`.

## Model

| member | source | states |
|---|---|---|
| Words.Mask | md4.py:2 | `& WORD_MASK` leaves every value that already fits in 32 bits unchanged |
| Words.Mul | md4.py:4-5 | `mul` is the AND of the low 32 bits of each input |
| Words.Neg | md4.py:7-8 | `neg(x)` and the low word of x are disjoint and together cover all 32 bits |
| Words.F | md4.py:10-12 | F is "if x then y else z" bit by bit: where x is 1 it agrees with y, where x is 0 with z |
| Words.G | md4.py:14-16 | G is the bitwise majority: where x and y agree it is their bit, where they differ it is z's bit |
| Words.H | md4.py:18-19 | H is the XOR of the low 32 bits of the three inputs |
| Words.LeftCircularShift | md4.py:21-22 | shifting by 0 or by 32 leaves the word unchanged; a shift above 32 is excluded, because Python raises on the negative count `32 - s` |
| Words.RotatedBit | md4.py:21-22 | the shift is a rotation: bit i of the word lands at bit (i + s) mod 32, for every shift from 0 to 32 |
| Words.RotatedBitLow | md4.py:21-22 | `x << s` moves each bit below 32 - s up by s places |
| Words.RotatedBitHigh | md4.py:21-22 | `x >> 32 - s` brings each of the top s bits down to bit i + s - 32 |
| Words.RotateInverse | md4.py:21-22 | rotating left by s and then by 32 - s restores the word |
| Words.MaskedAdd | md4.py:70 | adding two words as integers and masking the sum is addition modulo 2^32 |
| Words.MaskedSum4 | md4.py:53-56 | the masked integer sum of the four step operands is their sum modulo 2^32 |
| Words.FSelects | md4.py:10-12 | an all-ones selector makes F return y, a zero selector z |
| Words.GMajority | md4.py:14-16 | a value given to G twice is the result |
| Words.HCancels | md4.py:18-19 | two equal inputs of H cancel |
| Words.KnownValues | test.py:6-106 | the helper results the repository's tests expect, including inputs wider than 32 bits |
| Bytes.Chunk | md4.py:24-25 | the pieces of `chunk` concatenate back to the input; none is empty or longer than size; all but the last are full |
| Bytes.ChunkFull | md4.py:24-25 | a length of m whole pieces splits into exactly m pieces of full size |
| Bytes.PackU32 | md4.py:77 | `struct.pack('<I', w)` is four bytes, and they are the base-256 digits of w, least significant first |
| Bytes.UnpackU32 | md4.py:63 | `struct.unpack('<I', b)` reads the four bytes as base-256 digits, least significant first |
| Bytes.UnpackPackU32 | md4.py:63 | unpacking a packed word gives the word back |
| Bytes.PackUnpackU32 | md4.py:63 | packing an unpacked word gives its four bytes back |
| Bytes.LittleEndian | md4.py:42 | the little-endian encoding of a number to a width has exactly that many bytes |
| Bytes.FromLittleEndian | md4.py:42 | the number k little-endian bytes denote is below 256^k |
| Bytes.LittleEndianRoundTrip | md4.py:42 | the eight `<Q` bytes of a number below 2^64 read back as that number |
| Bytes.FromLittleEndianRoundTrip | md4.py:42 | re-encoding the number some bytes denote gives those bytes back |
| Bytes.PackU64 | md4.py:42 | `struct.pack('<Q', n)` succeeds exactly when n < 2^64, and then gives 8 bytes that denote n |
| Bytes.Hex | md4.py:80 | `bytes.hex()` gives two lower-case hexadecimal digits per byte |
| Bytes.FromHex | md4.py:80 | a hexadecimal text of 2k digits reads back as k bytes |
| Bytes.HexRoundTrip | md4.py:80 | the hexadecimal text of some bytes reads back as those bytes, so `hexdigest` loses nothing |
| Padding.ZeroCount | md4.py:41 | the zero run is below 64 bytes and brings 0x80, the zeros and the 8 length bytes to a 64-byte boundary |
| Padding.PaddingFor | md4.py:39-42 | `_get_padding` fails exactly when 8 * len does not fit in 64 bits |
| Padding.Zeros | md4.py:42 | `count * b'\x00'` is count zero bytes |
| Padding.PaddingLength | md4.py:39-42 | when the bit length fits, the padding is 9 bytes longer than its zero run |
| Padding.PaddingShape | md4.py:39-45 | the padded length is a positive multiple of 64; the padding is 0x80, then (55 - len) mod 64 zeros, then 8 * len as 8 little-endian bytes |
| Padding.PaddingMinimal | md4.py:41 | no shorter padding of at least nine bytes would reach a 64-byte boundary |
| Padding.RepadIsOneBlock | md4.py:72-77 | a message of whole blocks, as after a first `digest`, receives exactly one block of padding |
| Padding.PaddedBlockCount | md4.py:39-45 | padding adds one block when the last partial block holds fewer than 56 bytes, and two otherwise |
| Padding.KnownZeroCounts | test.py:109-124 | messages of 56, 0 and 63 bytes get 63, 55 and 56 zero bytes |
| Rounds.RoundConstantsAreRoots | md4.py:29 | round 0 adds no constant; the constants of rounds 1 and 2 are the integer square roots of 2^61 and 3 * 2^60, as RFC 1320 defines them |
| Rounds.WordOrder | md4.py:31-33 | every round reads sixteen word indices below 16 |
| Rounds.Shift | md4.py:31-33 | every rotation amount of the tables is between 1 and 31 |
| Rounds.WordOrderInvolution | md4.py:31-33 | each word order is its own inverse: round 1 reads the 4 x 4 word matrix transposed, round 2 in bit-reversed order |
| Rounds.WordOrderIsPermutation | md4.py:31-33 | each round reads all sixteen message words, each exactly once |
| Rounds.RotatedRight | md4.py:59-60 | `state[-s:] + state[:-s]` moves word i to position (i + s) mod 4; a shift of 0 or above 4 changes nothing |
| Rounds.StoreThenRotate | md4.py:53-60 | storing a word in `state[0]` and rotating right by one gives `[D, new word, B, C]` |
| Rounds.StepSumIsSum | md4.py:53-56 | the masked integer sum A + f(B, C, D) + value + K of a step is that sum modulo 2^32 |
| Rounds.StepShape | md4.py:50-57 | a step turns [A, B, C, D] into [D, rotl(A + f(B, C, D) + value + K, s), B, C] with addition modulo 2^32, f and K being the round's function and constant |
| Rounds.RunStepsAppend | md4.py:66-68 | running two runs of steps in turn is running their concatenation |
| Rounds.RunStepsPrefix | md4.py:66-68 | running the first i + 1 steps is running step i after the first i |
| Rounds.RoundSteps | md4.py:67-68 | each round makes sixteen calls of `_round` |
| Rounds.Schedule | md4.py:66-68 | a block makes 48 calls of `_round` |
| Rounds.ScheduleRound | md4.py:31-33 | calls 16r to 16r + 15 of a block are the sixteen calls of round r, with its word order and shifts |
| Rounds.RunOneMoreRound | md4.py:66-68 | the outer loop's next pass extends the run of steps by the next round |
| Rounds.RoundsAreSchedule | md4.py:66-68 | the nested loops over 3 rounds of 16 steps run the 48 steps of the schedule in order |
| Rounds.FeedForward | md4.py:70 | the feed-forward adds the saved state word by word modulo 2^32 |
| Rounds.BlockWords | md4.py:63 | a 64-byte block gives sixteen words |
| Rounds.BlockWordsRoundTrip | md4.py:63 | the sixteen words, packed back little-endian and concatenated, are the block |
| Rounds.Compress | md4.py:62-70 | compressing a block is the flat 48-step schedule over its words followed by the feed-forward of the state before it |
| Rounds.ProcessBlocksAppend | md4.py:74-76 | compressing two runs of blocks in turn is compressing their concatenation |
| Rounds.ProcessBlocksFirst | md4.py:74-76 | the first block is compressed first, into the state the loop starts from |
| Rounds.ProcessBlocksPrefix | md4.py:74-76 | compressing the first i + 1 blocks is compressing block i into the state after the first i |
| Rounds.Serialize | md4.py:77 | the packed state is 16 bytes |
| Rounds.InitialStateBytes | md4.py:36 | the initial state packed is the bytes 01 23 45 67 89 ab cd ef fe dc ba 98 76 54 32 10, the initial registers of RFC 1320 |
| Rounds.SerializeWords | md4.py:77 | bytes 4i to 4i + 3 of the digest are state word i, least significant byte first |
| Md4.Blocks | md4.py:74 | a padded message splits into its length / 64 blocks of 64 bytes, which concatenate back to it |
| Md4.Md4 | md4.py:72-77 | the digest of a message exists exactly when its bit length fits in 64 bits, and is 16 bytes |
| Md4.MD4.constructor | md4.py:35-37 | a new object has the initial state and an empty message |
| Md4.MD4.GetPadding | md4.py:39-42 | the method computes `PaddingFor` of the current message length, whose shape `PaddingShape` states |
| Md4.MD4.Pad | md4.py:44-45 | on success the padding is appended and the message fills whole blocks; on error nothing changes; the state never changes |
| Md4.MD4.Update | md4.py:47-48 | the bytes are appended to the message and the state is unchanged |
| Md4.MD4.Round | md4.py:50-57 | the new state is one step from the old one, of the shape `StepShape` states |
| Md4.MD4.RightCircularShift | md4.py:59-60 | the new state is the old one rotated s places right |
| Md4.MD4.RunRound | md4.py:67-68 | the inner loop runs the sixteen steps of round r in order |
| Md4.MD4.ProcessBlock | md4.py:62-70 | the new state is the compression of the old state with the block; the message is unchanged |
| Md4.MD4.ProcessBlocksInOrder | md4.py:74-76 | the loop over the blocks compresses each in turn, first to last |
| Md4.MD4.Digest | md4.py:72-77 | the message gains its padding, the state becomes the old state with every block compressed in order, and the result is the new state packed; on error nothing changes |
| Md4.MD4.HexDigest | md4.py:79-80 | the same effect as `Digest`, returning the 32 hexadecimal digits of the packed state |
| Md4.HashOf | md4.py:35-77 | a new object given `update(m)` and then `digest()` returns `Md4(m)` |
| Md4.HashOfParts | md4.py:47-48 | `update(a)` followed by `update(b)` gives the digest of a + b |
| Md4.HexOf | md4.py:79-80 | `hexdigest` of a new object is 32 digits that read back as `Md4(m)` |

## Left out

- `update` encodes a Python `str` as UTF-8 before appending. The model's `MD4.Update` takes bytes. Text encoding is outside the model.
- Python integers outside 0 to 2^64 - 1 given to `mul`, `neg`, `F`, `G` and `H` are not modelled. The model's `Wide` type is a 64-bit vector, so it holds neither integers of 2^64 or more nor negative integers, for which Python's `&` works on an infinite two's complement (`mul(-1, 5) == 5`). Inside the hash every argument is a word below 2^32.
- Words.LeftCircularShift: takes a 32-bit word. The Python function also accepts wider integers, and for them it is not a rotation of the low word, because `x >> 32 - s` brings bits from above bit 31 down into the result (`left_circular_shift(2**32, 1) == 2`). The hash passes only 32-bit words.
- Words.LeftCircularShift: a shift count above 32 is excluded by a precondition rather than modelled as the `ValueError` Python raises. `_round` passes only table values, all below 32.
- Bytes.PackU32: the bytes are tied to the word by 32-bit positional arithmetic (`w == b0 + 256 * b1 + 65536 * b2 + 16777216 * b3` modulo 2^32, which pins each byte since all four are below 256). The contract is not stated through `FromLittleEndian`, whose value is an unbounded integer. `Bytes.UnpackU32` is stated the same way.
- Md4.MD4.Round: its precondition demands a table round number and a shift of at most 32. `_round` raises a `KeyError` for other round numbers.
- Md4.MD4.ProcessBlock: its precondition demands a 64-byte block. `digest` passes only such blocks.
- Md4.MD4.RightCircularShift: the shift count is a natural number. Negative counts are never passed and are not modelled.
- The known-answer comparisons against `Crypto.Hash.MD4` in `test.py` compare with a library that is not part of this model. No concrete digest value is stated.
- The `__main__` block prints a digest. It is I/O and is not modelled.
- The model has no `finalize` guard, because the code has none.
