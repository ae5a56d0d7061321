# A verified model of the jba/huffman core

This is a Dafny model of the deterministic core of the Go package `huffman`. It covers six parts of the package:

- **Code-length serialiser.** `Code.Marshal` writes one magic/version byte (`0b1100_0000`) followed by run-length bytes. There are three layouts: `RRRRRRR0` for length 0, `RRLLLL01` for lengths 1–16 and `RRRRLL11` for lengths 17–20. `UnmarshalCode` reads the lengths back and rebuilds the values canonically.
- **Canonical values.** `assignValues` follows section 3.2.2 of RFC 1951. It counts the codes of each length, derives the first value of each length, and then hands out consecutive values in symbol order.
- **Building and querying a Code.** This part is the validation in `NewCode`, the lookup `Code.code`, and the frequency counting of `CodeBuilder` (`Write`, `growFreqs`, `Code`).
- **Bit writer.** The `bitWriter` of `bitio.go` packs 1–32-bit values least significant bit first. Each time more than 32 bits are pending it emits four little-endian bytes. `flush` zero-pads the last byte on its high side. The writer keeps the first error and skips every write after it.
- **Encoder.** The `Encoder` looks each symbol up in the Code and hands its bits to the bit writer.
- **Decode table.** `buildTable` and `table.add` fill the 256-slot table. This part is modelled as written, next to the table the comment at huffman.go:309-316 describes.

## Modules

- **HuffmanTypes** (`types.dfy`): `byte`, `u32`, the uint32 wrap-around `Wrap`, `Pow2`, `BitCode`, `Code` and the error results.
- **Bits** (`bits.dfy`): bit strings least significant bit first (`BitsOf`, `BytesToBits`), plus the arithmetic about them.
- **BitIO** (`bitio.dfy`): the class `BitWriter`.
  - The underlying `io.Writer` is a `Sink` function. It maps the bytes handed over so far and the next buffer to the write's error.
  - The field `out` records every buffer handed over.
  - A ghost `stream` holds every bit written, together with the padding of each flush.
  - `Valid()` requires `nbits <= 32`. While no error has occurred, it also requires that `out`'s bits followed by the pending bits equal `stream`.
- **BitOracle** (`oracle.dfy`): the test oracle `bitstring` and the `%08b` rendering of `testBitWriter`. `TestBitWriter` shows that they agree for every input.
- **Canonical** (`canonical.dfy`): `AssignValues` works in place on an `array<BitCode>`. Each of its three loops is a helper method with its own specification function:
  - `CountLengths` is proved against `Wrap(Count(..))`, the uint32 count of each length.
  - `FirstValues` is proved against `FirstValue`, the first value of each length.
  - `HandOutValues` is proved against `Assigned`, the codes with their values handed out.

  `AssignValues` chains them, so the array ends as `Assigned` of its old contents. The Kraft inequality on the lengths makes the canonical code prefix-free.
- **CodeFormat** (`marshal.dfy`): `Marshal` and `UnmarshalCode` as loops over sequences, against the functions `Marshalled` and `Unmarshalled`. It also holds the round trip and the golden vectors of `TestCodeMarshal`.
- **Codes** (`codes.dfy`): `NewCode`, `Code.code`, and the class `CodeBuilder`, whose `freqs` field is a `seq<nat>` grown and incremented in place.
- **Encoding** (`encoder.dfy`): the class `Encoder` over a `BitWriter`, and `TestEncoder`.
- **DecodeTable** (`table.dfy`): `Add` and `BuildTable` on an `array<Action>` of 256 slots.

The source defines `WriteBits` (bitio.go:32), but its callers call it `writeBits`. Both names are one operation here, `BitIO.BitWriter.WriteBits`.

Two points of the decode table follow the code rather than its comments:
- The comment at huffman.go:310-313 has the decoder consume `len` bits of the index byte and build a new byte from the remainder, so a code's slots are the bytes that begin with it. The code indexes `t[val+i]` for every symbol, unused ones included. That behaviour is under "## Findings".
- The comment at huffman.go:315-316 describes chained sub-tables for codes longer than 8 bits. The code panics there (huffman.go:339), so the model makes `len <= 8` a precondition.

## Model

| member | source | states |
|---|---|---|
| CodeFormat.Marshal | huffman.go:62-112 | For lengths all at most 20, the output is the magic byte followed by each maximal run of equal lengths encoded in turn (`Marshalled`). |
| CodeFormat.RunEnd | huffman.go:90-93 | The returned index ends the maximal run of lengths equal to the one at i. |
| CodeFormat.RunLen | huffman.go:89-93 | The run length is at least 1, every entry in the run equals the first, and the entry after the run differs. |
| CodeFormat.AppendRun | huffman.go:95-104 | The switch picks the repeat width and tag bits for the length and appends that run's bytes. |
| CodeFormat.AppendRep | huffman.go:75-85 | The closure `rep` appends exactly `Rep(R, k, bottom)`: full pieces of 2^k, then the remainder. |
| CodeFormat.RepByte | huffman.go:79 | A repeat byte splits back into its repeat field (the high k bits) and its bottom bits. |
| CodeFormat.RepShape | huffman.go:75-85 | `rep` emits R / 2^k bytes with field 2^k - 1, plus one byte with field R mod 2^k - 1 exactly when the remainder is nonzero. |
| CodeFormat.EncodeRunBytes | huffman.go:75-85 | Every byte written for a run decodes to the run's length, with a repeat count between 1 and 2^k. |
| CodeFormat.DecodeByte | huffman.go:124-135 | Every byte decodes to a length of at most 20 and a repeat count of at least 1, so decoding cannot fail. |
| CodeFormat.DecodeRepByte | huffman.go:124-135 | A byte built by `rep` for length L and field f decodes to (L, f + 1). |
| CodeFormat.Expand | huffman.go:123-140 | The lengths read from any bytes are all in 0..20. |
| CodeFormat.ReadLengths | huffman.go:122-140 | The loop builds one zero-valued bitcode per decoded repeat, in byte order (`Unvalued(Expand(rest))`). |
| CodeFormat.Unmarshalled | huffman.go:115-143 | The result is `EmptyData` exactly for empty input and `BadMagic` exactly for a wrong first byte. Otherwise it is a canonical code whose lengths are the decoded ones. |
| CodeFormat.UnmarshalCode | huffman.go:115-143 | The method, with its array `assignValues`, returns `Unmarshalled(data)`. |
| CodeFormat.EncodeRunExpands | huffman.go:75-85 | Decoding the bytes of a run of R copies of L gives back R copies of L. |
| CodeFormat.BodyRoundTrip | huffman.go:87-109 | Decoding the run bytes of any length sequence in 0..20 gives back that sequence. |
| CodeFormat.MarshalKeepsLengths | huffman_test.go:119-130 | Unmarshalling a marshalled code succeeds and yields the same lengths, entry by entry. |
| CodeFormat.MarshalRoundTrip | huffman.go:114-143 | A canonical code marshalled and unmarshalled is the same code, values included. |
| CodeFormat.MarshalThenUnmarshal | huffman_test.go:106-130 | The first byte is the magic byte, and the decoded code has as many entries as the original, with the same lengths. |
| CodeFormat.GoldenSingleZero | huffman_test.go:97 | [0] gives [0b00]. |
| CodeFormat.GoldenThreeZeros | huffman_test.go:98 | [0, 0, 0] gives [0b100]. |
| CodeFormat.GoldenLongRun | huffman_test.go:99 | 130 zeros give [127 << 1, 1 << 1]. |
| CodeFormat.GoldenShortRuns | huffman_test.go:101 | [1, 2, 2, 5, 5, 5] gives [0b00_0000_01, 0b01_0001_01, 0b10_0100_01]. |
| CodeFormat.GoldenSplitRun | huffman_test.go:102 | Ten 3s then an 11 give [0b11_0010_01, 0b11_0010_01, 0b01_0010_01, 0b00_1010_01]. |
| CodeFormat.GoldenLongLengths | huffman_test.go:104 | [20, 20, 17] gives [0b0001_11_11, 0b0000_00_11]. |
| Canonical.AssignValues | huffman.go:145-164 | The array ends up as `Assigned` of its old contents: each used code gets the first value of its length plus its rank among symbols of that length, in uint32 arithmetic. |
| Canonical.CountLengths | huffman.go:148-151 | counts[L] is the uint32 number of codes of length L. |
| Canonical.FirstValues | huffman.go:152-157 | After counts[0] is cleared, nextVal[L] is the first value of length L. |
| Canonical.HandOutValues | huffman.go:158-163 | Each used symbol, in order, takes nextVal of its length. The array then equals `Assigned` of its old contents. |
| Canonical.FirstValueStep | huffman.go:153-156 | The closed form of the first value satisfies the loop's recurrence next[L] = (next[L-1] + count[L-1]) << 1, with count[0] = 0 and uint32 wrap-around. |
| Canonical.AssignedLengths | huffman.go:158-163 | Assigning values changes no length. |
| Canonical.ConsecutiveValues | huffman.go:160-161 | Between two symbols of the same nonzero length, the later value is the earlier one plus the number of such symbols from the earlier one up to the later one (uint32). |
| Canonical.NextValue | huffman.go:160-161 | The next symbol of the same nonzero length gets the value one higher. |
| Canonical.ValuesOfEachLength | huffman.go:158-163 | The values of length L, in symbol order, are the first value of L counting up by one. Under the Kraft inequality this happens without wrap-around. |
| Canonical.AssignedValue | huffman.go:152-161 | Under the Kraft inequality a used code's value is 2·Level(L-1) plus its rank, which is below Level(L). |
| Canonical.CanonicalFits | huffman.go:158-163 | Under the Kraft inequality every assigned value fits in its code's length. |
| Canonical.NotPrefix | huffman.go:145-164 | Under the Kraft inequality no assigned code is a prefix of another symbol's code. |
| Canonical.CanonicalPrefixFree | huffman.go:145-164 | Under the Kraft inequality the assigned codes form a prefix code in the sense of RFC 1951 (most significant bit first). |
| Canonical.AssignedIsCanonical | huffman.go:141-142 | The codes UnmarshalCode builds are canonical, and assigning values again changes nothing. |
| Canonical.RfcExample | huffman_test.go:134-141 | The lengths [2, 1, 3, 3] get the values [2, 0, 6, 7]. |
| Canonical.AssignValuesExample | huffman_test.go:134-141 | The method run on the array of the RFC 1951 example yields [{2,2}, {0,1}, {6,3}, {7,3}]. |
| Codes.MaxFrequenciesIsPow2 | huffman.go:38 | The frequency limit is 1 << maxCodeLen. |
| Codes.FirstNegative | huffman.go:41-45 | It finds nothing exactly when every frequency is at least 0. Otherwise it returns the first negative index. |
| Codes.NewCode | huffman.go:37-57 | The result is an error exactly when there are more than 2^20 frequencies or a negative one. Too many is checked first and gives `TooManyFrequencies`; any other error is `NegativeFrequency`. Otherwise it is the code the generator makes of the int32 frequencies. |
| Codes.Int32 | huffman.go:47-50 | int32(f) lies in the int32 range and is f itself when f is in range. |
| Codes.Int32sKeep | huffman.go:47-50 | The conversion changes no frequency below 2^31. |
| Codes.CodeOf | huffman.go:168-173 | A symbol at or above the uint32 table length gets the zero bitcode, and so does any symbol past the table. Below the table length of a table shorter than 2^32, the symbol gets its own entry. A nonzero length always comes from the symbol's own entry. |
| Codes.CodeOfHugeTable | huffman.go:169 | With 2^32 + 1 codes the uint32 length wraps to 1, so symbol 1 gets the zero bitcode. |
| Codes.CodeOfUsed | huffman.go:168-173 | The bitcode has nonzero length exactly when the symbol is below the uint32 table length and its entry is used. |
| Codes.Grown | huffman.go:214-223 | After growing, the table is longer than n, keeps its old entries, and new slots are 0. The comparison uses the uint32 length. |
| Codes.CodeBuilder.constructor | huffman.go:191-193 | A new builder keeps the split function and has no frequencies. |
| Codes.CodeBuilder.GrowFreqs | huffman.go:214-223 | The loop appends zeros until `Grown(old freqs, n)`. |
| Codes.CodeBuilder.Write | huffman.go:197-211 | It returns len(data) and no error. The frequencies become the old ones with each symbol of the input counted in order. |
| Codes.CodeBuilder.Code | huffman.go:226-228 | It returns `NewCode` of the counts. Counts are never negative, so the only possible error is too many frequencies. |
| Codes.TallyCounts | huffman.go:197-223 | After counting, every symbol seen has a slot, and each old slot has grown by its symbol's occurrences. New slots hold exactly the occurrences. |
| Codes.TallyLength | huffman.go:214-223 | The table grows no further than the largest symbol seen needs. |
| BitIO.AfterBits | bitio.go:32-48 | One WriteBits call on the writer's state. A kept error changes nothing. Otherwise the bytes handed over only grow, by at most 4. A new error has come from handing exactly one 4-byte word to the writer, and it is the writer's answer for that word. |
| BitIO.LowBytesBits | bitio.go:39-43 | The four bytes WriteBits emits carry the low 32 pending bits, least significant byte first. |
| BitIO.FlushBytesBits | bitio.go:55-68 | flush emits ceil(n/8) bytes, at most 4 for n <= 32. Their bits are the n pending bits followed by zero padding to the byte boundary. |
| BitIO.BitWriter.constructor | bitio.go:27-29 | A new writer has no error, nothing pending and nothing written. |
| BitIO.BitWriter.Write | bitio.go:70-75 | With an error kept, nothing changes. Otherwise the sink's result becomes the error and the buffer is handed over. |
| BitIO.BitWriter.WriteBits | bitio.go:32-48 | Keeps `nbits <= 32` and the stream abstraction. With an error kept, nothing changes. Otherwise b's n bits join the stream. Above 32 pending bits, the low 4 bytes are emitted, the rest is shifted down and nbits drops by 32. Otherwise the bits accumulate. The new state is `AfterBits` of the old one. |
| BitIO.BitWriter.Flush | bitio.go:55-68 | Hands over `FlushBytes` of the pending bits, leaves nothing pending, and adds the padding to the stream. With an error kept, it hands nothing over. |
| BitIO.BitWriter.Close | bitio.go:50-53 | Flushes, then returns the kept error. |
| BitIO.BitWriter.Err | bitio.go:77-79 | Returns the kept error and changes nothing. |
| BitIO.Drained | bitio.go:21-24 | With nothing pending and no error, the bytes handed over are the whole stream, which ends on a byte boundary. |
| BitOracle.BinaryIsMsb | bitio_test.go:74 | `%032b`-style printing is the value's bits, most significant first. |
| BitOracle.RightmostBinary | bitio_test.go:75-76 | The rightmost n characters of the 32-digit printout are the n-digit printout. |
| BitOracle.ChopMsb | bitio_test.go:81-92 | Chopping the reversed stream into 8-character groups from the right, with the last group zero-filled, gives each byte's `%08b`. |
| BitOracle.Bitstring | bitio_test.go:71-94 | The oracle string is the whole written stream, most significant bit first, cut into groups of 8 digits from the right and joined with ':'. |
| BitOracle.OracleAgrees | bitio_test.go:71-94 | The oracle `bitstring` equals the rendering of any bytes that hold the written stream followed by less than a byte of padding. |
| BitOracle.TestBitWriter | bitio_test.go:43-69 | For any values and widths up to 32, writing them all and closing gives no error and exactly the oracle's string. |
| Encoding.EncodedAppend | huffman.go:286-290 | Encoding a concatenation of symbols encodes the parts one after the other. |
| Encoding.Encoder.constructor | huffman.go:241-246 | Without a split function, a code of at most 256 symbols is required. The encoder starts over a fresh bit writer on the given writer. |
| Encoding.Encoder.WriteSymbol | huffman.go:275-283 | A symbol with a code (the panic excluded) adds exactly its code's bits to the stream. A kept error changes nothing, and a writer that never fails raises no error. The writer's new state is one `AfterBits` step on the code, so a write error it raises is kept. |
| Encoding.Encoder.WriteSymbols | huffman.go:286-290 | The stream grows by the encoding of all the symbols, in order. The writer's new state, error and bytes handed over included, is `AfterSymbols` of its old state. |
| Encoding.Encoder.WriteBytes | huffman.go:264-271 | Without a split function, the stream grows by the encoding of the bytes as symbols. The writer's new state is `AfterSymbols` of the bytes as symbols. |
| Encoding.Encoder.Write | huffman.go:248-259 | It returns len(data) and no error. The stream grows by the encoding of the split function's symbols, or of the bytes when there is none. The writer's new state, including any error the writer raised, is `AfterSymbols` of those symbols, which leaves that error for Close to report. |
| Encoding.AfterSymbolsAppend | huffman.go:286-290 | Writing a concatenation of symbols writes the parts one after the other. |
| Encoding.ErrorKept | bitio.go:33-35 | Once an error is kept, writing more symbols changes nothing. |
| Encoding.ErrorFromSink | bitio.go:70-75 | The bytes handed over only grow, and an error kept after writing symbols is the writer's answer to some 4-byte word handed over after the earlier bytes. |
| Encoding.NoErrorFromNeverFails | bitio.go:70-75 | A writer that never fails leaves no error after any symbols. |
| Encoding.ExamplePrefix | huffman.go:275-283 | Under the test code, the first k <= 4 bytes of [0 1 2 3 0] leave 8k bits pending, nothing handed over and no error. |
| Encoding.ExampleHandsOverWord | bitio.go:38-46 | The fifth byte hands over the first 4-byte word, and the writer's answer for it is the error kept. |
| Encoding.FailingWriterExample | huffman.go:251 | With a writer that fails on any 4-byte word, Write of [0 1 2 3 0] returns 5 and no error, and Close returns the writer's error. |
| Encoding.Encoder.Close | huffman.go:293-295 | Flushes the bit writer, handing over the pending bytes, and returns its error. With no error kept before, that error is the writer's result for the final buffer. |
| Encoding.ExampleCode | huffman_test.go:19-26 | The test code: four 8-bit codes, each equal to its symbol. |
| Encoding.IdentityEncoded | huffman_test.go:17-18 | With every code 8 bits long and equal to its byte, the encoding of bytes is the bytes' own bits. |
| Encoding.WriteTwo | huffman_test.go:28-32 | Two writes into a bytes.Buffer give no error and leave the stream equal to the bits of both pieces. |
| Encoding.WriteTwice | huffman_test.go:28-39 | With such a code, two writes and Close produce exactly the concatenated input, and no error. |
| Encoding.EncoderExample | huffman_test.go:16-40 | TestEncoder: the bytes [1, 3, 2, 0], written in two pieces, come out as [1, 3, 2, 0] with no error. |
| DecodeTable.EmptyTable | huffman.go:326 | A fresh table holds the zero action in all 256 slots. |
| DecodeTable.Add | huffman.go:333-341 | For len <= 8, the 2^(8-len) slots from val on hold (sym, len) and every other slot is unchanged. |
| DecodeTable.BuildTable | huffman.go:325-331 | The table is `add` applied for every symbol in order, used or not. The symbol index is converted to a uint32, wrapping for tables of 2^32 codes or more. |
| DecodeTable.UnusedLastSymbolFillsAll | huffman.go:327-336 | When the last symbol has no code, every slot of the built table names it (as a uint32) with length 0. |
| DecodeTable.UnusedSymbolExample | huffman.go:327-336 | The RFC 1951 code with a fifth, unused symbol builds a table whose every slot is (4, 0). |
| DecodeTable.UnshiftedExample | huffman.go:335-336 | On the RFC 1951 code, slot 0b0000_0111 decodes as D (not B), and slot 0b1100_1000 as nothing (not C). |
| DecodeTable.BlockIsRange | huffman.go:309-313 | The slots whose first len bits are the code form the range val·2^(8-len) .. val·2^(8-len) + 2^(8-len). |
| DecodeTable.SharedSlot | huffman.go:309-313 | A slot in the blocks of two codes shows that the shorter code is a prefix of the longer one. |
| DecodeTable.IntendedTableCorrect | huffman.go:309-313 | For a prefix code with lengths of at most 8, the shifted table maps every slot of a used symbol's block to that symbol and its length. |
| DecodeTable.IntendedTableRest | huffman.go:309-313 | Slots in no used symbol's block keep the zero action. |
| DecodeTable.CanonicalTable | huffman.go:302-313 | For canonical codes of at most 8 bits obeying the Kraft inequality, the shifted table decodes every code's block to its symbol. |
| DecodeTable.IntendedExample | huffman.go:309-313 | On the RFC 1951 code the shifted table decodes 0b0000_0111 as B and 0b1100_1000 as C. |

## Left out

- Huffman length generation: `newHuffmanEncoder` and `generate` (huffman.go:46, 51) are not part of this model. `NewCode` takes them as a `Generator` function parameter, and that parameter also covers the copying of huffman.go:52-55.
- The hex golden outputs of `TestEncodeDecode` depend on that generation and on file I/O.
- `bitReader` (`newBitReader`, `readBits`, `peek`) is not part of this model, because no file defining it is available.
- `Decoder.Read`, `DecodeSymbols` and `SetEncoded` return fixed values and hold no logic.
- `NewDecoder` only wraps `buildTable` in a struct, and that struct is not modelled.
- Chained tables for codes longer than 8 bits: `add` panics there, so `DecodeTable.Add` requires `len <= 8`.
- DecodeTable.Add: also requires `val + 2^(8-len) <= 256`. Without it the Go index would go out of range and panic.
- The `io.Writer` is a `Sink` function of the history and the next buffer, giving the write's error. Partial writes and the byte count it returns are not modelled.
- A `SplitFunc` is an `Option` of a function from bytes to symbols, so its behaviour is arbitrary.
- Panics become preconditions:
  - `Marshal` requires lengths of at most 20.
  - `NewEncoder` requires at most 256 codes when there is no split function.
  - `WriteBytes` requires that there is no split function.
  - `WriteSymbol` requires a code of nonzero length.
  - `assignValues` requires lengths of at most 20, because it indexes `counts` by length.
- Encoding.Encoder.constructor: requires every code to have at most 32 bits and a value that fits them, which Go does not check. `WriteBits` assumes this (bitio.go:31). Canonical codes satisfy it under the Kraft inequality (`Canonical.CanonicalFits`).
- BitIO.BitWriter.WriteBits: requires `n <= 32` and `b < 2^n`, which the source states as an assumption.
  - The 64-bit accumulator is an unbounded `nat`. With `nbits <= 32` and `n <= 32` it never exceeds 64 bits, so nothing is lost.
- Codes.TallyLength: requires that no symbol is 2^32 - 1 and that the table is shorter than 2^32. For such a symbol, the uint32 length in `growFreqs` wraps. `Grown` models that wrap, but the lemma says nothing about it.
- Codes.CodeBuilder.Write: frequencies are unbounded naturals. An `int` that overflows after 2^63 counts is not modelled.
- Codes.NewCode: `int32(f)` is modelled with its wrap-around (`Int32`). What the generator does with the converted values is outside the model.
- Each loop of a large function is a helper method of its own, with the same effect:
  - `assignValues` becomes `CountLengths`, `FirstValues` and `HandOutValues`.
  - Marshal's run scan becomes `RunEnd`, its switch `AppendRun`, and `rep` `AppendRep`.
  - `UnmarshalCode`'s loop becomes `ReadLengths`, on a `seq`.
- Marshal's `buf`, UnmarshalCode's `codes` and the writer's output are sequences that the methods reassign, not slices with capacities. `slices.Grow` only reserves capacity, so it has no counterpart.
- `TestWriteBits` draws random inputs. `BitOracle.TestBitWriter` covers every input instead.
- The encoder hands a code's value to the bit writer least significant bit first. A prefix code is prefix-free most significant bit first, so the stream does not carry the codes in RFC 1951 bit order. This is stated as written. No decoder exists to test it against.

## Findings

| source | as written | input that shows it | evidently intended | confidence | as-written member | corrected member |
|---|---|---|---|---|---|---|
| huffman.go:327-328 | `buildTable` calls `add` for every symbol, including unused ones of length 0. Such a call fills all 256 slots from its value 0. | The RFC 1951 code {2,2}, {0,1}, {6,3}, {7,3} plus an unused fifth symbol {0,0}: every slot becomes (4, 0). | Skip symbols of length 0 and fill only the slots of used codes. | not executed; medium, because the decoder is unfinished | DecodeTable.UnusedSymbolExample | DecodeTable.IntendedTableCorrect |
| huffman.go:335-336 | `add` writes slots `val + i`, so a code's block starts at its value rather than at its value shifted into the high bits. | The RFC 1951 code {2,2}, {0,1}, {6,3}, {7,3}: slot 0b0000_0111, which begins with B's code 0, holds D. Slot 0b1100_1000, which begins with C's code 110, stays empty. | Write slot `val << (8 - len) + i`, the slots whose first `len` bits are the code. | not executed; medium, because the decoder is unfinished | DecodeTable.UnshiftedExample | DecodeTable.CanonicalTable |
