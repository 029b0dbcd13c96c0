# gos7-logo-client in Dafny

A model of the Go client for the V memory of a Siemens LOGO! controller.
The controller exposes its V memory as data block 1 (DB 1). The client:

- parses textual V-memory addresses such as `V94`, `VW31`, `VD3` and `V2.4`;
- reads one value from the block;
- writes one value to the block;
- writes a batch of values with one read and one write of the covering byte window.

Layout, one module per concern:

| file | module | what it holds |
|---|---|---|
| `wrappers.dfy` | `Wrappers` | `Result`/`Option` and one `Error` constructor per error site of the client |
| `strconv.dfy` | `Strconv` | Go's `strconv.Atoi` on a 64-bit platform, and `Itoa` for rendering addresses |
| `datatypes.dfy` | `DataTypes` | `DataType` as Go's `int`, with its seven named constants and `Size` |
| `address.dfy` | `Address` | `vmAddr`; the four unanchored patterns of `parseTypeByVmAddr`; `NewVmAddrFromString`, as a function and as the loop method; the canonical text of an address and the parse/format round trip |
| `codec.dfy` | `Codec` | the big-endian images written and read by `SetValueAt`/`GetValueAt`; Go's `copy`; the Bit encoder (as written and as intended); `getIntFromBuffer` |
| `effects.dfy` | `Effects` | the pure specification of `Read`, `Write`, `writeToBuffer` and `WriteMany` over a block value, including the block accesses they make, with their properties |
| `client.dfy` | `Client` | the `client` as a class, proved against `Effects` |

The `Client` class keeps:

- the block as a field `db: seq<u8>`;
- a ghost log of every `AGReadDB`/`AGWriteDB` call it makes, in order.

The buffers the Go code allocates with `make([]byte, size)` are arrays that the methods fill in place. `writeToBuffer` works on a slice `buff[offset:]` of the window buffer, so it becomes a method on the array together with the slice's start. Each method's postcondition is its definition in `Effects`: the new block, the new log and the returned error. The properties are proved about those definitions.

The `Client` methods follow the code as written, including the two defects listed under Findings, so that each method can be compared with the Go function it models. The corrected definitions sit beside the as-written ones, with their intended properties proved.

## Model

| member | source | states |
|---|---|---|
| DataTypes.Size | client.go:27-38 | the byte width of a data type: at most 4, and positive exactly for the seven named types; `SizeTable` gives the full table |
| DataTypes.SizeTable | client.go:27-38 | `Size` is positive exactly for the seven named types; it is 1 for Bit and Byte, 2 for Word, Counter and Timer, 4 for DWord and Real, and 0 for any other tag |
| Strconv.Atoi | client.go:73-77 | a parse succeeds only on an optional sign followed by at least one ASCII digit (a bare sign is rejected), and only within the 64-bit range; it gives the decimal value of the digits, negated after `-`; every non-empty digit string within the range is accepted |
| Strconv.AtoiSigned | client.go:73-77 | a sign is accepted, and `-1` stays negative; an empty string, a bare sign and trailing garbage are rejected |
| Strconv.ItoaLength | client.go:42 | a number renders in at most `k` digits exactly when it is below `10^k`, which is what `{1,4}` in the Bit pattern tests |
| Address.MatchesBit | client.go:42 | the pattern `V[0-9]{1,4}\.[0-7]` matched anywhere in the text; `TypeOfBitText`, `TypeOfHighBitText` and `PatternLetters` state what it accepts |
| Address.MatchesByte | client.go:44 | the pattern `V[0-9]+` matched anywhere in the text; `TypeOfByteText`, `BitMatchImpliesByteMatch` and `PatternLetters` state what it accepts |
| Address.MatchesWord | client.go:46 | the pattern `VW[0-9]+` matched anywhere in the text; `TypeOfLetterText` and `PatternLetters` state what it accepts |
| Address.MatchesDWord | client.go:48 | the pattern `VD[0-9]+` matched anywhere in the text; `TypeOfLetterText` and `PatternLetters` state what it accepts |
| Address.PatternLetters | client.go:42-49 | a text matched by any pattern holds a `V`; one matched by the Bit pattern also holds a dot, one matched by the Word or DWord pattern its `W` or `D` |
| Address.ParseType | client.go:40-53 | the result is one of Bit, Byte, Word, DWord, or the unknown-format error |
| Address.BitMatchImpliesByteMatch | client.go:42-45 | every text the Bit pattern matches also matches the Byte pattern, so the order of the cases decides the type |
| Address.IndexOfDigit | client.go:80-81 | the index of the first digit of the text, with no digit before it |
| Address.ParseAddr | client.go:65-92 | the type comes first, then the bit number, then the byte offset; a successful parse has one of the four parseable types |
| Address.NewVmAddrFromString | client.go:65-92 | the method with the scan loop returns exactly `ParseAddr`, including each error |
| Address.FirstField | client.go:70-80 | `strings.Split(addr, ".")[0]`; `FieldsSpec` states what it is |
| Address.SecondField | client.go:70-73 | `strings.Split(addr, ".")[1]` when the split has a second part; `FieldsSpec` states what it is |
| Address.FieldsSpec | client.go:70-73 | the first field is the dot-free prefix ending at the first dot or at the end; a second field exists exactly when the text has a dot, and it is the dot-free text after that dot up to the next dot or the end |
| Address.BitNumber | client.go:71-78 | the bit number `uint8(Atoi(second field))`, or 0 without a dot; `BitNumberSpec` and `BitNumberOfText` state its meaning |
| Address.BitNumberSpec | client.go:71-78 | without a dot the bit number is 0; it fails exactly when a second field exists and `Atoi` rejects it, and the error names that field |
| Address.ByteOffset | client.go:79-89 | the byte offset `uint32(Atoi(...))` of the first field from its first digit on, or 0; `ByteOffsetSpec`, `ByteOffsetTruncates` and `ByteOffsetOfText` state its meaning |
| Address.ByteOffsetSpec | client.go:79-89 | a first field without a digit gives offset 0; a failure happens only when the first field has a digit, and its error is `NotDigits` of exactly the tail of the first field from its first digit on |
| Address.FieldsOf | client.go:70-73 | for `head.field` where neither part has a dot, `strings.Split` gives `head` as the first field and `field` as the second |
| Address.ByteOffsetTruncates | client.go:79-89 | for any non-negative `n` up to the 64-bit maximum, the byte offset of a dot- and digit-free prefix, then `Itoa(n)`, then an empty or dot-led suffix, is `n` cut to 32 bits (`uint32(n)`, i.e. `n mod 2^32`) |
| Address.ByteOffsetOfText | client.go:79-89 | for an `n` that fits in 32 bits, the byte offset of such a text is `n` itself |
| Address.WrappedOffsetExample | client.go:79-89 | `V4294967296` parses as byte 0, bit 0: the offset wraps around without a range check |
| Address.TypeOfByteText | client.go:44-45 | `V<n>` is classified as Byte |
| Address.TypeOfLetterText | client.go:46-49 | `VW<n>` is classified as Word and `VD<n>` as DWord |
| Address.TypeOfBitText | client.go:42-45 | `V<n>.<b>` is a Bit when `n` has at most four digits, and a Byte otherwise |
| Address.BitNumberOfText | client.go:70-78 | the bit number of `V<n>.<b>` is `b` |
| Address.ParsesFormatPrefixed | client.go:65-92 | the text of a byte, word or double-word address parses back to the same address |
| Address.ParsesFormatBit | client.go:65-92 | the text of a bit address parses back to the same offset and bit number; the type stays Bit only below offset 10000 |
| Address.ParseFormatRoundTrip | test/client_test.go:38-53 | every canonical address survives rendering and parsing, as the test addresses `VD3`, `VW31`, `V2.4` and `V94` do |
| Address.LongBitAddressIsByte | client.go:42-45 | a bit address with a five-digit offset parses as a Byte address with the same offset and bit number |
| Address.TypeOfHighBitText | client.go:42-45 | `V<n>.8` and `V<n>.9` fail the Bit pattern, whose bit digit is `[0-7]`, and are classified as Byte |
| Address.ParsesHighBitAsByte | client.go:65-92 | `V<n>.8` and `V<n>.9` parse as a Byte address at offset `n` with bit number 8 or 9 |
| Address.LongBitFieldExample | client.go:42-43 | the unanchored Bit pattern accepts `V2.45`, and the whole second field becomes the bit number: `{Bit, 2, 45}` |
| Address.HighBitDigitExample | client.go:42-45 | `V2.9` falls through to the Byte pattern and gives `{Byte, 2, 9}` |
| Address.NegativeBitFieldExample | client.go:73-77 | `V2.-1` is a Byte address whose bit number `uint8(-1)` is 255 |
| Address.NegativeBitFieldType | client.go:42-45 | `V2.-1` fails the Bit pattern and is classified as Byte |
| Address.ShortHeadOffset | client.go:79-89 | a text whose first field is `V2` has byte offset 2 |
| Address.NoVIsRefused | client.go:40-53 | a text with no `V` matches no pattern, and parsing it fails with the unknown-format error |
| Address.BitFieldNotDigits | client.go:72-76 | a bit field that `Atoi` rejects makes the parse fail with that field as not digits |
| Address.OffsetNotDigits | client.go:80-85 | once the bit field has parsed, an offset part that `Atoi` rejects from its first digit on makes the parse fail with that text as not digits |
| Address.UnknownFormatExamples | client.go:40-53 | `X5` and `VQ10` match no pattern and are refused as an unknown format |
| Address.BitFieldNotDigitsExample | client.go:72-76 | `V2.x` fails on the bit field `x`, which is not digits |
| Address.OffsetNotDigitsExample | client.go:80-85 | `V2x` fails on the offset text `2x`, which is not digits |
| Codec.BigEndian | client.go:184-190 | the assumed `SetValueAt` image: `n` big-endian bytes of the value; `FromBigEndianOfBigEndian` states that it reads back as the value modulo 256^n |
| Codec.FromBigEndian | client.go:201-214 | the assumed `GetValueAt`: the unsigned value of big-endian bytes, below 256^n for `n` bytes |
| Codec.FromBigEndianOfBigEndian | client.go:183-190 | reading back an `n`-byte big-endian image gives the value modulo 256^n |
| Codec.BigEndianOfFromBigEndian | client.go:203-214 | re-encoding the value of a byte string gives the same bytes |
| Codec.CopyInto | client.go:183-190 | Go's `copy`: the length is kept; the first `min` bytes come from the source and the rest are unchanged |
| Codec.ValueBytes | client.go:183-190 | the image has `Size` bytes and, except for Real, reads back as the value truncated to that width |
| Codec.SetBitAsWritten | client.go:178-182 | each bit set in the bit NUMBER is set (for a positive value) or cleared (for zero); every other bit of the byte is kept |
| Codec.Mask | client.go:179 | the mask of the corrected encoder, `1 << bit`, which replaces the bit number that line ORs in: it has exactly bit `bit` set |
| Codec.SetBitIntended | client.go:178-182 | the corrected encoder: exactly bit `bit` is set or cleared, and the rest is kept; a bit number of 8 or more changes nothing |
| Codec.BitAt | client.go:202 | `(b >> bit) & 1` is 0 or 1, is 1 exactly when bit `bit` is set, and is 0 once the shift reaches 8 |
| Codec.Decode | client.go:197-222 | decoding fails exactly for a tag outside the seven types, with the unknown-type error; a Bit decodes to 1 exactly when bit `bit` of the first byte is set (0 for a bit number of 8 or more); a Byte, Word, Counter, Timer or DWord decodes to the big-endian value of its first `Size` bytes |
| Codec.DecodeValueBytes | client.go:203-214 | decoding the image of a Byte, Word, Counter, Timer or DWord value gives the value modulo 2^(8*Size) |
| Codec.DecodeReal | client.go:215-218 | decoding a Real image gives `fromBits(toBits(value))` |
| Codec.BitRoundTripIntended | client.go:178-182 | with the corrected encoder, reading the bit back gives 1 after a positive value and 0 after zero |
| Codec.BitRoundTripAsWrittenFails | client.go:178-182 | as written, writing 1 to bit 4 of a zero byte stores 4, and bit 4 reads back 0 |
| Codec.BitZeroIsNoOp | client.go:178-181 | as written, a write to bit 0 never changes the byte |
| Effects.ReadBlock | client.go:128 | a block read succeeds exactly when the range lies in the block, returns `size` bytes, and otherwise fails with the out-of-block error |
| Effects.ReadBlockBytes | client.go:128 | the bytes a successful read returns are the block's bytes at that range |
| Effects.WriteBlock | client.go:144 | a block write succeeds exactly when the range lies in the block, and keeps the block's length |
| Effects.WriteBlockBytes | client.go:144 | a successful write stores the data at the range and keeps every other byte |
| Effects.BufferEffect | client.go:172-196 | `writeToBuffer` keeps the buffer's length; it fails exactly for an unknown type or a Bit outside the block; it makes one 1-byte read for a Bit and no access otherwise |
| Effects.ReadEffect | client.go:125-136 | `Read` makes one read of `Size` bytes at the address, and succeeds exactly for a known type whose bytes lie in the block |
| Effects.ReadBit | client.go:199-202 | reading a Bit address inside the block gives bit `bit` of the byte at the address, 1 exactly when that bit is set |
| Effects.WriteEffect | client.go:138-148 | a successful `Write` keeps the block's length |
| Effects.WriteThenRead | client.go:138-148 | writing a Byte, Word, Counter, Timer or DWord makes no read and one write of its image; it succeeds exactly when the bytes lie in the block, and reading the address afterwards gives the value modulo 2^(8*Size) |
| Effects.ReadImage | client.go:125-136 | a block holding a value's image at an address reads back as the value modulo 2^(8*Size) |
| Effects.BitWrite | client.go:174-182 | a Bit write reads the byte, then writes back that one byte with the as-written encoder applied |
| Effects.WriteFrame | client.go:144 | a write changes only the `Size` bytes at the address |
| Effects.WriteUnknownType | client.go:191-192 | a write of an unknown type fails before any block access |
| Effects.BitWriteNotReadBack | client.go:174-182 | as written, writing 1 to `V2.4` of a zeroed block stores 4 at byte 2, and `V2.4` then reads 0 |
| Effects.MinByte | client.go:153 | the window's start: no entry's offset is smaller |
| Effects.MaxByte | client.go:154 | no entry's offset is larger |
| Effects.WindowAttained | client.go:153-154 | both window bounds are offsets of actual entries |
| Effects.WindowSize | client.go:155 | every entry starts inside the window of `max - min + 1` bytes |
| Effects.PatchOne | client.go:161-164 | one entry's patch keeps the window's length |
| Effects.PatchAll | client.go:160-165 | the patch loop keeps the window's length |
| Effects.Batch | client.go:155-169 | a successful batch keeps the block's length |
| Effects.WriteManyEffect | client.go:149-152 | an empty batch fails with no block access; a successful batch keeps the block's length |
| Effects.PatchAllIo | client.go:160-165 | the loop makes only reads, and a successful loop makes exactly one 1-byte read per Bit entry, in argument order |
| Effects.BatchIo | client.go:155-169 | a successful batch makes one read of the window, the Bit reads, and one write of the window's new contents |
| Effects.WriteManyIo | client.go:149-170 | a successful `WriteMany` makes exactly that sequence of accesses on the window from the smallest offset |
| Effects.WriteManyUnknownType | client.go:160-164 | a batch holding an entry of unknown type fails and makes no block write |
| Effects.PatchAllUnknown | client.go:160-164 | the loop fails when any entry has an unknown type |
| Effects.PatchAllOk | client.go:160-165 | the loop succeeds when every entry has a known type and the window lies in the block |
| Effects.WriteManySucceeds | client.go:149-170 | a non-empty `WriteMany` succeeds exactly when every entry has a known type and the window lies in the block |
| Effects.BatchSucceeds | client.go:155-169 | a batch on a window holding every entry's offset succeeds exactly when every entry has a known type and the window lies in the block |
| Effects.PatchAllStep | client.go:160-165 | a successful loop is a successful loop on all but the last entry, followed by the last entry's patch |
| Effects.PatchKeeps | client.go:161-164 | a patch keeps every window byte the entry does not cover |
| Effects.PatchSets | client.go:161-164 | a patch sets every covered window byte to the entry's byte |
| Effects.PatchAllUntouched | client.go:160-165 | window bytes that no entry covers come out of the loop unchanged |
| Effects.PatchAllLastWriter | client.go:160-165 | a covered window byte is the byte of the last entry that covers it |
| Effects.LastEntryWrites | client.go:160-165 | the last entry decides the bytes it covers |
| Effects.LastEntryKeeps | client.go:160-165 | the last entry keeps what the earlier entries left in the bytes it does not cover |
| Effects.BatchWindow | client.go:155-169 | a successful batch writes the patched window at its place and keeps every byte outside it |
| Effects.BatchUntouched | client.go:155-169 | a batch writes back, unchanged, every window byte that no entry covers |
| Effects.BatchLastWriter | client.go:155-169 | a batch leaves in a covered window byte the byte of the last entry that covers it |
| Effects.WriteManyFrame | client.go:166 | `WriteMany` changes no byte outside its window |
| Effects.WriteManyUntouched | client.go:157-166 | `WriteMany` writes back, unchanged, every window byte that no entry covers |
| Effects.WriteManyLastWriter | client.go:160-165 | in `WriteMany` the last entry covering a byte decides it: a later overlapping entry wins, and a Bit entry starts again from the block's byte |
| Effects.WriteManyReadBack | client.go:149-170 | as written, after a successful `WriteMany` every Byte, Word, Counter, Timer and DWord entry whose bytes all lie in the `max - min + 1` window, and which no later entry overlaps, reads back as its value modulo 2^(8*Size) |
| Effects.TestBatchWindow | test/client_test.go:55-62 | the window of the test's batch `VD3`, `V2.4`, `V94`, `VW31` starts at byte 2 and is 93 bytes long, so it ends at byte 94 |
| Effects.TestBatchReadBack | test/client_test.go:55-83 | as written, after a successful `WriteMany` of the test's batch, `VD3`, `V94` and `VW31` read back their values (a byte below 256 and a word below 65536, as the test's values below 100 are) |
| Effects.WriteManyImage | client.go:155-165 | as written, all of such an entry's image is in the block after the batch |
| Effects.ShortWindowWrite | client.go:155 | as written, a batch of one Word `0x0102` at byte 0 of `[0, 0]` leaves `[1, 0]` |
| Effects.WindowTooShort | client.go:155 | as written, that Word then reads back as `0x0100` rather than `0x0102` |
| Effects.BitEntryDiscardsEarlierPatch | client.go:160-164 | as written, a Bit entry after a Byte entry on the same byte discards the Byte entry's `0xFF` |
| Effects.Span | client.go:155 | an entry's bytes end after its offset |
| Effects.EndByte | client.go:155 | no entry's bytes end beyond the corrected window's end |
| Effects.EndByteAttained | client.go:155 | the corrected window's end is the end of an actual entry's bytes |
| Effects.WriteManyIntended | client.go:149-170 | the corrected `WriteMany`: an empty batch fails with no access, and success keeps the block's length |
| Effects.WriteManyIntendedSucceeds | client.go:149-170 | the corrected non-empty `WriteMany` succeeds exactly when every entry has a known type and every entry's bytes lie in the block |
| Effects.IntendedOk | client.go:149-170 | with known types and a window inside the block the corrected batch succeeds |
| Effects.IntendedUnknown | client.go:162-164 | an entry of unknown type makes the corrected batch fail |
| Effects.BatchUnknown | client.go:160-165 | a batch whose window holds an entry of unknown type fails, whatever the window, and makes only block reads |
| Effects.IntendedOutOfBlock | client.go:157-159 | a corrected batch with an entry reaching past the block fails at its block read with `OutOfBlock` |
| Effects.IntendedWindow | client.go:153-156 | the corrected window starts at the smallest offset, holds every entry's offset, and the corrected `WriteMany` is the batch on that window |
| Effects.IntendedWordExample | client.go:153-165 | under the corrected window a Word `0x0102` at `VW0` of a 2-byte block is stored and reads back `0x0102` |
| Effects.WriteManyIntendedReadBack | client.go:153-165 | with the corrected window, every Byte, Word, Counter, Timer and DWord entry that no later entry overlaps reads back as its value modulo 2^(8*Size), with no condition on where its bytes end |
| Effects.IntendedImage | client.go:155-165 | with the corrected window, all of such an entry's image is in the block after the batch |
| Effects.BatchImageByte | client.go:155-165 | in a window that holds all of an entry's bytes, each byte of its image survives when no later entry overlaps it |
| Client.SetValueAt | client.go:184-190 | the array from `pos` on becomes Go's `copy` of the value's image into that slice, and the bytes before `pos` are kept |
| Client.ZeroBuffer | client.go:127 | `make([]byte, n)`: a fresh array of `n` zero bytes |
| Client.Client.constructor | client.go:119-122 | a client on data block 1 with the given contents and an empty access log |
| Client.Client.ReadDB | client.go:128 | `AGReadDB` logs the read, copies the block range into the buffer at `at`, and leaves the buffer alone on failure |
| Client.Client.WriteDB | client.go:144 | `AGWriteDB` logs the write and stores the whole buffer, or leaves the block alone on failure |
| Client.Client.WriteToBuffer | client.go:172-196 | the buffer slice from `at` becomes the result of `BufferEffect`, with its accesses logged and its error returned; on an error the buffer is left alone |
| Client.Client.Read | client.go:125-136 | returns `ReadEffect`'s result and logs its accesses |
| Client.Client.Write | client.go:138-148 | the new block, the log and the error are those of `WriteEffect` |
| Client.Client.WriteMany | client.go:149-170 | the new block, the log and the error are those of `WriteManyEffect` |
| Client.Client.WriteWindow | client.go:155-169 | one read of the window, the patches and one write, as `Batch` describes |
| Client.Client.PatchWindow | client.go:160-165 | the loop patches the window buffer as `PatchAll` does, stopping at the first error |
| Client.Client.PatchEntry | client.go:161-164 | one turn of the loop patches the buffer as `PatchOne` does |
| Client.PatchAllSnoc | client.go:160-165 | one more turn extends the loop's run by the next entry's patch |
| Client.PatchAllStops | client.go:162-164 | after the loop fails on a prefix, the rest of the batch changes nothing |

## Left out

- `NewClient` and `Disconnect` (client.go:114-123, 224-226): the TCP connection, rack, slot and TSAP set-up are not modelled. A client is built on a given block value.
- The gos7 transport: the gos7 `Client` and `Helper` implementations are not part of this model. `AGReadDB`/`AGWriteDB` are modelled as copies from and to the block. A range outside the block is an `OutOfBlock` error, standing in for whatever the controller or the transport refuses. Network failures are not modelled.
- The gos7 `Helper` encoders are assumed, not modelled: `SetValueAt` is taken to write the value's big-endian image into the given slice with Go `copy` semantics (bytes past the slice's end are dropped), and `GetValueAt` to read a big-endian value from the slice's first bytes. The short-window finding rests on this assumption.
- `float32` conversion: Real values go through two opaque functions (`RealConv.toBits`, `RealConv.fromBits`). Nothing is proved about the Real round trip beyond `DecodeReal`.
- `unicode.IsDigit`: approximated by the ASCII digits. A non-ASCII Unicode digit in the first field would make Go call `Atoi` and fail; the model skips it.
- Go's `range` over a string yields byte offsets of UTF-8 runes. The model indexes characters, which agrees for ASCII text.
- The error texts of `fmt.Errorf`/`errors.New`: modelled as one `Error` constructor per site. The wrapping prefix "failed parse data type" is not kept.
- `compareVmAddrByte`: not part of this model. `MinByte`/`MaxByte` compare the byte offsets, and ties give the same offset either way.
- Concurrency: a `client` used from several goroutines is not modelled. The log is a ghost record of accesses made in sequence.

## Findings

| source | as written | input that shows it | evidently intended | confidence | as-written member | corrected member |
|---|---|---|---|---|---|---|
| client.go:178-182 | `buff[0] \|= addr.Bit << 0` and `&^=` use the bit NUMBER as the mask | writing 1 to `V2.4` of a zero byte stores 4 (bit 2), and `V2.4` reads back 0 | the mask `1 << addr.Bit`, so that `Read` returns the bit just written | high (not executed) | Codec.BitRoundTripAsWrittenFails | Codec.BitRoundTripIntended |
| client.go:155 | the window is `max - min + 1` bytes, counting only the start of the entry at the largest offset | a batch of one Word `0x0102` at `VW0` writes only byte 0, and `VW0` reads back `0x0100` | a window reaching to the end of the entry whose bytes end furthest | high (not executed) | Effects.WindowTooShort | Effects.WriteManyIntendedReadBack |
