# PNG chunk tool: the chunk layer

This project models the `pnglib` package of a small Go command-line tool. The
tool reads a PNG image, lists its chunks, and splices new chunks into it. A
spliced chunk can carry a payload as sent, or XOR-encrypted with a repeating
key. The tool can also XOR-decrypt a chunk it finds at a given offset.

A PNG file is an eight-byte signature followed by chunks. Section 3.2 of
RFC 2083 lays out each chunk as:

- a four-byte length;
- a four-byte type;
- the data;
- a four-byte CRC-32 of the type and the data.

All integers are big endian.

The model has these modules:

- `Bytes`: bytes and 32/64-bit words, and their big-endian images.
- `Bits`: XOR on integers.
- `Crc32`: the CRC-32 of section 3.4 of RFC 2083.
- `ByteReader`: the `bytes.Reader` class, a byte slice with a cursor.
- `Strconv`: `strconv.ParseInt`, base 10 and 64-bit.
- `Encoders`: the XOR cipher.
- `Chunks`: the chunk record, decoding and encoding it, the signature check, how a type is shown and classified, and the chunk walk, all as values.
- `Write`: WriteData, as the byte sequence it writes.
- `Commands`: the `MetaChunk` class that drives all of this step by step, and `ProcessSpec`, the value `ProcessImage` computes.

Each Go method that updates `MetaChunk` or the reader is a Dafny method.
So is each Go loop. Each such method is proved to compute a function, and the
properties are proved as lemmas about that function.

Where the code behaves in a way its names or RFC 2083 would not suggest, the model follows the code:

- **The type string** is `%x` of the 32-bit type code, hex-decoded with errors ignored.
  - `%x` prints no leading zero. So a type whose first byte is below 0x10 is shown shifted by a nibble and is at most three bytes long (`Chunks.TypeToStringShifted`).
  - Such a type is therefore never "IEND".
- **A new chunk's Size** is `uint32(len(Data))`, which wraps at 2^32. No "payload too large" error exists.
- **WriteData with an offset past the end** of the image pads with zero bytes: `make` zeroes the buffer and `Read` fills only part of it.
- **An offset that is not a number** makes WriteData return early, and ProcessImage ignores that error. The run succeeds and writes nothing.
  - On the decode path the parse error is ignored too, and its value 0 is used as the offset. The chunk is then read from the start of the signature.
- **An empty key** makes `i % len(key)` panic only when there is at least one byte to transform. An empty payload with an empty key is fine.
- **Fatal errors become `Err` values.** `log.Fatal`, run-time panics and returned errors all become an `Err` carrying one `Results.Error` value, instead of ending the process.

Within the chunk layer, no condition is laid on the input beyond what the
code itself demands, and every fatal error appears as an `Err`. The one
precondition is on the walk (`Chunks.WalkFrom`, `Commands.MetaChunk.Walk`),
which starts from a cursor inside the image; validate always leaves it
there. The file-system errors, the `io.Copy` error and allocation failure
are outside the model; see "## Left out".

## Model

| member | source | states |
|---|---|---|
| Bytes.Zeros | pnglib/write.go:25 | `make([]byte, n)`: n bytes, every one of them zero |
| Bytes.FromBE32BE32 | pnglib/commands.go:163-168 | a uint32 written big endian and read back is the same value |
| Bytes.BE32FromBE32 | pnglib/commands.go:226-229 | four bytes read as a big-endian uint32 and written back are the same bytes, in order |
| Bytes.BE64FromBE64 | pnglib/commands.go:128-136 | the eight header bytes survive `binary.Read` into a uint64 and `PutUint64`, in the same order |
| Bits.XorBitsUndo | pnglib/encoders.go:6 | XORing twice with the same bits gives back the low k bits of the input |
| Bits.Xor8Undo | pnglib/encoders.go:6 | `(a ^ b) ^ b == a` on bytes |
| Crc32.ChecksumIEEE | pnglib/commands.go:223 | `crc32.ChecksumIEEE`, bit by bit after section 3.4 of RFC 2083; it has no contract of its own, and its properties are stated by Crc32.UpdateBounded and Crc32.ChecksumInverts |
| Crc32.UpdateBounded | pnglib/commands.go:223 | the CRC register stays below 2^32 through any byte string |
| Crc32.ChecksumInverts | pnglib/commands.go:223 | the checksum is the final register with all 32 bits inverted |
| ByteReader.Take | pnglib/commands.go:163-190 | a fixed-size read succeeds exactly when no bytes are asked for or enough remain; it gives exactly n bytes, and otherwise end of input for the field being read |
| ByteReader.Reader.constructor | pnglib/reader.go:24 | a new reader holds the given bytes with its cursor at 0 |
| ByteReader.Reader.ReadFull | pnglib/commands.go:164 | `binary.Read`: the result is the bytes at the cursor, or end of input; the cursor moves by n on success and to the end on a short read |
| ByteReader.Reader.Read | pnglib/write.go:26 | copies min(len(buf), unread) bytes from the cursor into buf, leaves the rest of buf as it was, and advances the cursor by that count |
| ByteReader.Reader.Seek | pnglib/write.go:29-31 | a target before the start is refused and the cursor stays; any other target, past the end included, becomes the cursor and is returned |
| ByteReader.Reader.WriteTo | pnglib/write.go:32 | `io.Copy` hands over exactly the unread bytes and leaves the cursor at the end |
| Strconv.ParseInt | pnglib/write.go:14-17 | success only on a nonempty string, with a value in the int64 range; on an error the value is 0 or an int64 bound |
| Strconv.ParseIntDecimal | pnglib/write.go:14 | every offset written in decimal parses back to itself |
| Strconv.ParseIntNegative | pnglib/write.go:14 | `-` followed by decimal digits parses to the negative value |
| Strconv.ParseIntRejectsNonDigit | pnglib/write.go:14-17 | a character that is not a digit, and not a leading sign, is a parse error |
| Encoders.Xor | pnglib/encoders.go:3-8 | the reference transform, byte i XORed with key byte i mod len(key); it has no contract of its own, and it is tied to the loop by Encoders.EncodeDecode and to itself by Encoders.XorInvolution and Encoders.XorExample |
| Encoders.XorInvolution | pnglib/encoders.go:3-19 | encoding with a key, then decoding with the same key, gives the input back |
| Encoders.XorBytesExample | pnglib/encoders.go:6 | `0x41 ^ 0x4B == 0x0A` and `0x42 ^ 0x4B == 0x09` |
| Encoders.XorExample | pnglib/encoders.go:3-8 | "AB" with key "K" gives 0A 09, and 0A 09 with the same key gives "AB" back |
| Encoders.EncodeDecode | pnglib/encoders.go:3-9 | the loop fails exactly when the key is empty and the input is not; otherwise its output has the input's length and byte i is `input[i] ^ key[i % len(key)]` |
| Encoders.XorEncode | pnglib/encoders.go:12-14 | the repeating-key transform, or the empty-key error |
| Encoders.XorDecode | pnglib/encoders.go:17-19 | the same transform, so it undoes XorEncode |
| Chunks.Marshal | pnglib/commands.go:109-125 | a chunk image is 12 + len(Data) bytes: Size, Type, Data and CRC, big endian, at fixed positions |
| Chunks.ChunkSize | pnglib/commands.go:211-213 | `uint32(len(Data))`: the data length itself whenever it fits in a uint32 |
| Chunks.ChunkCrc | pnglib/commands.go:215-224 | the CRC-32 of the four big-endian type bytes followed by the data; it has no contract of its own, and Chunks.MakeChunk and Commands.DecodeInPlace state that the chunks built with it are consistent |
| Chunks.MakeChunk | pnglib/commands.go:46-51 | the built chunk has the given type and data; Size is len(Data) mod 2^32; Size and CRC agree with the type and data when the data fits in a uint32 |
| Chunks.StrToInt | pnglib/commands.go:226-229 | fails exactly on a type code shorter than four bytes; otherwise the result is the type code's first four bytes, big endian |
| Chunks.ParseChunk | pnglib/commands.go:144-190 | a decoded chunk has Size equal to its data length and ends inside the buffer, 12 + Size bytes after the cursor |
| Chunks.ParseChunkOutcome | pnglib/commands.go:144-190 | decoding fails exactly when one of the four fields runs out of input, and the error names the first such field |
| Chunks.ParseChunkFields | pnglib/commands.go:163-190 | each field of a decoded chunk is read big endian from its own span of the buffer |
| Chunks.ParseMarshalled | pnglib/commands.go:109-190 | wherever a buffer holds a chunk's image, decoding there gives back that chunk and the cursor just past it |
| Chunks.MarshalThenParse | pnglib/commands.go:109-190 | the same round trip, for an image placed between any two byte strings |
| Chunks.ParseThenMarshal | pnglib/commands.go:74-78 | a decoded chunk marshals back to exactly the bytes it was read from |
| Chunks.CheckSignature | pnglib/commands.go:128-142 | validate as a value; it has no contract of its own, and Chunks.ValidateAccepts states exactly when it succeeds and which error it gives |
| Chunks.ValidateAccepts | pnglib/commands.go:128-142 | validate fails with end of input when fewer than 8 bytes remain and with NotPng when bytes 1..3 are not "PNG"; otherwise it succeeds |
| Chunks.CanonicalSignaturePasses | pnglib/commands.go:128-142 | the standard signature 89 50 4E 47 0D 0A 1A 0A passes |
| Chunks.ZeroSignatureFails | pnglib/commands.go:138-140 | eight zero bytes are rejected as not a PNG |
| Chunks.TypeToString | pnglib/commands.go:197-201 | chunkTypeToString as a value; it has no contract of its own, and Chunks.TypeToStringWide, Chunks.TypeToStringNarrow, Chunks.TypeToStringBigEndian and Chunks.TypeToStringShifted state what it shows |
| Chunks.TypeToStringWide | pnglib/commands.go:197-201 | a type code whose first byte is at least 0x10 is shown as its four big-endian bytes |
| Chunks.TypeToStringNarrow | pnglib/commands.go:197-201 | any other type code is shown in at most three bytes |
| Chunks.TypeToStringBigEndian | pnglib/commands.go:197-201 | the shown type string is the four type bytes exactly when the first byte is at least 0x10; otherwise it is never "IEND" |
| Chunks.TypeToStringShifted | pnglib/commands.go:197-201 | type code 01 02 03 04 is shown as 10 20 30, because `%x` drops the leading zero |
| Chunks.CheckCritType | pnglib/commands.go:203-209 | an empty type string is an error; a nonempty one is Ancillary exactly when it starts with a lower-case letter, and Critical otherwise |
| Chunks.CheckCritTypeClassifies | pnglib/commands.go:203-209 | on a nonempty type string, checkCritType agrees with the reference classification |
| Chunks.WalkFrom | pnglib/commands.go:84-104 | the Meta loop as a value; it has no contract of its own, and the Chunks.Walk* lemmas below state its numbering, offsets, decoding and end |
| Chunks.WalkFromStep | pnglib/commands.go:84-104 | in a successful walk, the chunk at the cursor decodes and its record comes first; the walk stops there if the type is "IEND", and otherwise goes on from the next chunk |
| Chunks.WalkFromUnfold | pnglib/commands.go:87-103 | the converse: once a chunk decodes with a nonempty type string, the walk records it and then stops or goes on |
| Chunks.WalkRecords | pnglib/commands.go:87-103 | the same step, with the record's classification given by the reference classification |
| Chunks.WalkIndices | pnglib/commands.go:85-102 | a successful walk numbers its chunks consecutively from the starting count |
| Chunks.WalkDecodes | pnglib/commands.go:88-93 | every record holds the chunk that decodes at its offset, and that chunk's type string |
| Chunks.WalkOffsets | pnglib/commands.go:88-89 | each record's offset is the previous one plus 12 + Size |
| Chunks.WalkEnds | pnglib/commands.go:87-101 | "IEND" is the last type string seen and appears nowhere else; the last chunk ends inside the buffer |
| Chunks.WalkOverStep | pnglib/commands.go:87-103 | over a buffer holding serialized chunks, the first chunk is recorded and the walk ends or continues at the rest |
| Chunks.WalkOver | pnglib/commands.go:84-104 | walking where a buffer holds serialized chunks, ending in "IEND", yields exactly the expected records |
| Chunks.WalkSerialized | pnglib/commands.go:84-104 | the same, whatever bytes come before and after the chunks |
| Write.WriteDataSpec | pnglib/write.go:13-38 | WriteData as a value; it has no contract of its own, and Write.NonNumericOffsetRejected, Write.SpliceInsert, Write.SpliceReplace and Write.SplicePrefix state what it writes |
| Write.Splice | pnglib/write.go:23-32 | the output holds offset bytes, then the new bytes, then the unread rest of the source |
| Write.WriteData | pnglib/write.go:13-38 | the bytes written are the splice; a parse error writes nothing and leaves the cursor; a negative offset is fatal; the final cursor is given |
| Write.SpliceInsert | pnglib/write.go:25-32 | insert mode: the new bytes land at the offset, the source follows unchanged, and the length grows by len(b) |
| Write.SpliceReplace | pnglib/write.go:29-31 | decode mode: the new bytes replace exactly len(b) source bytes, so the length is kept |
| Write.SplicePrefix | pnglib/write.go:25-28 | the output starts with the source's first offset bytes, zero padded past its end, and has the new bytes right after |
| Write.NonNumericOffsetRejected | pnglib/write.go:14-17 | an offset that is not a number returns the parse error before anything is written |
| Commands.MetaChunk.constructor | pnglib/commands.go:47 | `var m MetaChunk` is the zero chunk at offset 0 |
| Commands.MetaChunk.Validate | pnglib/commands.go:128-142 | the result is the signature check at the cursor; the cursor moves past the 8 bytes, or to the end |
| Commands.MetaChunk.ReadChunkSize | pnglib/commands.go:163-168 | on success Size is set from the next four bytes; on failure the chunk is unchanged; the cursor moves as binary.Read moves it |
| Commands.MetaChunk.ReadChunkType | pnglib/commands.go:170-175 | the same for Type |
| Commands.MetaChunk.ReadChunkBytes | pnglib/commands.go:177-183 | Data becomes the next Size bytes; on a short read it is left as Size zero bytes |
| Commands.MetaChunk.ReadChunkCrc | pnglib/commands.go:185-190 | the same as ReadChunkSize, for CRC |
| Commands.MetaChunk.ReadChunk | pnglib/commands.go:144-161 | succeeds exactly when ParseChunk does, with its error; on success the receiver holds the decoded chunk and the cursor is just past it |
| Commands.MetaChunk.GetOffset | pnglib/commands.go:192-195 | Offset becomes the cursor, which does not move |
| Commands.MetaChunk.MarshalData | pnglib/commands.go:109-125 | the returned bytes are the chunk's image |
| Commands.MetaChunk.Walk | pnglib/commands.go:84-104 | the loop yields exactly the value walk from the cursor, numbered from 1, or its first error; after a successful walk the cursor is just past the last chunk ("IEND"), and the receiver holds that chunk and its offset |
| Commands.MetaChunk.ProcessImage | pnglib/commands.go:40-107 | the outcome, meaning the bytes written and the report, or the error, is ProcessSpec of the image, the cursor and the options |
| Commands.ProcessSpec | pnglib/commands.go:40-107 | ProcessImage as a value; it has no contract of its own, and the lemmas below state each of its paths: Commands.InsertLayout, Commands.DecodeInPlace, Commands.EncodeThenDecode, Commands.MetaReport and the error cases |
| Commands.NewChunkBuilt | pnglib/commands.go:46-69 | the new chunk's Data is the payload, XORed when encoding; its Type spells the type code; Size and CRC agree with them when the payload fits in a uint32 |
| Commands.NewChunkFails | pnglib/commands.go:46-69 | building fails exactly on a type code shorter than four bytes, or when encoding a nonempty payload with an empty key |
| Commands.ProcessWrites | pnglib/commands.go:56-82 | past validation, a mutation run writes the marshalled chunk with WriteData, and only a negative offset aborts it |
| Commands.InsertLayout | pnglib/commands.go:46-69 | a plain or encoded insert outputs the source with the chunk image placed at the offset |
| Commands.InsertGrows | pnglib/commands.go:46-57 | an insert grows the image by 12 + len(payload), and the new chunk reads back at the offset |
| Commands.EncodedPayloadRecoverable | pnglib/commands.go:58-69 | XORing the inserted Data with the same key gives the payload back |
| Commands.NegativeOffsetAborts | pnglib/write.go:23-25 | an offset that parses and is negative is fatal |
| Commands.NonNumericOffsetWritesNothing | pnglib/write.go:14-17 | a non-numeric offset makes the run succeed with nothing written |
| Commands.DecodedChunkIs | pnglib/commands.go:70-77 | the decode path's chunk is the one at the offset, with Data XORed with the key and CRC recomputed |
| Commands.ReplacedParses | pnglib/commands.go:74-82 | a chunk written over the span of another reads back at the same place |
| Commands.ReplaceChunk | pnglib/commands.go:70-83 | overwriting a chunk with one of the same Size and Type keeps the length, the bytes up to the Data and every byte after the chunk, and the new chunk reads back |
| Commands.DecodeInPlace | pnglib/commands.go:70-83 | decoding rewrites the chunk in place: same length, same Size and Type bytes, Data XORed, a CRC matching the new Data, and every byte after the chunk unchanged |
| Commands.EncodedImage | pnglib/commands.go:58-69 | after an encoded insert, the signature still passes, the encoded chunk reads back at the offset, and the bytes around it are the source's |
| Commands.DecodeOfInserted | pnglib/commands.go:58-83 | decoding an encoded insert at its offset gives the source with the plain chunk inserted there |
| Commands.EncodeThenDecode | pnglib/commands.go:46-83 | an encode followed by a decode at the same offset writes exactly what a plain insert of the payload writes |
| Commands.MetaReport | pnglib/commands.go:84-104 | the report numbers chunks from 1, starts right after the signature, steps by 12 + Size, and ends at the first "IEND" |
| Commands.MetaReportsChunks | pnglib/commands.go:84-104 | a signature followed by walkable chunks, ending in "IEND", is reported chunk by chunk, whatever follows |
| Commands.TextThenEnd | pnglib/commands.go:84-104 | a signature, a five-byte "tEXt" chunk and an "IEND" chunk give two records: "tEXt" at offset 8, Ancillary; then "IEND" at offset 25, Critical |

## Left out

- PreProcessImage (pnglib/reader.go:10-27): the file is loaded into a reader before the model starts. The model begins from the loaded bytes and a cursor.
- The output file: `os.OpenFile` is a call into the operating system. Its error path is left out, and so is the missing `O_TRUNC`, which leaves old bytes past the new end of an existing, longer output file. The errors of the two `w.Write` calls (pnglib/write.go:27-28), which WriteData ignores, are left out, and so is the error `io.Copy` can return (pnglib/write.go:32-35); writing to a file is a call into the operating system. The model's output is exactly the bytes WriteData writes when every write succeeds.
- All printing: the Meta report lines, the payload dumps, `Suppress` and the success message. The Meta report is returned as a sequence of records instead.
- Command-line flag combinations: the options hold a single mode. When several flags are set, Go can run more than one branch of ProcessImage in one call; that is not modelled.
- CheckCritType: `strings.ToUpper` on the first rune is modelled as ASCII upper case on the first byte. A type string that starts with a non-ASCII rune that has an upper case is Ancillary in Go but Critical in the model.
- Crc32.ChecksumIEEE: no check value (such as the CRC of "IEND") is proved about it. A concrete evaluation of the bit-by-bit definition is too costly for the verifier, so the model proves only that the register stays 32 bits wide and that the result is its complement.
- Huge allocations: `make` with a size the process cannot allocate is not modelled as an out-of-memory error.
- The partial Meta report: when a walk fails after printing some chunks, Go has already printed them. The model returns only the error.
- End of input: `io.EOF` and `io.ErrUnexpectedEOF` are one error, `Eof`, which names the field being read.
- The `binary.Write` errors in marshalData and createChunkCRC cannot happen when writing to a `bytes.Buffer`, so they are not modelled.
- Commands.MetaChunk.ProcessImage: the contract states the outcome and not the final fields of the receiver or the final cursor of the reader.
