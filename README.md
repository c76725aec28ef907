# BPS patches in Dafny

A model of the Go library `bps`, which reads BPS patch files (the patch format
used for ROM images) and applies them to a source file. It has three parts:

- **VarInt** (`varint.dfy`). This is the BPS variable-length number: seven bits per byte, low group first,
  with the high bit marking the last byte. After each group the writer subtracts
  one from what is left, and the reader adds it back. `WriteNum` models `bps_write_num`
  and `ReadNum` models `bps_read_num`. Each is a loop method proved equal to a
  recursive definition: `Enc` for writing, and `Decode64` (the exact decoding
  `Dec` taken modulo 2^64) for reading.
- **Container** (`container.dfy`). `Parse` is `FromFile` applied to the bytes of the patch file:
  - the magic `BPS1`;
  - the source, target and metadata sizes;
  - the metadata;
  - the actions;
  - the source, target and patch CRC-32 values, each four bytes little-endian.

  The patch checksum covers every byte but the last four. `Serialize` is the
  inverse layout. The round trip and the layout of every accepted file are proved.
- **Interpreter** (`interpreter.dfy`). `PatchSourceFile` is the imperative apply loop. It runs over an
  `array<byte>` of `TargetSize` zero bytes and is proved equal to the functional
  `Apply`, which is `Run` of `Step` over a `State`. There are four actions:
  - SourceRead and TargetRead copy bytes from the source or from the action
    stream;
  - SourceCopy and TargetCopy first move their cursor by a signed displacement
    (odd numbers mean backwards), then copy.

  TargetCopy copies byte by byte, so it can repeat bytes that it wrote earlier in
  the same action (`OverlapCopy`).

`Basics` (`basics.dfy`) holds the byte and word types, `Result` and the
little-endian 32-bit word. `Crc32` (`crc32.dfy`) is the reflected IEEE CRC-32
(polynomial 0xEDB88320, initial value and final XOR 0xFFFFFFFF), which is what
Go's `crc32.ChecksumIEEE` computes. It is written bit by bit.

Where the Go code panics, the model returns an error value instead:
- a file shorter than the magic;
- a metadata size larger than what is left;
- fewer than twelve trailing bytes;
- an action cursor outside its buffer.

A failure to read the target or metadata size is assigned to `err` in Go but not
returned. On that error `bps_read_num` returns a nil remainder and whatever it has
accumulated so far. After a failed metadata-size read, that partial number is
usually at least 128, but the `uint64` arithmetic can wrap it to any value. A
non-zero value makes the metadata slice (bps.go:176) panic, and zero makes the
trailer slice (bps.go:179) panic. After a failed target-size read, the metadata read
of the nil remainder returns 0,
so the trailer slice (bps.go:179) panics. The model reports `SizeUnterminated` in
both cases, because no patch comes out in either version.

## Model

| member | source | states |
|---|---|---|
| VarInt.EncShape | bps.go:208-237 | An encoding is at least one byte. Only its last byte has the 0x80 bit set. A number below 128 is the single byte `0x80 + n`. |
| VarInt.WriteNum | bps.go:208-237 | The loop emits exactly `Enc(num)`. |
| VarInt.DecStops | bps.go:240-271 | Reading fails exactly when no byte has the 0x80 bit set, the empty stream included. Otherwise it stops at the first such byte and returns everything after it. |
| VarInt.Decode64Suffix | bps.go:240-259 | A successful read consumes at least one byte, and its remainder is a suffix of the stream. |
| VarInt.ReadNum | bps.go:240-271 | The loop, with its `uint64` accumulator and a shift that wraps, returns `Decode64(stream)`: the exact number modulo 2^64 and the remainder, or the unterminated error. |
| VarInt.DecEnc | bps.go:208-271 | Decoding `Enc(n) + rest` gives `n` and `rest` back, for every natural `n`. |
| VarInt.EncDec | bps.go:208-271 | Every accepted stream starts with the encoding of the number it decodes, so each number has only one spelling. |
| VarInt.RoundTrip | bps.go:208-271 | For every 64-bit number and every tail, reading the encoding gives the number back and leaves the tail. The read consumes exactly the encoding's bytes. |
| VarInt.Decode64Wraps | bps.go:253-265 | A stream spelling 2^64 is accepted and reads as 0, because the accumulator wraps. |
| VarInt.EncLengthBound | bps.go:208-237 | A number below 128^k encodes in at most k bytes. |
| VarInt.EncLength64 | bps_test.go:166-190 | Every 64-bit number encodes in at most ten bytes. |
| VarInt.EncodeExamples | bps_test.go:83-127 | 11 encodes as `0x8B` and 651 as `0x0B 0x84`. 0xDEADBEEFDEADBEEF takes ten bytes. |
| VarInt.DecodeExamples | bps_test.go:129-164 | `0x8B` reads as 11 and `0x0B 0x84` reads as 651. Each read consumes the whole stream. |
| Basics.LE32Bytes | bps.go:181-183 | The stored form of a 32-bit word is four bytes. |
| Basics.LE32RoundTrip | bps.go:181-183 | Reading the four stored bytes of a word gives the word back. |
| Basics.LE32BytesRoundTrip | bps.go:181-183 | Every four bytes are the stored form of the word they read as. |
| Container.Parse | bps.go:143-203 | A file shorter than four bytes is `HeaderTruncated`. One whose first four bytes are not `BPS1` is `HeaderInvalid`. A patch comes only from a file with the magic, and it is what the body parse yields. |
| Container.TrailerSplit | bps.go:178-183 | Any twelve trailing bytes are the stored forms of the three checksums they read as. |
| Container.TailLayout | bps.go:176-183 | A successful tail keeps the three sizes. The metadata is as long as its announced size. The tail bytes are exactly metadata, actions and trailer. |
| Container.TailFields | bps.go:176-201 | The tail of every patch reads back to that patch. |
| Container.BodyLayout | bps.go:157-201 | A successful body is three size encodings followed by metadata, actions and trailer. Each size is the encoded number modulo 2^64. |
| Container.BodyFields | bps.go:157-201 | The body written for a patch parses back to that patch. |
| Container.ParseLayout | bps.go:143-203 | An accepted file is exactly magic, sizes, metadata, actions and the three stored checksums, and the metadata size matches the metadata. |
| Container.ReadKeepsLastFour | bps.go:160-171 | A size read that leaves at least four bytes leaves the last four bytes of the file in place. |
| Container.TailSeal | bps.go:178-183 | The patch checksum a tail yields is read from its last four bytes. |
| Container.BodySeal | bps.go:157-183 | The patch checksum a body yields is read from the last four bytes of the file. |
| Container.ParseChecksumGate | bps.go:185-190 | No patch comes from a file whose last four bytes are not the CRC-32 of the bytes before them. A checksum error means exactly that mismatch. |
| Container.LayoutSplit | bps.go:153-157 | A written file starts with the magic, and the size encodings follow it. |
| Container.ParseSerialize | bps.go:143-203 | Parsing the file written for a patch gives the patch back, provided the metadata size is the metadata's length and the patch checksum is the CRC-32 of the rest of the file. |
| Container.ParseOf | bps.go:185-201 | A file with the magic, a body that parses and a matching patch checksum yields the body's patch. |
| Interpreter.HeaderFields | bps.go:73-76 | Kind (low two bits) and length (the rest plus one) correspond one to one with action headers. |
| Interpreter.DisplaceDisplacement | bps.go:98-102 | The displacement written for a signed move of a cursor moves it by exactly that amount: odd means backwards, even means forwards. |
| Interpreter.Splice | bps.go:81 | A `copy` into the target keeps its length. |
| Interpreter.SpliceAt | bps.go:81 | A `copy` writes its bytes at the offset and changes nothing else. |
| Interpreter.OverlapCopy | bps.go:121-127 | The byte-by-byte copy keeps the target's length. |
| Interpreter.OverlapCopyKeeps | bps.go:121-127 | The TargetCopy loop changes no byte outside the `length` positions from the output offset. |
| Interpreter.OverlapCopyAt | bps.go:121-127 | Each byte the TargetCopy loop writes is the byte at its read position. That byte is as written earlier in the same loop if the loop already wrote it, and as before otherwise. Bytes outside the written range are untouched. |
| Interpreter.RunLength | bps.go:116-127 | With the read cursor one byte behind the output, TargetCopy repeats that byte `length` times. |
| Interpreter.OverlapNotBulk | bps.go:121 | The byte-by-byte loop and a bulk `copy` differ on overlapping ranges. |
| Interpreter.Step | bps.go:66-128 | A successful action keeps the target's length and consumes at least one byte of the actions. |
| Interpreter.Run | bps.go:66-130 | A finished loop has consumed all actions and kept the target length. Its errors are decoding or cursor errors, never a checksum error. |
| Interpreter.Apply | bps.go:39-140 | On the `SourceSize`-byte source buffer: a source checksum mismatch is reported exactly when the source's CRC-32 differs from `SourceChecksum`. A returned target is `TargetSize` bytes. It comes with the target-mismatch error exactly when its CRC-32 differs from `TargetChecksum`. |
| Interpreter.SourceReadEffect | bps.go:79-82 | SourceRead writes the source bytes at the output offset, there only, and moves only the output cursor. |
| Interpreter.TargetReadEffect | bps.go:83-87 | TargetRead writes the `length` bytes after its header, there only, consumes them and moves only the output cursor. |
| Interpreter.SourceCopyEffect | bps.go:88-105 | SourceCopy moves the source cursor by the displacement, writes the source bytes from there, and leaves both cursors after the copied range. |
| Interpreter.TargetCopyEffect | bps.go:106-127 | TargetCopy moves the target cursor by the displacement, copies forward byte by byte, and leaves both cursors after the range. |
| Interpreter.StepFrame | bps.go:66-128 | Every successful action advances the output offset by its length and changes no target byte outside that range. |
| Interpreter.NoActions | bps.go:55-66 | With no actions, the result is `TargetSize` zero bytes. |
| Interpreter.IdentityPatch | bps.go:39-140 | One SourceRead over the whole source, with both checksums those of the source, reproduces the source. |
| Interpreter.Copy | bps.go:81 | Go's `copy` on the target array writes the data at the offset (`Splice`). |
| Interpreter.CopyWithin | bps.go:121-127 | The TargetCopy loop on the array computes `OverlapCopy`, and both cursors end `length` further on. |
| Interpreter.PerformAction | bps.go:67-127 | One pass of the loop on the array does what `Step` says: the same error, or the new target, cursors and remaining actions. |
| Interpreter.PatchSourceFile | bps.go:39-140 | On the `SourceSize`-byte source buffer, the array-based apply loop returns exactly `Apply(patch, source)`. |

## Left out

- File I/O: `FromFile` and `PatchSourceFile` take the bytes already read. The stat error of `FromFile` is not modelled. `PatchSourceFile` and `Apply` take `source` as the buffer of exactly `SourceSize` bytes that bps.go:41 allocates. How a short or long source file fills that buffer (zero padding, unread bytes) is not modelled.
- Crc32: CRC-32 is defined concretely, bit by bit. None of its properties, such as its check value or error detection, are stated.
- Panics become error values, as described above. The partially written target that Go returns along with an action-decoding error is dropped. Such a run is `Failed`.
- Interpreter.PerformAction: bounds are checked before an action writes. Go may write part of a TargetCopy, or all of a TargetRead, before it panics. A TargetRead can write first because the actions slice has spare capacity running into the checksum trailer (bps.go:179), so the slice at bps.go:85 succeeds and only the one at bps.go:87 panics. Even so, no result comes out in either version.
- Cursors and offsets are unbounded naturals. Go's `uint64` cursor underflow on a backward move is modelled as `CursorOutOfBounds`, because Go's next slice or index access panics then (slices are shorter than 2^63). Overflow of `output_offset + length` past 2^64 is not modelled.
- The `io.ByteWriter` error of `bps_write_num` is not modelled. `WriteNum` returns the bytes.
- The tests call `bps_read_num` with four results, one of them the byte count, but `bps.go` returns three. The model uses the three results of `bps.go`. The byte count is the stream length minus the remainder's length, and `RoundTrip` states it.
- The tests over the `test/` patch files and the end-to-end tests depend on binary fixtures that are not part of this model.
- `Metadata` is kept as bytes, not as a Go string.
