# pagan PNG front end, modelled in Dafny

pagan is a small C program that reads a PNG file and takes apart the start of
it. This project models its byte-level core:

- the byte cursor `Cursor_u8`, a `[begin, end)` window on a byte buffer, and
  its constructor `Cursor_u8_from`;
- `png_data_is_valid`, which checks the 8-byte PNG signature
  `89 50 4E 47 0D 0A 1A 0A` (section 5.2 of the PNG Specification) with a single
  64-bit compare;
- `chunk_from_bytes`, which decodes one chunk laid out as in section 5.3 of the
  PNG Specification: a 4-byte big-endian length, a 4-byte type label, a payload
  of that many bytes and a 4-byte big-endian CRC field;
- `png_from_bytes`, which decodes the first chunk after the signature.

Modules:

- `Bytes` (bytes.dfy): bytes and `uint32_t` as bounded integers, big- and
  little-endian values of byte strings, the 4-byte field decoder `BeU32` with
  its inverse `U32ToBytes`, and the signed-shift reading of the source's
  decoding expression.
- `Cursor` (cursor.dfy): the cursor as a value holding the buffer (an array)
  and two indices standing for the two C pointers.
- `Png` (png.dfy): the signature check, `strncpy` as it fills the label, the
  chunk decoder as a specification function `ChunkAt` over the buffer's
  contents, the method `ChunkFromBytes` that walks a local `begin` index past
  each field as the C code advances its pointer, and the lemmas about them.

`exit(1)` after an error message becomes the error value `Err(...)`, named
after the message: `InvalidChunkBlock` for "invalid chunk block" and
`LengthLargerThanScope` for "chunk length descriptor larger than scope". The
`Chunk` out-parameter becomes a returned record; its `data` pointer becomes the
index in the buffer where the payload begins, and its `label` field is called
`tag` (`label` is a Dafny keyword). The `assert` in `png_data_is_valid` becomes
its precondition. The host's byte order, which decides how 8 bytes load as a
`uint64_t`, is a parameter. `Cursor_u8_from` requires `sz` not to exceed the
buffer, which C demands for `buf + sz` to be a valid pointer.

## Model

| member | source | states |
|---|---|---|
| `Cursor.From` | main.c:26-28 | the cursor starts at the buffer's first byte, ends `sz` bytes later and its view is exactly the first `sz` bytes of the buffer |
| `Bytes.BigEndian` | main.c:96-99 | the most-significant-first value of n bytes is below 256^n |
| `Bytes.BeU32` | main.c:96-99 | a 4-byte field reads as `b0*2^24 + b1*2^16 + b2*2^8 + b3`, always a `uint32_t` |
| `Bytes.U32ToBytes` | main.c:113-116 | every `uint32_t` has a 4-byte encoding that `BeU32` decodes back to it |
| `Bytes.BytesU32RoundTrip` | main.c:113-116 | encoding a decoded 4-byte field gives back the same four bytes, so the decoding loses nothing |
| `Bytes.BigEndianInjective` | main.c:96-99 | equal-length byte strings have the same big-endian value iff they are equal |
| `Bytes.LittleEndianInjective` | main.c:77 | equal-length byte strings have the same little-endian value iff they are equal |
| `Bytes.PromotedShl24` | main.c:96 | `byte << 24` on a promoted `int` is defined iff the byte is below 0x80, and then fits in `int` |
| `Bytes.BeU32AsWritten` | main.c:96-99 | the signed-`int` decoding as written is defined iff the first byte is below 0x80, and where defined it equals the unsigned big-endian reading `BeU32` |
| `Bytes.AsWrittenDefinedBelowTwoTo31` | main.c:96-99 | the decoding as written is defined iff the field is at most `INT_MAX`, and then equals the unsigned reading |
| `Bytes.AsWrittenUndefinedAtHighBit` | main.c:113-116 | the CRC field `80 00 00 00` is undefined as written though its unsigned value is 0x80000000 |
| `Png.LoadU64` | main.c:77 | the `*(uint64_t*)data.begin` load of 8 bytes in the host's byte order, always below 2^64 |
| `Png.WordCompareIsByteCompare` | main.c:77 | comparing two 8-byte strings as 64-bit words, in either byte order, holds iff they are equal byte by byte |
| `Png.PngDataIsValid` | main.c:69-78 | with at least 8 visible bytes, the check holds iff the first 8 bytes of the view are the PNG signature |
| `Png.SignatureDependsOnFirstEightBytes` | main.c:69-78 | neither bytes after the 8th nor the host's byte order change the verdict |
| `Png.StrNCpy` | main.c:107 | the filled label has exactly the requested length |
| `Png.StrNCpyAt` | main.c:107 | label position i is the source byte i when no zero byte precedes it, and 0 otherwise, so every position after the first zero is 0 |
| `Png.StrNCpyWithoutNul` | main.c:107 | a label with no zero byte is copied unchanged |
| `Png.ChunkAt` | main.c:90-117 | on success the whole chunk, `12 + length` bytes, lies inside the view |
| `Png.ChunkAtErrors` | main.c:91-104 | decoding fails with `InvalidChunkBlock` iff fewer than 12 bytes are visible, with `LengthLargerThanScope` iff at least 12 but fewer than `12 + length` are, and succeeds otherwise |
| `Png.ChunkAtLayout` | main.c:96-116 | on success: length is the big-endian field at offset 0, the label is `strncpy` of offsets 4..8, the payload starts at offset 8 and spans exactly `length` bytes, the CRC is the big-endian field right after it, and all of it ends at or before `end` |
| `Png.ChunkAtReadsOnlyView` | main.c:90-117 | two buffers that agree on `[begin, end)` decode to the same result: nothing outside the view is read |
| `Png.DecodeEncodedChunk` | main.c:90-117 | a chunk encoded from a zero-free label, a payload and a CRC, with any bytes around it, decodes back to that length, label, payload and CRC |
| `Png.DecodedChunkReencodes` | main.c:90-117 | a decoded chunk with a zero-free label re-encodes to exactly the `12 + length` bytes it came from |
| `Png.ChunkFromBytes` | main.c:90-117 | the pointer-advancing decoder returns exactly what `ChunkAt` specifies for the cursor's view, reading only indices inside the buffer |
| `Png.PngFromBytes` | main.c:119-131 | decodes the first chunk only, and on success the bytes its dump reads, `data[0..length)`, lie inside the view |
| `Png.LengthGuardFailsAsWritten` | main.c:101-104 | the guard with `12 + length` computed in `size_t`: when it fails the chunk really does not fit, and whenever the sum cannot wrap it is exactly the comparison `avail < 12 + length` |
| `Png.LengthGuardExactWith64BitSize` | main.c:101 | with a 64-bit `size_t` the second guard is the exact comparison `avail < 12 + length` |
| `Png.LengthGuardWrapsWith32BitSize` | main.c:101-116 | with a 32-bit `size_t` a 12-byte view whose length field is `FF FF FF F4` passes the second guard, though the exact decoder rejects it with `LengthLargerThanScope` |
| `Png.LengthGuardWrapNeedsUndefinedShift` | main.c:96-101 | every length on which the 32-bit guard differs from the exact one has first byte 0xFF, so its decoding as written at main.c:96 is already undefined |

## Left out

- `main` (main.c:33-67) is file I/O: opening the file, measuring it with `fseek`/`ftell`, reading the signature and the rest with `fread`, allocating and freeing the buffer, and the error messages. The `ftell - 8` size arithmetic, which wraps for files shorter than 8 bytes, belongs to it.
- The printing in `png_from_bytes` (main.c:123-131): the label, the length, the hex dump of the payload and the CRC. The model returns the decoded chunk; only the bounds of the dump's reads are stated.
- The `PNG` out-parameter of `png_from_bytes` and the `ChunkIHDR` record (main.c:10-22) are declared but never written, so they are not modelled.
- CRC-32 computation and checking, the loop over further chunks, `IEND`, chunk classification and IHDR field decoding: the C code does none of them.
- `strncpy` reads its source only up to the first zero byte; the model gives it the 4 label bytes, which the guards already place inside the view.
- The unaligned `uint64_t` load in `png_data_is_valid` (main.c:77) breaks C's alignment and aliasing rules; the model reads it as the load of 8 bytes in the host's byte order.
- With `NDEBUG` the `assert` in `png_data_is_valid` is compiled out and a shorter view would be read past its end; the model keeps the assert as a precondition.
- The length and CRC decoding (main.c:96-99, 113-116) is modelled with the unsigned meaning its authors intended; the signed-shift reading is modelled separately, see Findings.

## Findings

| source | as written | input that shows it | evidently intended | confidence | as-written member | corrected member |
|---|---|---|---|---|---|---|
| main.c:113-116 | `data.begin[0] << 24` promotes the byte to a signed 32-bit `int`, and the shift is undefined when the byte is 0x80 or more | a chunk whose CRC field is `80 00 00 00` (any length or CRC field whose first byte is at least 0x80) | an unsigned shift giving 0x80000000 | high that the shift is undefined in ISO C; not executed | `Bytes.AsWrittenUndefinedAtHighBit` | `Bytes.BeU32` |
| main.c:101 | `MIN_CHUNK_SZ + chunk->length` is computed in `size_t`, which on a target with a 32-bit `size_t` wraps; every length that wraps has first byte 0xFF, so the shift at main.c:96 is undefined first, and the wrap is reached only when the compiler gives that shift its two's-complement result (as common compilers do) | a 12-byte view whose length field is `FF FF FF F4`: the length decodes to 0xFFFFFFF4, the sum wraps to 0, the guard passes and the CRC is read from outside the view | the exact comparison, failing with "chunk length descriptor larger than scope" | medium, only on targets with a 32-bit `size_t` and only after the undefined shift of the row above yields its two's-complement value; not executed | `Png.LengthGuardWrapsWith32BitSize` | `Png.ChunkAt` |
