# BMP-Rust header layer, modelled in Dafny

BMP-Rust keeps a BMP image in memory as the bytes of the whole file
(`BMP { contents, from_file }`) and reads every header as a view over those
bytes. This project models that header-reading layer of `src/bmp.rs`:

- `bytes.dfy` (module `Bytes`): the unsigned widths `u8`, `u16`, `u32`; a
  reference little-endian reading of a byte sequence of any length
  (`FromLittleEndian`) and its inverse (`ToLittleEndian`); the library's
  four-byte assembly `bytes_to_int` (`BytesToInt`); and the `as u16` cast
  (`AsU16`).
- `bmp.dfy` (module `Bmp`): the file header `BITMAPFILEHEADER`
  (`FileHeader`), a reference serializer of it in the on-disk layout
  (`EncodeFileHeader`), the image itself (`BMP`, a datatype: the library's
  callers do change images in place, but the header-reading layer modelled
  here, src/bmp.rs:119-168, only reads `contents`, and no method in it takes
  `&mut self`), its accessors `get_header_bytes`,
  `get_header`, `get_offset`, `get_size`, `num_bytes_to_kilobytes`, and the
  dispatch of `get_dib_header` on the DIB header's size field
  (`DibHeaderKind`).

The source reads are all pure, so the model is made of datatypes, functions
and lemmas. Where the source panics (slicing fewer than 14 or 18 bytes, or a
buffer length that does not fit the `u32` result of `get_size(false)`), the
model states the condition as a precondition: the library has no error path
there and its callers must not reach it.

The Windows BMP format stores the pixel-data offset `bfOffBits` in 32 bits.
The library declares the field `u16` (src/bmp.rs:15) and casts the 32-bit
value down (src/bmp.rs:138); the model follows the code, so the decoded
header keeps only bytes 10 and 11, and `HeaderReencodes` proves that reading
the header loses information exactly when bytes 12 or 13 are non-zero.

## Model

| member | source | states |
|---|---|---|
| `Bytes.BytesToInt` | src/bmp.rs:120-122 | the `u32` built from four bytes is their little-endian value: byte 0 least significant, byte 3 most; it is below 2^32 |
| `Bytes.LittleEndianInjective` | src/bmp.rs:120-122 | two byte sequences of one length (four for `bytes_to_int`) with equal values are equal, so distinct byte arrays give distinct integers |
| `Bytes.LittleEndianRoundTrip` | src/bmp.rs:120-122 | writing a decoded value back at the same width gives back the original bytes, so the four-byte reading loses nothing |
| `Bytes.AsU16` | src/bmp.rs:138 | the `as u16` cast gives a value below 2^16, no larger than its input, congruent to it modulo 2^16, and equal to it exactly when the input is below 2^16 |
| `Bytes.AsU16KeepsLowBytes` | src/bmp.rs:138 | casting the 32-bit value of four bytes to `u16` keeps the value of the first two bytes and discards the last two |
| `Bmp.EncodeFileHeader` | src/bmp.rs:10-16 | the on-disk layout of the file header: 14 bytes, signature in [0,2), size in [2,6), reserved fields in [6,8) and [8,10), offset in [10,14), little-endian |
| `Bmp.BMP.NumBytesToKilobytes` | src/bmp.rs:126-129 | the kilobyte count k of b bytes satisfies 1024·k ≤ b < 1024·(k+1) |
| `Bmp.KilobytesIsFloorDivision` | example/main.rs:10 | the equality the callers assert here and at src/main.rs:9: the kilobyte count equals the byte count divided by 1024, so those assertions never fail |
| `Bmp.BMP.GetHeaderBytes` | src/bmp.rs:141-144 | defined only for at least 14 bytes; returns exactly 14 bytes, which are a prefix of the file |
| `Bmp.BMP.GetHeader` | src/bmp.rs:131-140 | defined only for at least 14 bytes; `bfType`, `bfReserved1` and `bfReserved2` are bytes [0,2), [6,8) and [8,10) copied unchanged, `bfSize` is the 32-bit little-endian value of bytes [2,6), `bfOffBits` the 16-bit value of bytes [10,12) |
| `Bmp.HeaderFieldRanges` | src/bmp.rs:134-138 | `bfType` is bytes [0,2), `bfReserved1` bytes [6,8), `bfReserved2` bytes [8,10), copied unchanged; `bfSize` is `bytes_to_int` of [2,6); `bfOffBits` is `bytes_to_int` of [10,14) taken modulo 2^16 |
| `Bmp.HeaderReencodes` | src/bmp.rs:131-140 | serializing the decoded header reproduces bytes [0,12) followed by two zero bytes; so it reproduces all 14 bytes exactly when bytes 12 and 13 are zero |
| `Bmp.HeaderRoundTrip` | src/bmp.rs:131-140 | reading the header of a file that starts with the serialization of a header h gives h back, whatever follows |
| `Bmp.HeaderReadsOnlyFirstBytes` | src/bmp.rs:141-144 | two files that agree on their first 14 bytes have the same header: nothing beyond byte 13 is read |
| `Bmp.BMP.GetOffset` | src/bmp.rs:145-147 | the pixel-data offset is byte 10 plus 256 times byte 11, and never exceeds the 32-bit value stored in bytes [10,14) |
| `Bmp.OffsetIsHeaderField` | src/bmp.rs:145-147 | the offset accessor always equals the header's `bfOffBits`, which is below 2^16 |
| `Bmp.BMP.GetSize` | src/bmp.rs:148-154 | with the flag set, the size is the little-endian value of bytes [2,6) (needs 14 bytes); without it, the buffer length (which must fit in 32 bits) |
| `Bmp.DeclaredSizeOfEncodedHeader` | src/bmp.rs:148-151 | for a file that starts with the serialization of a header h, the declared size is h's `bfSize` |
| `Bmp.BMP.GetDibHeader` | src/bmp.rs:156-168 | defined only for at least 18 bytes; the result is a valid layout exactly when the 32-bit little-endian value of bytes [14,18) is 12, 40, 108 or 124, and then that value is the layout's declared size |
| `Bmp.DibDispatchTable` | src/bmp.rs:161-167 | size 12 gives the core header, 40 the info header, 108 the V4 header, 124 the V5 header, every other size gives invalid |
| `Bmp.DibDispatchRoundTrip` | src/bmp.rs:160-167 | a file whose bytes [14,18) encode a layout's declared size is dispatched to that layout |
| `Bmp.DibReadsOnlySizeField` | src/bmp.rs:160 | two files that agree on bytes [14,18) are dispatched to the same layout: the result depends on those four bytes only |

## Left out

- `BMP::new_from_file` (src/bmp.rs:114-118): reading a path with `fs::read` is I/O that panics on failure; the model starts from the bytes themselves, with `fromFile` as a plain field.
- `bytes_to_string` (src/bmp.rs:123-125): the lossy UTF-8 conversion of the signature is a library call outside the model; `bfType` stays the raw 2-byte sequence.
- `Bytes.BytesToInt`: the source uses `u32::from_ne_bytes`, i.e. the host's byte order; the model fixes little-endian, the BMP format's order. On a big-endian host the source reads every multi-byte field byte-reversed (a DIB size field `[40, 0, 0, 0]` would read as 0x28000000 and be classed invalid, and `bfSize` and `bfOffBits` would be wrong too), which the model does not capture.
- `Bmp.BMP.GetDibHeader`: the source computes the layout name and then discards it, returning `()` (the trailing `;` at src/bmp.rs:167); the model returns the computed layout so that its contract can speak about it.
- The `BITMAPCOREHEADER`, `BITMAPINFOHEADER` and `BITMAPV4HEADER` structs, the commented-out V5 layout and the `DIBHEADER` enum (src/bmp.rs:18-101): declared but never filled in, so only the layout names survive, in `DibHeaderKind`.
- The panics of the source (slices of a buffer shorter than 14 or 18 bytes, the `unwrap` of a buffer length of 2^32 or more) are preconditions of the members that would panic, not modelled error values.
- The demo programs (example/main.rs, src/main.rs), the timing harness (example/time_benchmark.rs) and the video-layer scaffolding (example/ext.rs) call pixel, drawing, colour and file-writing operations whose code is not part of this model; src/lib.rs only declares the module.
