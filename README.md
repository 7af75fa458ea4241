# Binary helpers of the comment-metadata test

A model of the small byte-level toolkit in `tests/test_comments.js`. The test
uses it to build a PNG file and to encode the Windows XP comment tags. The
toolkit has four parts:

- **CRC-32** (module `Crc`, `crc.dfy`). This is the table-driven reflected CRC
  of the PNG format, with polynomial `0xEDB88320` and the register preset and
  complemented.
  - The table initialisation loop is the method `BuildTable`.
  - The checksum loop is the method `ComputeCrc32`. It is proved equal to the
    function `Crc32`, which folds `Step` over the code units.
  - The register is a `bv32`, which is what the JavaScript `^`, `>>>` and `-1`
    act on. The final `>>> 0` is the conversion to `nat`.
- **`pack`** (module `Pack`, `pack.dfy`). A cut-down struct packer.
  - The first format character selects the byte order (`<` is little-endian).
  - Every later character consumes one value. `I` and `L` emit four bytes,
    `B` emits one, and any other character emits nothing.
  - The method `Pack` is the loop. It is proved equal to the function
    `Packed`, and `Unpack` reads the fields back.
- **UCS-2** (module `Ucs2`, `ucs2.dfy`).
  - `StrToUcs2` writes every UTF-16 code unit as two bytes, low byte first,
    followed by a zero unit.
  - `Ucs2ToStr` reads pairs back until a zero unit or the last whole pair.
  - Both methods are proved equal to the functions `Encoding` and `Decoding`.
- **The minimal PNG** (module `Png`, `png.dfy`). `GenerateMinimalPng` writes:
  - the eight-byte signature;
  - an IHDR chunk for a 1x1 truecolour image;
  - an IDAT chunk holding a fixed 11-byte zlib stream;
  - an IEND chunk.

  Each chunk is framed as a big-endian length, the type, the data and a
  big-endian CRC-32 of type and data. `ParseChunks` and `ParsePng` are the
  matching readers. The known checksums are proved by evaluation:
  `90 77 53 DE` for IHDR, `89 82 98 99` for IDAT and `AE 42 60 82` for IEND.

Bytes are integers in `0..255` (`Bytes.Byte`). JavaScript strings are handled
in two ways:

- Where the source treats them as binary strings, they are byte sequences.
- Where it reads UTF-16 code units, they are `seq<bv16>` (`crc32`, via
  `Bytes.ToCodeUnits`) or integers in `0..0xFFFF` (`Ucs2.CodeUnit`).

The lookup table is a module-level array in the source. Here `BuildTable`
returns it, and the methods that read it take it as a parameter, required to
satisfy `Crc.IsCrcTable`.

`pack` reads `array[p]` even past the end of the array. There it gets
`undefined`, which `>>>` and `&` turn into 0, so a missing value packs as zero
bytes. A stricter packer would reject such calls; this one does not. The model
follows the code: `Pack.ValueAt` yields 0 past the end, and
`Pack.MissingValuesPackAsZero` states the consequence.

## Model

| member | source | states |
|---|---|---|
| Crc.BuildTable | tests/test_comments.js:42-47 | The returned table has 256 entries, and entry `n` is `n` after eight rounds of "shift right, XOR in the polynomial if the dropped bit was set". |
| Crc.TableEntriesKnown | tests/test_comments.js:42-47 | Entries 0, 1, 128 and 255 are `0`, `0x77073096`, the polynomial and `0x2D02EF8D`, as in the standard CRC-32 table. |
| Crc.ComputeCrc32 | tests/test_comments.js:48-54 | Given the built table, the checksum loop returns `Crc32(str)`: the register, preset to all ones and stepped once per code unit, then complemented. The result is below 2^32. |
| Crc.Crc32 | tests/test_comments.js:48-54 | Every checksum is below 2^32, because `>>> 0` reads the complemented register as unsigned. |
| Crc.Crc32Empty | tests/test_comments.js:48-54 | The checksum of the empty string is 0. |
| Crc.Crc32LowBytesOnly | tests/test_comments.js:48-54 | Two strings of equal length whose code units agree in their low eight bits have the same checksum, because the table index masks `crc ^ code` with `0xFF`. |
| Crc.RegisterAppend | tests/test_comments.js:50-52 | The register after `a + b` is the register after `a`, carried on over `b`. The loop is a left fold. |
| Crc.Crc32CheckValue | tests/test_comments.js:48-54 | The checksum of "123456789" is `0xCBF43926`, the published check value of this CRC. |
| Crc.IendCrc | tests/test_comments.js:34-34 | `crc32("IEND")` is `0xAE426082`. |
| Pack.Pack | tests/test_comments.js:57-80 | The loop returns `Packed(mark, values)`: the fields of the characters after the first, in the byte order the first selects. Value `p` goes to character `p + 1`. |
| Pack.PackField | tests/test_comments.js:63-76 | One iteration emits the field of its character: four bytes for `I`/`L`, reversed when little-endian; one byte for `B`; nothing otherwise. Its length is the character's width. |
| Pack.PackedLength | tests/test_comments.js:62-78 | The output length is 4 per `I`/`L`, 1 per `B` and 0 per other character after the first. It is 0 for an empty format. |
| Pack.FieldAt | tests/test_comments.js:62-78 | Field `j` starts after the widths of the characters before it. It holds exactly the bytes of value `j`, so each character consumes one value, known or not. |
| Pack.PackedFieldAt | tests/test_comments.js:61-78 | Field `j` of a mark, read back in the byte order the first character selects, is value `j - 1` masked to the field: mod 2^32 for `I`/`L`, mod 256 (`& 0xFF`) for `B`. |
| Pack.UnpackFields | tests/test_comments.js:62-78 | Reading the packed bytes back field by field gives one value per format character, each masked to its field. |
| Pack.FieldRoundTrip | tests/test_comments.js:63-76 | A single field has its character's width and reads back as the masked value. |
| Pack.BigEndianRoundTrip | tests/test_comments.js:65-70 | A four-byte field read back as a big-endian number gives `val mod 2^32`. |
| Pack.LittleEndianRoundTrip | tests/test_comments.js:65-71 | The reversed field read back as a little-endian number gives `val mod 2^32`. |
| Pack.BigEndianInjective | tests/test_comments.js:65-70 | A value below 2^32 survives a big-endian field unchanged. |
| Pack.BigEndianDecodeEncode | tests/test_comments.js:65-70 | Any four bytes are the big-endian field of the number they denote. The field encoding is onto. |
| Pack.PackedBigEndianLong | tests/test_comments.js:61-72 | `pack(">L", [v])` is the four bytes of `v mod 2^32`, high byte first. |
| Pack.PackedLittleEndianLong | tests/test_comments.js:61-72 | `pack("<L", [v])` is the same four bytes, low byte first. |
| Pack.FieldsSameValues | tests/test_comments.js:62-78 | The output depends on `values` only at the positions the format consumes. |
| Pack.MissingValuesPackAsZero | tests/test_comments.js:64-64 | Packing with values missing gives the same bytes as packing with zeros in their place. |
| Pack.FieldsLength | tests/test_comments.js:62-78 | The fields of a format take exactly the sum of its characters' widths. |
| Ucs2.StrToUcs2 | tests/test_comments.js:82-92 | The encoder returns `Encoding(str)`: two bytes per code unit, then a zero unit. |
| Ucs2.EncodingLayout | tests/test_comments.js:82-92 | The encoding is twice as many bytes as `s` has code units, plus 2. Byte `2k` is `s[k] & 0xFF`, byte `2k + 1` is `(s[k] >> 8) & 0xFF`, and the last two bytes are 0. |
| Ucs2.UnitsLayout | tests/test_comments.js:83-88 | Before the terminator, each code unit sits at bytes `2k` (low) and `2k + 1` (high). |
| Ucs2.Ucs2ToStr | tests/test_comments.js:94-102 | The decoder, with its early `break`, returns `Decoding(bytes)`. |
| Ucs2.Decoding | tests/test_comments.js:94-102 | The decoded text is at most half as many units long as the input has bytes and contains no zero unit. |
| Ucs2.DecodingIsPrefixBeforeZero | tests/test_comments.js:94-102 | The decoder reads every whole little-endian pair and keeps exactly those before the first zero unit. Without a zero unit it returns all of them. |
| Ucs2.DecodingIgnoresOddByte | tests/test_comments.js:95-95 | A trailing odd byte does not change the result. |
| Ucs2.DecodingStopsAtZero | tests/test_comments.js:97-98 | Nothing after a zero unit at an even offset is read. |
| Ucs2.PairsOfEncoding | tests/test_comments.js:82-102 | The encoding, read back in pairs, is the text followed by one zero unit. |
| Ucs2.DecodeEncode | tests/test_comments.js:82-102 | Decoding an encoded text gives the text up to its first zero unit. |
| Ucs2.RoundTrip | tests/test_comments.js:82-102 | A text with no zero unit survives encoding then decoding unchanged. |
| Png.GenerateMinimalPng | tests/test_comments.js:5-39 | The generator, using the pack and checksum loops, returns `MinimalPng()`: the signature followed by the IHDR, IDAT and IEND chunks, in that order. |
| Png.WriteChunk | tests/test_comments.js:19-20 | A chunk is written as `pack(">L", [data.length])`, the type, the data and `pack(">L", [crc32(type + data)])`. |
| Png.PackedIhdr | tests/test_comments.js:10-18 | `pack(">IIBBBBB", ...)` of the header fields gives width and height as 32-bit big-endian numbers, then depth 8, colour type 2 and three zero bytes. |
| Png.IhdrDataBytes | tests/test_comments.js:10-18 | The 13 IHDR data bytes are `00 00 00 01 00 00 00 01 08 02 00 00 00`. |
| Png.MinimalPngChunks | tests/test_comments.js:5-39 | The file is the signature followed by the three written chunks. |
| Png.MinimalPngLayout | tests/test_comments.js:5-39 | The file is 68 bytes. It starts with the signature. The IHDR chunk is at offset 8 with length 13, the IDAT chunk at 33 with length 11, and the IEND chunk at 56 with length 0, each preceded by its length field and type. |
| Png.ThreeChunkLayout | tests/test_comments.js:20-35 | For any three chunks written after the signature, each chunk's length field and type sit at the offset the lengths of the chunks before it determine. |
| Png.SerializedFields | tests/test_comments.js:20-20 | A written chunk is its length field, its type, its data and its checksum field, whatever follows it. |
| Png.IhdrChunkCrc | tests/test_comments.js:19-19 | The IHDR checksum is `0x907753DE`. |
| Png.IdatChunkCrc | tests/test_comments.js:29-29 | The IDAT checksum is `0x89829899`. |
| Png.IendChunkCrc | tests/test_comments.js:34-34 | The IEND checksum is `0xAE426082`. |
| Png.IhdrChunkBytes | tests/test_comments.js:18-21 | The IHDR chunk is `00 00 00 0D`, `IHDR`, the 13 data bytes and `90 77 53 DE`. |
| Png.IdatChunkBytes | tests/test_comments.js:28-31 | The IDAT chunk is `00 00 00 0B`, `IDAT`, the 11 payload bytes and `89 82 98 99`. |
| Png.IendChunkBytes | tests/test_comments.js:34-36 | The IEND chunk is `00 00 00 00`, `IEND` and `AE 42 60 82`. |
| Png.MinimalPngBytes | tests/test_comments.js:5-39 | The whole file, byte by byte. |
| Png.ParseChunks | tests/test_comments.js:20-35 | The chunk reader accepts only bytes that are a run of well-formed chunks, each with a matching checksum, written one after the other. |
| Png.ParsePng | tests/test_comments.js:7-35 | The file reader accepts only the signature followed by such a run. |
| Png.ParseSerializeAll | tests/test_comments.js:20-35 | Reading back any run of well-formed written chunks gives the same chunks. |
| Png.MinimalPngParses | tests/test_comments.js:5-39 | The generated file reads back as exactly the IHDR, IDAT and IEND chunks the generator wrote. |

## Left out

- The test driver (`tests/test_comments.js:104-191`) is not modelled. It embeds and reads comments through `piexif.dump`, `insert` and `load`, and `piexif.js` is not part of this model.
- Reading and writing files, console output and `process.exit` are not modelled.
- The IDAT payload is taken as 11 opaque bytes. Its zlib/DEFLATE meaning (one red pixel) is not modelled.
- JavaScript values that are not integers are not modelled. `pack` values are integers, and the 32-bit fields use `val mod 2^32`, which equals `ToUint32(val)` on integers. Fractional, `NaN` or non-numeric values are left out.
- JavaScript strings are not modelled beyond code units. There is no Unicode or surrogate handling, and `ucs2ToStr` is given bytes in `0..255`.
- The lookup table is a parameter satisfying `Crc.IsCrcTable`, not the module-level array itself. Sharing that array with other code is not modelled.
- Crc.Crc32: the checksum is proved against the table-driven definition and the published check value, not against a bit-at-a-time reference definition of CRC-32.
