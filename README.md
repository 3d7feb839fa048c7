# pyCArchive — a Dafny model of the CArchive codec

pyCArchive reads and writes files in the binary layout of MFC's `CArchive`.
A `CArchive` handle wraps a byte stream. It is fixed at construction to
read mode or write mode, and it offers one `read(type)` and one
`write(type, value, encoding)`. They dispatch on a logical type:

- `uint16`/`uint32`/`uint64` and `int16`/`int32`/`int64` are little-endian
  integers of 2, 4 or 8 bytes.
- `float`/`double` are 4- or 8-byte IEEE images.
- `string` is a variable-length count header followed by the payload. A
  three-byte marker `FF FE FF` announces UTF-16LE text.

This project models the full handle of `pycarchive/__main__.py` and the
reduced uint16-only handle of `pycarchive/core.py`:

- `little_endian.dfy` (module `LittleEndian`): what Python's `int.from_bytes`
  and `int.to_bytes` do in little-endian byte order, with and without a
  sign, and their inverse laws.
- `archive.dfy` (module `Archive`): the mode, type, error and value
  datatypes; the one-step specification functions; and the class
  `CArchive`.
  - `ReadSpec`, `DecodeHeader` and `WriteSpec` state, in one step, what a
    call does to the stream.
  - `CArchive` has a `data`/`pos` stream and methods that do the work read
    by read and write by write, as the source does. Each method is proved
    to agree with its specification function.
- `archive_proofs.dfy` (module `ArchiveProofs`): the properties.
  - The mode guards and the unknown type.
  - Integer widths, values and ranges, and the overflow error.
  - Each branch of the string-header decoder and the encoder's tiers.
  - The write-then-read round trips.
  - The two header inputs where the writer and the reader disagree, and a
    corrected header with its round trip (see "## Findings").
- `archive_examples.dfy` (module `ArchiveExamples`): concrete byte layouts,
  and a sequential read on a concrete stream.
- `archive_core.dfy` (module `ArchiveCore`): the handle of `core.py`.
  - It is proved to be the `uint16` restriction of the full read dispatch.
  - It also carries the repository's `test_read_uint16` case.

How the model stands for Python:

- The stream is a byte sequence with a cursor.
- `file.read(n)` is `Take`. It returns at most `n` bytes, and fewer at the
  end of the stream, as a `BytesIO` does.
- A write-mode handle's stream is positioned at its end, so every write
  appends.
- A write describes exactly the bytes it appends. This includes the bytes
  written before an exception: the source's string write is not atomic.
- Exceptions are values of the `Error` datatype in a `Result`.

## Model

| member | source | states |
|---|---|---|
| LittleEndian.FromLE | pycarchive/__main__.py:62-69 | the unsigned little-endian value of n bytes lies below 256^n; the empty byte string reads as 0 |
| LittleEndian.FromLESigned | pycarchive/__main__.py:71-78 | the two's-complement value of n bytes lies in [-256^n/2, 256^n/2); it is non-negative exactly when the unsigned value is below half the range; the empty string reads as 0 |
| LittleEndian.ToLE | pycarchive/__main__.py:133-140 | a value below 256^n has an n-byte unsigned image that reads back as the value |
| LittleEndian.ToLESigned | pycarchive/__main__.py:142-149 | a value in the signed n-byte range has an n-byte image that reads back, signed, as the value |
| LittleEndian.ToLEFromLE | pycarchive/__main__.py:62-69 | re-encoding the value of any byte string gives back that byte string: an unsigned field has one image per value |
| LittleEndian.ToLESignedFromLESigned | pycarchive/__main__.py:71-78 | the same for a non-empty signed field |
| LittleEndian.FromLEAppend | pycarchive/__main__.py:109-111 | the value of a concatenation is the first part's value plus the second part's value shifted by the first part's width |
| Archive.Width | pycarchive/__main__.py:62-84 | every fixed-width type is 2, 4 or 8 bytes wide |
| Archive.Take | pycarchive/__main__.py:63 | a read of n bytes returns at most n, from the cursor on; it returns fewer only when they end the stream |
| Archive.EncodeInt | pycarchive/__main__.py:133-149 | `to_bytes` succeeds exactly when the value is in the type's range; the image is the type's width and reads back, with the type's signedness, as the value |
| Archive.Utf16LeBytes | pycarchive/__main__.py:159 | UTF-16LE gives two bytes per character |
| Archive.Utf16LeUnits | pycarchive/__main__.py:88 | decoding UTF-16LE fails exactly on an odd number of bytes, as `decode` raises on a truncated unit; otherwise it gives one code unit per two bytes |
| Archive.Encode | pycarchive/__main__.py:159-160 | under the two UTF-16LE names the text always encodes, to two bytes per character; under any other name it is what the supplied legacy codec gives |
| Archive.IsUtf16LeName | pycarchive/__main__.py:160 | true exactly for the two names in the writer's list, "utf-16-le" and "utf-16le" (a definition; no contract) |
| Archive.IntegerOf | pycarchive/__main__.py:62-78 | `from_bytes` with the type's signedness (a definition; its range is stated by `ArchiveProofs.ReadInteger`) |
| Archive.InRange | pycarchive/__main__.py:133-149 | the values `to_bytes` accepts for the type's width and signedness (a definition; characterised by `ArchiveProofs.InRangeWindow`) |
| Archive.DecodeHeader | pycarchive/__main__.py:92-124 | the string header is 1 to 10 bytes inside the stream; it consumes at least one byte unless the stream is at its end |
| Archive.DecodeEscaped | pycarchive/__main__.py:100-113 | after a first 0xFF the header takes at most 9 further bytes inside the stream |
| Archive.DecodeUtf16Count | pycarchive/__main__.py:115-124 | after the marker the header reports UTF-16LE with an even byte count, and takes 1 to 7 further bytes |
| Archive.ReadSpec | pycarchive/__main__.py:55-90 | a read never moves the cursor backwards or past the end of the stream |
| Archive.WriteSpec | pycarchive/__main__.py:126-178 | a successful write returns a count no larger than the bytes it appended |
| Archive.WriteStringSpec | pycarchive/__main__.py:157-176 | a string write fails with an encoding error exactly when the encoder fails; on success it returns the encoded text's length, and the text is the last thing appended; any other failure is the four-byte field's overflow |
| Archive.LengthHeader | pycarchive/__main__.py:164-174 | the written header is 1 to 7 bytes; it is a single byte exactly for counts below 0xFF, and otherwise starts with the 0xFF escape (the tier layout is `ArchiveProofs.LengthHeaderTiers`) |
| Archive.CArchive.constructor | pycarchive/__main__.py:45-47 | the handle keeps its mode and its stream for good; a read handle starts at the stream's start, a write handle at its end |
| Archive.CArchive.ReadBytes | pycarchive/__main__.py:63 | `file.read(n)` returns the bytes `Take` names and advances the cursor by their number; the content is unchanged |
| Archive.CArchive.WriteBytes | pycarchive/__main__.py:134 | `file.write(bs)` appends `bs` and returns its length |
| Archive.CArchive.ReadStringHeader | pycarchive/__main__.py:92-124 | reading the header byte group by byte group returns the header `DecodeHeader` names and leaves the cursor where it says |
| Archive.CArchive.ReadUtf16Count | pycarchive/__main__.py:115-124 | the UTF-16 sub-header read agrees with `DecodeUtf16Count` |
| Archive.CArchive.ReadString | pycarchive/__main__.py:86-88 | the string branch, header then payload, returns what `ReadSpec` names for a string and leaves the cursor where it says |
| Archive.CArchive.Read | pycarchive/__main__.py:55-90 | `read(t)` returns what `ReadSpec` names and leaves the cursor where it says; only the cursor moves |
| Archive.CArchive.Write | pycarchive/__main__.py:126-178 | `write(t, v, encoding)` returns what `WriteSpec` names and appends exactly the bytes it names, also on failure; on a read handle it leaves the cursor where it was |
| Archive.CArchive.WriteString | pycarchive/__main__.py:157-176 | the string branch, write by write, returns and appends what `WriteStringSpec` names |
| Archive.CArchive.WriteLengthHeader | pycarchive/__main__.py:164-174 | the header tiers, written piece by piece, append `LengthHeader(count)` when the count fits four bytes; otherwise three 0xFF bytes and an overflow |
| ArchiveProofs.ReadNeedsReadMode | pycarchive/__main__.py:59-60 | a read on a write handle fails with "not in read mode" and the cursor unmoved |
| ArchiveProofs.WriteNeedsWriteMode | pycarchive/__main__.py:130-131 | a write on a read handle fails with "not in write mode" and appends nothing |
| ArchiveProofs.UnknownTypeRejected | pycarchive/__main__.py:90 | read and write both raise "Unknown type" for the unknown type, consuming and appending nothing |
| ArchiveProofs.SignedBySignBit | pycarchive/__main__.py:71-78 | a signed field reads as its unsigned value, less 256^n exactly when the top bit of its last byte is set |
| ArchiveProofs.InRangeWindow | pycarchive/__main__.py:133-149 | a type's range is a window of 256^n consecutive values, starting at 0 for the unsigned types and at -256^n/2 for the signed ones |
| ArchiveProofs.ReadInteger | pycarchive/__main__.py:62-78 | an integer read consumes the type's width and returns that field's value, in the type's range; with fewer bytes left it consumes them all and decodes them |
| ArchiveProofs.IntegerRoundTrip | pycarchive/__main__.py:133-149 | an in-range integer write appends the type's width and reads back as the value at any position of any stream; an out-of-range value fails with an overflow and appends nothing |
| ArchiveProofs.IntegerWriteNeedsInt | pycarchive/__main__.py:133-149 | an integer write of a non-integer value fails and appends nothing |
| ArchiveProofs.ReadFloatImage | pycarchive/__main__.py:80-84 | a float read returns the format's full byte image; a short one fails as `struct.unpack` does, after consuming what was left |
| ArchiveProofs.FloatRoundTrip | pycarchive/__main__.py:151-155 | a float image written and read back with the same type is returned unchanged |
| ArchiveProofs.HeaderAtEnd | pycarchive/__main__.py:93-98 | at the end of the stream the header reads as count 0 in the preferred encoding and consumes nothing |
| ArchiveProofs.HeaderOneByte | pycarchive/__main__.py:93-98 | a first byte other than 0xFF is the count; one byte consumed |
| ArchiveProofs.HeaderTwoBytes | pycarchive/__main__.py:100-107 | 0xFF and a two-byte field other than FE FF and FF FF give that 16-bit count; three bytes consumed |
| ArchiveProofs.HeaderFourBytes | pycarchive/__main__.py:109-113 | FF FF FF and a four-byte field give that 32-bit count; seven bytes consumed |
| ArchiveProofs.HeaderUtf16 | pycarchive/__main__.py:115-124 | after FF FE FF the one-, two- and four-byte character counts give twice that many bytes in UTF-16LE; 4, 6 or 10 bytes consumed |
| ArchiveProofs.ReadStringPayload | pycarchive/__main__.py:86-88 | a string read consumes exactly `count` payload bytes after the header (what is left when fewer) and returns them with the header's encoding |
| ArchiveProofs.LengthHeaderTiers | pycarchive/__main__.py:164-174 | the written header is 1, 3, 6 or 7 bytes: zero to three 0xFF bytes, then a little-endian field holding the count |
| ArchiveProofs.Utf16LeRoundTrip | pycarchive/__main__.py:159 | UTF-16LE bytes decode, without error, back to the characters they came from |
| ArchiveProofs.TwoByteField | pycarchive/__main__.py:102-103 | a two-byte count collides with the marker's FE FF only for 0xFFFE and with FF FF only for 0xFFFF |
| ArchiveProofs.DecodeCountTiers | pycarchive/__main__.py:93-124 | the reader decodes each written tier, with and without the marker, to the count written, except the third tier and a legacy 0xFFFE |
| ArchiveProofs.FourByteTier | pycarchive/__main__.py:109-124 | the escape FF FF FF and a four-byte field decode to that field's count, seven bytes consumed, both without and after the marker |
| ArchiveProofs.HeaderRoundTrip | pycarchive/__main__.py:157-174 | a written header decodes to the count written (doubled under UTF-16) and its encoding, and ends where it was written to end, for counts below 0xFFFF (a legacy 0xFFFE excepted) and from 0xFFFFFF up |
| ArchiveProofs.WriteStringLayout | pycarchive/__main__.py:157-176 | a string write appends the marker exactly for the two UTF-16LE names, then the length header of the character count (UTF-16) or byte count (other encodings), then the text, and returns the text's length; an encoder failure appends nothing, a count beyond 32 bits fails after the marker and FF FF FF |
| ArchiveProofs.StringRoundTrip | pycarchive/__main__.py:86-88 | a string written and read back returns its encoded bytes with its encoding, and the read ends where the write did, on the HeaderRoundTrip domain |
| ArchiveProofs.StringReadBack | pycarchive/__main__.py:86-124 | a written string header, the payload it announces and any following bytes read back as exactly that payload with the header's encoding, ending after the payload |
| ArchiveProofs.ReadAfterHeader | pycarchive/__main__.py:86-88 | a header followed by exactly its payload reads as that payload |
| ArchiveProofs.ThirdTierMisread | pycarchive/__main__.py:169-171 | for every count in [0xFFFF, 0xFFFFFF), with or without the marker, the reader reports a count other than the one written |
| ArchiveProofs.AfterMarker | pycarchive/__main__.py:100-102 | a stream starting FF FE FF is decoded by the UTF-16 sub-header |
| ArchiveProofs.EscapeWithoutMarker | pycarchive/__main__.py:100-113 | a header FF FF ... without the marker escalates as the UTF-16 sub-header does, at half its count |
| ArchiveProofs.EscapedCountMisread | pycarchive/__main__.py:115-124 | the third-tier bytes FF FF c0 c1 c2 00 never decode to the count written |
| ArchiveProofs.ThirdTierExample | pycarchive/__main__.py:169-171 | a legacy count of 0x10000 is written FF FF 00 00 01 00 and reads back as count 0xFF after three bytes |
| ArchiveProofs.LegacyFFFEMisread | pycarchive/__main__.py:166-168 | a legacy count of 0xFFFE is written as the marker FF FE FF, and the reader then reports UTF-16LE |
| ArchiveProofs.CorrectedLengthHeader | pycarchive/__main__.py:164-174 | the corrected header is 1 to 7 bytes |
| ArchiveProofs.CorrectedHeaderRoundTrip | pycarchive/__main__.py:92-124 | with the corrected header every count below 2^32, with or without the marker, decodes to the count written and its encoding, ending where it was written to end |
| ArchiveExamples.OneAsUInt16 | pycarchive/__main__.py:133-134 | 1 as uint16 is 01 00 |
| ArchiveExamples.MinusOneAsInt16 | pycarchive/__main__.py:142-143 | -1 as int16 is FF FF |
| ArchiveExamples.HelloUtf16Text | pycarchive/__main__.py:159 | "hello" is 68 00 65 00 6C 00 6C 00 6F 00 in UTF-16LE |
| ArchiveExamples.Utf16LeAscii | pycarchive/__main__.py:159 | a character below 0x100 becomes its byte followed by 00 |
| ArchiveExamples.HelloUtf16 | pycarchive/__main__.py:157-176 | "hello" written as UTF-16LE is FF FE FF 05 and its ten bytes, returning 10 |
| ArchiveExamples.HelloLegacy | pycarchive/__main__.py:157-176 | "hello" written in a single-byte encoding is 05 and its five bytes, returning 5 |
| ArchiveExamples.HelloRead | pycarchive/__main__.py:86-98 | 05 h e l l o reads as the five bytes in the preferred encoding, consuming six |
| ArchiveExamples.ThousandHeader | pycarchive/__main__.py:166-168 | a count of 1000 is written FF E8 03 |
| ArchiveExamples.SequentialReads | pycarchive/__main__.py:62-66 | uint16 then uint32 from 01 00 02 00 00 00 yield 1 and 2 |
| ArchiveCore.ReadSpec | pycarchive/core.py:39-50 | a read of core.py never moves the cursor backwards or past the end |
| ArchiveCore.CArchive.constructor | pycarchive/core.py:29-31 | the handle keeps its mode and stream and starts at the stream's start |
| ArchiveCore.CArchive.Read | pycarchive/core.py:39-50 | `read(t)` returns what `ReadSpec` names and moves only the cursor |
| ArchiveCore.RestrictsFullRead | pycarchive/core.py:39-50 | core.py's read moves the cursor as the full read of the same type does, succeeds exactly when it does, with the same integer or the same error |
| ArchiveCore.ReadNeedsReadMode | pycarchive/core.py:43-44 | a read on a write handle fails with "not in read mode" and the cursor unmoved |
| ArchiveCore.UnknownTypeRejected | pycarchive/core.py:50 | the unknown type raises "Unknown type" and consumes nothing |
| ArchiveCore.ReadUInt16 | pycarchive/core.py:47-48 | a uint16 read returns b0 + 256·b1 below 65536 and consumes two bytes; a short read decodes what is left (0 at the end) and stops at the end |
| ArchiveCore.SuccessiveReads | pycarchive/core.py:47-48 | two uint16 reads return consecutive two-byte groups and move the cursor by 2 each |
| ArchiveCore.ReadsOne | tests/test_pycarchive.py:11-15 | reading 01 00 as uint16 yields 1 |

## Left out

- Floats: the IEEE 754 meaning of `float`/`double` is not modelled. `struct.pack` and `struct.unpack` are replaced by their 4- or 8-byte images (`FloatImage`), in the platform's native byte order. Python's promotion of an `int` argument to a float is not modelled either.
- Text decoding: `bytes.decode(encoding)` is not modelled. A string read returns the payload bytes together with the encoding name (`Encoded`). For UTF-16LE, `Utf16LeUnits` is the decoding: it fails on an odd byte count, and `Utf16LeRoundTrip` proves it inverts the encoding. The read itself does not apply it.
- Strings are sequences of non-surrogate Basic Multilingual Plane characters (`Bmp`), one UTF-16 code unit each. Surrogate pairs and lone surrogates are not modelled.
- Legacy encoders: encodings other than the two UTF-16LE names are a supplied function (`legacy`) that can fail. Python's codec registry is not part of this model.
- `locale.getpreferredencoding()` is the `preferred` parameter of the reads.
- `__enter__`/`__exit__` and file closing (pycarchive/__main__.py:49-53, pycarchive/core.py:33-37): file lifetime is outside the model.
- Write-mode streams: the model appends at the stream's end. A file object positioned elsewhere, which would overwrite, is not modelled.
- `write` in core.py: core.py has no write. `test_write_uint16` (tests/test_pycarchive.py:18-23) calls one and would raise `AttributeError`. The full module's uint16 write is `ArchiveExamples.OneAsUInt16`.
- `test_version` (tests/test_pycarchive.py:7-8) checks package metadata that is not part of this model.
- Value kinds: a value that `write` cannot convert raises different exceptions on different paths. The integer paths raise `AttributeError` (no `to_bytes`). The float paths raise `struct.error` from `struct.pack`. The string path raises `TypeError` from `len` or `AttributeError` from `encode`. The model folds these into one `WrongValueKind` error that appends nothing.
- Default encoding: `write`'s `encoding` parameter defaults to "utf-16-le" (pycarchive/__main__.py:126). The model always takes it explicitly, and a caller relying on the default passes `Utf16Le`.
- Archive.ReadSpec: a UTF-16 payload of odd length makes `decode` raise, but here it is returned as bytes. The error belongs to decoding, which is left out.
- ArchiveProofs.StringRoundTrip: stated for a string written at the start of a stream and followed by arbitrary bytes. A string at a later position is covered by the position-general `ReadStringPayload` and `DecodeHeader` lemmas, not by a single round-trip lemma.
- ArchiveProofs.HeaderRoundTrip and ArchiveProofs.StringRoundTrip: proved only on the counts where the code as written round-trips. The other counts are the two findings below.
- ArchiveProofs.CorrectedLengthHeader: the handle's methods keep the header as written (`LengthHeader`), because they model the code. The corrected header is proved on its own, as the definition a fix would substitute.

## Findings

| source | as written | input that shows it | evidently intended | confidence | as-written member | corrected member |
|---|---|---|---|---|---|---|
| pycarchive/__main__.py:169-171 | a count in [0xFFFF, 0xFFFFFF) is written as two 0xFF bytes and a four-byte field, which the reader cannot parse: it expects 0xFF and FF FF before a four-byte count | a legacy string of 0x10000 bytes: header FF FF 00 00 01 00, read back as count 0xFF after 3 bytes | every count from 0xFFFE up to 2^32 − 1 is written as FF FF FF and a four-byte field, the layout the reader parses | not executed | ArchiveProofs.ThirdTierMisread | ArchiveProofs.CorrectedHeaderRoundTrip |
| pycarchive/__main__.py:166-168 | a legacy count of 0xFFFE takes the two-byte tier and is written FF FE FF, the UTF-16 marker | a non-UTF-16 string of 0xFFFE encoded bytes: the reader enters the UTF-16 branch and reports `utf-16-le` | the two-byte tier stops below 0xFFFE, and 0xFFFE takes the four-byte tier | not executed | ArchiveProofs.LegacyFFFEMisread | ArchiveProofs.CorrectedHeaderRoundTrip |
