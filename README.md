# minexr in Dafny

A model of py-minexr, a minimal reader for single-part, uncompressed, scan-line OpenEXR files,
with proofs about it. The reader has four parts, and each is modelled:

- **`BufferReader`**. A byte cursor whose offset may run past either end. It uses Python's
  slice and index rules, and C-string reads through `ctypes`.
- **`_read_header`**. This reads:
  - the 8-byte prolog (magic number 20000630 and the version flags);
  - the attribute table: records of name, type, signed 32-bit size and payload, ended by a zero
    byte;
  - the `channels` chlist, the `dataWindow` box2i and the `compression` byte;
  - the first entry of the line offset table.

  It then checks that the file is uncompressed and that all channels share one pixel type.
- **`_read_image`**. This reads the scan-line blocks from the first line offset as one
  (H, C, W) view with strides (SOFF, DS·W, DS), where SOFF = 8 + DS·W·C, without copying.
- **`select`**. Channel names become indices. A single channel, or a run with one constant
  non-zero step, becomes a view through one Python slice. Any other set of indices becomes a
  copy. The result may be transposed to (H, W, C).

Modules, one file each:

- `wrappers.dfy`: `Option`, `Result` and `Outcome`.
- `errors.dfy`: one error per exception the reader raises.
- `bytes.dfy`: bytes, and the little-endian decoders of `struct.unpack` together with their
  encoders.
- `buffer.dfy`: the cursor, as a class. Its data is constant and its offset is mutable.
- `header.dfy`: the header as functions over bytes. Each loop is also a method, proved equal to
  those functions.
- `layout.dfy`: stride arithmetic, and the bytes of the view.
- `channel_select.dfy`: Python slice semantics and `select`.
- `reader.dfy`: the `MinExrReader` class, `load`, and whole-file opening.

The file is a byte sequence. The header is parsed from its first 10000 bytes, as `fp.read(10000)`
does. Each element of the image is the byte string the view exposes.

The model follows the code wherever the format description differs from it:

- A record whose size runs past the header region is read short without failing. Python slices
  clamp.
- A pixel type code of -3 to -1 is accepted as a negative Python index into the lookup list.
  Any other code outside 0 to 2 is an IndexError.
- A `compression` payload that is empty is an IndexError.
- A name is read up to its terminator, or to the end of the data when there is none.

The `Test…` lemmas restate the selections of `test_select` as channel indices. They take the
chlist of `cube0001.exr` to hold its eight channels in alphabetical order, as OpenEXR stores
them: Color.A, Color.B, Color.G, Color.R, Depth.V, Normal.X, Normal.Y, Normal.Z. The test file
itself is not part of this model.

## Model

| member | source | states |
|---|---|---|
| Buffer.BufferReader.constructor | minexr/buffer.py:13-16 | A new cursor holds the data and its length, at offset 0. |
| Buffer.BufferReader.Read | minexr/buffer.py:18-22 | Returns Python's `data[off:off+n]`, which is short or empty near or past the end. The offset always moves by `n`, whichever sign `n` has. |
| Buffer.SliceClamped | minexr/buffer.py:20 | From a non-negative start, a slice is the existing part of `data[a..b]`. It has exactly `b-a` bytes when it fits, and none when `b <= a`. |
| Buffer.Slice | minexr/buffer.py:20 | Python's `data[a:b]` never fails and is never longer than the data. |
| Buffer.Tail | minexr/buffer.py:26 | `data[off:]` is the suffix from a valid offset, and empty from an offset at or past the end. |
| Buffer.BufferReader.ReadNullString | minexr/buffer.py:24-30 | Returns the C string at the offset, and moves the offset past it and one terminator byte. |
| Buffer.NullStringAt | minexr/buffer.py:26 | The string read is the zero-free run of bytes starting at the offset. A zero byte follows it unless the data ends first. |
| Buffer.CStringPrefix | minexr/buffer.py:26 | The C string is a zero-free prefix of the buffer, ended by a zero or by the end of the buffer. |
| Buffer.CStringUnique | minexr/buffer.py:26 | Any zero-free prefix ended by a zero or by the end of the buffer is the C string. |
| Buffer.CStringOfTerminated | minexr/buffer.py:26 | A zero-free name followed by a zero reads back as itself. |
| Buffer.CString | minexr/buffer.py:26 | The value of a C string buffer is never longer than the bytes it was made from. |
| Buffer.BufferReader.Peek | minexr/buffer.py:32-34 | Returns the byte at the offset, which does not move. It is an IndexError exactly when the offset is outside `[-len, len)`. |
| Buffer.Index | minexr/buffer.py:34 | Python indexing: defined exactly on `[-len, len)`, and a negative index counts from the end. |
| Buffer.TailStartsAtIndex | minexr/buffer.py:26 | A tail taken at a valid index starts with the byte at that index. |
| Buffer.BufferReader.Advance | minexr/buffer.py:36-38 | The offset moves by `n`. |
| Buffer.BufferReader.NLeft | minexr/buffer.py:40-42 | `len - off - 1`. It is positive exactly when at least two bytes remain. |
| Bytes.LeI32 | minexr/reader.py:150 | `struct.unpack('<i')`: a signed 32-bit two's-complement value in `[-2^31, 2^31)`. |
| Bytes.LeI32OfI32Bytes | minexr/reader.py:172 | Decoding four encoded bytes returns every signed 32-bit value. |
| Bytes.I32BytesOfLeI32 | minexr/reader.py:172 | Encoding a decoded value returns the four bytes. |
| Bytes.LeU64 | minexr/reader.py:189 | `struct.unpack('<Q')`: an unsigned value below 2^64. |
| Bytes.LeU64OfU64Bytes | minexr/reader.py:189 | Decoding eight encoded bytes returns every unsigned 64-bit value. |
| Bytes.LeUnsignedOfLeBytes | minexr/reader.py:150 | Little-endian decoding inverts encoding. |
| Bytes.LeBytesOfLeUnsigned | minexr/reader.py:150 | Little-endian encoding inverts decoding. |
| Bytes.LeUnsigned | minexr/reader.py:150 | The little-endian value of `n` bytes is below 256^n. |
| Header.ByteSize | minexr/reader.py:125-126 | The element size is 2 bytes for HALF and 4 bytes for UINT and FLOAT. |
| Header.PixelTypeOf | minexr/reader.py:159-163 | `PT_LOOKUP[code]`: code 0 or -3 gives UINT, 1 or -2 HALF, 2 or -1 FLOAT, and any other code an IndexError. |
| Header.RawAttrAt | minexr/reader.py:144-152 | `_read_header_attr` as written, whatever the sign of the size. A record's name is never empty. |
| Header.RawAttrAtEnd | minexr/reader.py:145-147 | An IndexError exactly when the offset is outside the data. The end of the table comes exactly at a zero byte, which is consumed (offset + 1). |
| Header.RawAttrAtRecord | minexr/reader.py:148-152 | At any other byte, a record. Its name is the non-empty C string at `off` and its type the C string after the name's zero. It fails with a struct error exactly when fewer than four size bytes follow the type's zero. Otherwise the size is their signed 32-bit value, the payload is `read(size)` after them, and the cursor ends just past what was asked for. |
| Header.RecordFrom | minexr/reader.py:148-152 | A record's name is the C string at the offset, and the cursor ends just past its payload. |
| Header.RecordAfterName | minexr/reader.py:149-152 | After the name come the type and the size, and the cursor ends just past the payload. |
| Header.RecordAfterNameContents | minexr/reader.py:149-152 | The type is the C string after the name. A struct error comes exactly when fewer than four size bytes follow it. Otherwise the size is their signed 32-bit value and the payload is `read(size)` after them. |
| Header.RecordFromName | minexr/reader.py:148-149 | A record is its name, then what follows the name's zero. |
| Header.RecordAfterType | minexr/reader.py:150-152 | Four bytes of size, or a struct error. The cursor ends at `o2 + 4 + size`, and the payload has at most `size` bytes. |
| Header.RecordAfterTypeContents | minexr/reader.py:150-152 | A struct error exactly when fewer than four bytes remain at `o2`. Otherwise the size is their signed 32-bit value and the payload is `read(size)` after them. |
| Header.NegativeSizeRewinds | minexr/reader.py:135-152 | A record `a`, `b` of size -8 leaves the cursor where it started, with bytes still left, so the table loop as written never ends. The corrected reading rejects that record. |
| Header.NegativeSizeAccepted | minexr/reader.py:135-152 | A record `a`, `b` of size -5 moves the cursor back onto the zero that ends its type, which the loop as written takes for the end of the table. The corrected reading rejects that record. |
| Header.ReadAttrAt | minexr/reader.py:144-152 | The corrected reading: a record has a non-empty name, moves the cursor forward by at least 7 bytes, and its size is never negative. The end of the table moves it by one byte. |
| Header.RejectNegativeSize | minexr/reader.py:150-151 | (Definition, no contract.) A record whose size is negative becomes `NegativeAttributeSize`; anything else is passed on. |
| Header.ReadAttrAtEncoded | minexr/reader.py:144-152 | Round trip: a record written as name, zero, type, zero, `<i` size and payload reads back as that record, with the cursor just past it. |
| Header.ReadHeaderAttr | minexr/reader.py:144-152 | The cursor method returns the record, the end of the table or the error, and moves the offset to exactly where the function `ReadAttrAt` says. |
| Header.ReadRecord | minexr/reader.py:148-152 | The cursor method reads name, type, size and payload as `RecordFrom` specifies, rejecting a negative size. |
| Header.ReadRecordAfterName | minexr/reader.py:149-152 | The cursor method reads type, size and payload as `RecordAfterName` specifies. |
| Header.ReadRecordAfterType | minexr/reader.py:150-152 | The cursor method reads size and payload as `RecordAfterType` specifies. |
| Header.AttrRecordsStep | minexr/reader.py:137-141 | One turn of the table loop: an error stops the loop, a terminator ends the table, and a record comes before the rest of the table. |
| Header.AttrRecords | minexr/reader.py:135-142 | The records read while more than one byte remains. The cursor never moves back, and every record has a non-empty name and a size that is not negative. |
| Header.AttrRecordsEncoded | minexr/reader.py:135-152 | Round trip: records written one after the other and followed by a zero read back as those records. The cursor ends past the zero, unless the zero is the last byte. |
| Header.AttrTable | minexr/reader.py:135-142 | The dictionary of the records read. The cursor never moves back, and each name maps to a record of that name, whose size is not negative. |
| Header.AttrTableEncoded | minexr/reader.py:135-142 | Round trip: an encoded table reads back as the dictionary of its records. |
| Header.AttrMap | minexr/reader.py:141 | The keys are exactly the record names, and each key maps to a record of that name. |
| Header.AttrMapLastWins | minexr/reader.py:141 | A name maps to its last record: a later record of the same name replaces an earlier one. |
| Header.AttrMapSnoc | minexr/reader.py:141 | Adding one record updates the dictionary at that record's name. |
| Header.ReadHeaderAttrs | minexr/reader.py:135-142 | The loop returns the attribute table function's dictionary or error, and ends at its offset. |
| Header.Compression | minexr/reader.py:175-176 | Succeeds exactly when `compression` exists with a non-empty payload, and returns its first byte. |
| Header.ChannelAt | minexr/reader.py:161-164 | A chlist entry: the C-string name, then a pixel type code. It succeeds exactly when four code bytes follow the name's zero and `PT_LOOKUP` accepts their signed value, which gives the type. Fewer bytes are a struct error and an unknown code an IndexError. The next entry follows the name's zero, the 4 code bytes and 12 skipped bytes. |
| Header.ChannelAfterName | minexr/reader.py:162-164 | Succeeds exactly when four code bytes remain and `PT_LOOKUP` accepts their signed value, which gives the type. Fewer bytes are a struct error and an unknown code an IndexError. Then 12 bytes are skipped. |
| Header.ChannelsFrom | minexr/reader.py:160-164 | The entries read while `nleft() > 0` and the next byte is not zero: equally many names and types. |
| Header.ChannelNamesNonEmpty | minexr/reader.py:160-161 | Every channel name read is non-empty. |
| Header.ChannelsFromStep | minexr/reader.py:160-164 | One turn of the chlist loop: an error stops it, otherwise the entry comes before the rest. |
| Header.ChannelsFromStop | minexr/reader.py:160 | The loop stops with no more entries before the last byte and at a zero byte. |
| Header.ChannelsLoopStep | minexr/reader.py:160-164 | After one more entry, the entries read so far followed by those remaining are still all the entries. |
| Header.ReadChannel | minexr/reader.py:161-164 | The loop body on the cursor returns the entry `ChannelAt` gives, and ends at its next offset. |
| Header.ReadChannelAfterName | minexr/reader.py:162-164 | The type code and the skip on the cursor, as `ChannelAfterName` specifies. |
| Header.ParseChannels | minexr/reader.py:154-167 | `_parse_channels`: a missing `channels` key or a type other than chlist fails. Otherwise the loop over a fresh cursor returns exactly the channels of the payload. |
| Header.Channels | minexr/reader.py:154-167 | A missing `channels` key and a type other than chlist each fail with their own error. Names and types read are equally many, and every name is non-empty. |
| Header.ChannelsEncoded | minexr/reader.py:154-167 | Round trip: a chlist of entries written as name, zero, `<i` code and 12 bytes, followed by a zero, reads back as those names and the types `PT_LOOKUP` gives for the codes (-3 to 2). |
| Header.ChannelPayloadEncoded | minexr/reader.py:158-166 | The same for the payload alone, read from offset 0. |
| Header.ChannelsFromEncoded | minexr/reader.py:160-164 | The same from any offset, with any bytes after the terminating zero. |
| Header.EntryReadsEncoded | minexr/reader.py:161-164 | One encoded entry reads back as its name and type, and the next entry starts just after its 12 skipped bytes. |
| Header.ChannelMap | minexr/reader.py:106 | (Definition, no contract.) `{cn: i for i, cn in enumerate(names)}`: later names overwrite earlier ones. `ChannelMapLastIndex` and `ChannelMapInverts` state its properties. |
| Header.ChannelMapLastIndex | minexr/reader.py:106 | The map's keys are the channel names. Each name maps to an index of that name, and no later index has the same name. |
| Header.ChannelMapInverts | minexr/reader.py:106 | With unique names, `channel_map[names[i]] == i` for every `i`, and the map has one entry per channel. |
| Header.DataWindowOfBox | minexr/reader.py:169-173 | A box2i window (xmin, ymin, xmax, ymax) gives H = ymax-ymin+1 and W = xmax-xmin+1. |
| Header.DataWindow | minexr/reader.py:169-173 | Succeeds exactly when `dataWindow` exists as a box2i of 16 bytes. H and W then lie between -2^32 + 2 and 2^32. |
| Header.TestDataWindow | minexr/tests/test_reader.py:40-42 | The test files' window gives H = 270 and W = 480. |
| Header.FirstOffsetAt | minexr/reader.py:187-189 | Three outcomes. The "Failed to read offset" assertion fails exactly when fewer than two bytes remain or the next byte is zero. An index outside the data is an IndexError. Otherwise, fewer than 8 bytes is a struct error, and 8 bytes give the little-endian offset below 2^64, with the cursor moved by 8. |
| Header.ReadFirstOffset | minexr/reader.py:187-189 | The cursor method returns what `FirstOffsetAt` gives and ends at its offset. |
| Header.OffsetsFrom | minexr/reader.py:178-185 | Every offset read is below 2^64, and the cursor never moves back. |
| Header.OffsetsFromStep | minexr/reader.py:180-182 | One turn of the offset loop: eight bytes or a struct error, and the offset comes before the rest. |
| Header.OffsetsFromStop | minexr/reader.py:180-184 | The loop stops before the last byte or at a zero byte. The zero byte is skipped, but the last byte is not. |
| Header.OffsetsFromEncoded | minexr/reader.py:178-185 | Round trip: 64-bit offsets whose low byte is not zero, written as `<Q` and followed by a zero, read back as themselves. The cursor ends past the zero, unless it is the last byte. |
| Header.ReadOffsets | minexr/reader.py:178-185 | The cursor loop returns the offset table function's list or error, and ends at its offset. |
| Header.PrologRejected | minexr/reader.py:95-98 | A short prolog, a wrong magic number, a multi-part or tiled flag and non-zero unused flags each fail with their own error. |
| Header.PrologStage | minexr/reader.py:94-101 | A prolog that passes leads on to the attribute table, with its version byte. |
| Header.HeaderAccepted | minexr/reader.py:94-98 | An accepted header has the magic number, flag byte 5 equal to 0 or 4, and flag bytes 6 and 7 equal to zero. |
| Header.AttrsStage | minexr/reader.py:100-101 | The attribute table comes after the prolog, and its error, if any, is the header's error. |
| Header.FieldsStage | minexr/reader.py:103-108 | Compression, then channels, then the data window: the first failure is the header's error. The shape is (H, number of channels, W). |
| Header.FinalStage | minexr/reader.py:109-113 | Then the first offset, the compression check and the single-type check, in that order. Once all pass, the header holds every field. |
| Header.HeaderBodyAccepted | minexr/reader.py:100-113 | An accepted header is uncompressed and has a chlist and a box2i. Names, types and the shape's C agree, the channel map is built from the names, the first offset is below 2^64, and all channel types are equal. |
| Header.HeaderSpec | minexr/reader.py:90-113 | (Definition, no contract.) `_read_header` on the header bytes: the prolog checks, then `HeaderBody`. `PrologRejected`, `PrologStage` and `HeaderAccepted` state its properties. |
| Header.HeaderAfterAttrsAccepted | minexr/reader.py:104-113 | From a parsed attribute table on: an accepted header keeps that table, is uncompressed, has a chlist and a box2i, agrees on names, types and C, and has one channel type. |
| Header.HeaderBody | minexr/reader.py:100-113 | (Definition, no contract.) The attribute table from offset 8, then `HeaderAfterAttrs`. `AttrsStage` and `HeaderBodyAccepted` state its properties. |
| Header.HeaderAfterAttrs | minexr/reader.py:103-108 | (Definition, no contract.) Compression, channels and the data window, in that order. `FieldsStage` states its properties. |
| Header.HeaderAfterWindow | minexr/reader.py:109-113 | (Definition, no contract.) The first offset, then the compression and single-type checks. `FinalStage` states its properties. |
| Header.AtMostOneDistinct | minexr/reader.py:113 | `len(set(types)) <= 1` means that all types are equal. |
| Layout.OffExpanded | minexr/reader.py:127-128 | The view's offset of (h, c, w) is `8 + h·SOFF + c·DS·W + w·DS`. |
| Layout.Soff | minexr/reader.py:127 | (Definition, no contract.) `SOFF = 8 + DS·W·C`. |
| Layout.Strides | minexr/reader.py:128 | (Definition, no contract.) `(SOFF, DS·W, DS)`. |
| Layout.NBytes | minexr/reader.py:129 | (Definition, no contract.) `nbytes = SOFF·H`. |
| Layout.Off | minexr/reader.py:127-133 | (Definition, no contract.) The byte offset `as_strided` gives element (h, c, w). `OffExpanded`, `ElementInBounds` and `ElementsDisjoint` state its properties. |
| Layout.ElementInScanLine | minexr/reader.py:116-128 | Every element of row h lies after the 8-byte prolog of scan line h and before the next scan line. |
| Layout.ElementInBounds | minexr/reader.py:127-133 | Every element the view addresses lies within the `nbytes = SOFF·H` bytes read, after the 8 skipped bytes. |
| Layout.LastElementEndsAtNBytes | minexr/reader.py:127-129 | The last element ends exactly at `nbytes`. |
| Layout.OrderedElementsDisjoint | minexr/reader.py:127-133 | An element that comes earlier in (h, c, w) order ends before a later one starts. |
| Layout.ChannelsDisjoint | minexr/reader.py:118-119 | Within a scan line, an earlier channel's elements end before a later channel's elements start. |
| Layout.ElementsDisjoint | minexr/reader.py:127-133 | Distinct elements occupy disjoint bytes, so the view never aliases two elements. |
| Layout.Element | minexr/reader.py:133 | The view's element (h, c, w) is DS bytes wide. |
| Layout.ScanLine | minexr/reader.py:116-119 | Scan line h is SOFF bytes long. |
| Layout.PayloadIndex | minexr/reader.py:118-119 | Element (c, w) is element `c·W + w` of a scan line's pixel data. |
| Layout.ElementIsScanLineElement | minexr/reader.py:116-119 | The view's element (h, c, w) is element `c·W + w` after the 8-byte prolog of scan line h of the file, so no byte is copied or moved. |
| Reader.HeaderBytes | minexr/reader.py:91-92 | The header region is the file's first 10000 bytes, or all of a shorter file. |
| Reader.ImageAsWritten | minexr/reader.py:120-133 | `_read_image` as written: a truncated body that passes the `frombuffer` check is accepted. |
| Reader.ImageSpec | minexr/reader.py:120-133 | The corrected `_read_image`: a negative dimension is an error, an empty shape reads nothing, and a body shorter than `nbytes` fails. |
| Reader.ImageSpecNone | minexr/reader.py:120-123 | No image is read exactly when a dimension is zero and none is negative. A negative H or W is always an error. |
| Reader.ImageSpecWellFormed | minexr/reader.py:125-133 | An image read has the header's H, C and W and the first channel's element size. It is exactly the `nbytes` bytes at the first offset, so every element the strides address exists. |
| Reader.CompleteBodyAccepted | minexr/reader.py:132 | A complete body always passes the `frombuffer` check, because `nbytes - 8` is a whole number of elements. |
| Reader.FromBufferAccepts | minexr/reader.py:132 | (Definition, no contract.) `np.frombuffer(..., offset=8)` accepts n bytes exactly when n >= 8 and `n - 8` is a whole number of elements. |
| Reader.ScanLinesMultiple | minexr/reader.py:127-132 | `SOFF·H - 8` is a multiple of DS for DS equal to 2 or 4. |
| Reader.ImageAsWrittenAgrees | minexr/reader.py:120-133 | Wherever the corrected reading succeeds, the reading as written returns the same image. |
| Reader.TruncatedBodyAccepted | minexr/reader.py:129-133 | A file of 12 bytes with H = 2, C = 1, W = 1 and FLOAT is accepted as written, although its second element lies at bytes 20 to 24. The corrected reading rejects it. |
| Reader.OpenConsistent | minexr/reader.py:90-133 | An opened file's image has the header's (H, C, W), and the channel map points into the channel axis. With unique names, the map inverts the channel list. |
| Reader.Open | minexr/reader.py:90-133 | (Definition, no contract.) Opening a file: the header from its first 10000 bytes, then the image. `OpenConsistent` and `Load` state its properties. |
| Reader.HeaderChannelMap | minexr/reader.py:105-108 | An accepted header's channel map points into its C channels and, with unique names, inverts the list. |
| Reader.MinExrReader.constructor | minexr/reader.py:34-37 | A new reader has no image and no shape. |
| Reader.MinExrReader.ReadHeader | minexr/reader.py:90-113 | `_read_header` reports the header specification's error, or stores every field it yields. The image is left alone. |
| Reader.MinExrReader.ParseAttrs | minexr/reader.py:103-113 | After the attributes, the remaining steps report or store exactly what the specification gives from the cursor's offset. |
| Reader.MinExrReader.ParseGeometry | minexr/reader.py:105-113 | With the compression known, the channel list and data window steps report or store exactly what the specification gives. |
| Reader.MinExrReader.ParseWindow | minexr/reader.py:107-113 | With compression and channels known, the data window step and the end of the header report or store exactly what the specification gives. |
| Reader.MinExrReader.FinishHeader | minexr/reader.py:109-113 | The first offset and the two final assertions, as the specification gives them. |
| Reader.MinExrReader.ReadImage | minexr/reader.py:115-133 | `_read_image` stores the image the corrected specification gives, leaves the image alone for an empty shape, reports errors, and changes nothing else. |
| Reader.Load | minexr/reader.py:34-40 | `MinExrReader(fp)` fails exactly as a whole-file open does. Otherwise it is a fresh reader holding the header and image of that open. |
| Reader.OpenedSelect | minexr/reader.py:42-88 | `select` on an opened file: output channel k is image channel `channel_map[names[k]]`, in (H, W, k) or (H, k, W) shape. It fails when the image is empty and was never read. |
| ChannelSelect.Lookup | minexr/reader.py:61 | Succeeds exactly when every name is known, and gives `channel_map[name]` for each name, in order. |
| ChannelSelect.LookupFirstUnknown | minexr/reader.py:61 | A failed lookup reports the first unknown name. |
| ChannelSelect.BoundUp | minexr/reader.py:79 | For a positive step, a slice bound is clamped into `[0, n]`. |
| ChannelSelect.BoundDown | minexr/reader.py:79 | For a negative step, a slice bound is clamped into `[-1, n-1]`. |
| ChannelSelect.RangeUp | minexr/reader.py:79 | An ascending range stays within `[a, b)`. |
| ChannelSelect.RangeDown | minexr/reader.py:79 | A descending range stays within `(b, a]`. |
| ChannelSelect.SliceRange | minexr/reader.py:70-80 | A Python slice over C channels yields in-range indices. It fails exactly on a zero step. |
| ChannelSelect.Diff | minexr/reader.py:65 | `np.diff` has one entry fewer than its input, and none for an empty input. |
| ChannelSelect.DiffSteps | minexr/reader.py:65-72 | All differences are equal exactly when the indices step by `ids[1] - ids[0]`. |
| ChannelSelect.OneDistinct | minexr/reader.py:72 | `len(set(diff)) == 1` holds exactly when there is a difference and all differences are equal. |
| ChannelSelect.RangeUpOfSteps | minexr/reader.py:75-79 | An ascending progression is what `range` yields up to any stop after its last term. |
| ChannelSelect.RangeDownOfSteps | minexr/reader.py:75-79 | A descending progression is what `range` yields down to any stop below its last term. |
| ChannelSelect.StepsSuffix | minexr/reader.py:72 | A constant step survives dropping the first index. |
| ChannelSelect.SingleSlice | minexr/reader.py:68-71 | `slice(i, i+1)` selects channel `i` alone. |
| ChannelSelect.StepSlice | minexr/reader.py:72-80 | With a constant non-zero step, `slice(ids[0], ids[-1]+d or None, d)` yields exactly `ids`, including when the stop would be negative. |
| ChannelSelect.CopyChannels | minexr/reader.py:83-84 | The copied channels are all in range. |
| ChannelSelect.CopyChannelsIds | minexr/reader.py:83-84 | The copy path concatenates the requested channels in the requested order. |
| ChannelSelect.Pick | minexr/reader.py:62-84 | The channels chosen are in range. |
| ChannelSelect.PickIds | minexr/reader.py:62-84 | On in-range indices, `select` yields exactly the indices, tagged fresh (none), view (one, or a constant non-zero step) or copy (anything else). A repeated only channel is the zero-step ValueError. |
| ChannelSelect.PickSeveral | minexr/reader.py:72-84 | The same for two or more indices. |
| ChannelSelect.Gather | minexr/reader.py:66-84 | `image[sH, sC, sW]` has shape (H, k, W), and its element (h, k, w) is image element (h, cs[k], w). |
| ChannelSelect.Transpose | minexr/reader.py:86-87 | `transpose(0, 2, 1)` swaps the last two axes: `out[h][w][k] == img[h][k][w]`. |
| ChannelSelect.SelectChannels | minexr/reader.py:42-88 | `select` fails exactly on an unknown name (the first one) or a repeated only channel. Otherwise the result has the requested channels in order, the right shape and kind, and the right elements in both layouts. |
| ChannelSelect.Select | minexr/reader.py:42-88 | (Definition, no contract.) `select`: lookup, the choice of view or copy, the gather and the optional transpose. `SelectChannels` and `SelectWithoutImage` state its properties. |
| ChannelSelect.KindOf | minexr/reader.py:62-84 | (Definition, no contract.) Fresh for no channels, a view for one channel or a constant non-zero step, a copy otherwise. `PickIds` states that `select` takes this path. |
| ChannelSelect.SelectWithoutImage | minexr/reader.py:60-84 | Without an image, every select whose lookup succeeds fails, and a failed lookup reports its own error. |
| ChannelSelect.TestSelectRgb | minexr/tests/test_reader.py:45-47 | Channels 3, 2, 1 are a view. |
| ChannelSelect.TestSelectBgr | minexr/tests/test_reader.py:48-50 | Channels 1, 2, 3 are a view. |
| ChannelSelect.TestSelectRb | minexr/tests/test_reader.py:51-53 | Channels 3, 1 are a view whose slice stop is None. |
| ChannelSelect.TestSelectAll | minexr/tests/test_reader.py:54-56 | All eight channels in order are a view. |
| ChannelSelect.TestSelectAllReversed | minexr/tests/test_reader.py:57-59 | All eight channels reversed are a view. |
| ChannelSelect.TestSelectCopy | minexr/tests/test_reader.py:63-65 | Channels 3, 4, 1 are a copy. |
| ChannelSelect.TestSelectEmpty | minexr/tests/test_reader.py:61-62 | No channels give a fresh empty array. |
| ChannelSelect.RepeatedChannelRejected | minexr/reader.py:72-80 | Not from the tests: the same channel twice has the constant difference 0, and a slice with step 0 is a ValueError. |

## Left out

- I/O: the file object, `seek` and `read` become a byte sequence. The header region is its first 10000 bytes, and the image is read from the first offset of the whole sequence.
- The numpy arrays themselves are not modelled: dtypes, memory, `base` and aliasing. A selection records whether it is fresh, a view of the image, or a copy, together with the image channel behind each output channel. The view's elements are the byte strings the strides address.
- What HALF, FLOAT and UINT pixels mean as numbers, `astype(np.float32)`, and the image comparisons of `test_parse_files`. These are floating-point and library behaviour.
- The UTF-8 decoding in `read_null_string`. Names are byte strings, and the cursor moves by their byte length. For a non-ASCII name, Python moves it by the number of decoded characters instead.
- `np.prod` on the shape is exact here. numpy computes it in 64-bit integers, which can wrap around for huge dimensions.
- Reader.ImageSpec: every negative height or width fails with `NegativeDimensions`. numpy raises several different ValueErrors there, some of them only after reading from the file.
- Reader.MinExrReader.ReadImage: a body shorter than `nbytes` fails with `TruncatedImage` (the corrected behaviour; see Findings). It also stands for every `frombuffer` ValueError.
- ChannelSelect.Select: a select on a reader without an image fails with `NoImage`. Python raises AttributeError or TypeError there. The full row and column slices `sH` and `sW` are the whole axes.
- Header.ReadAttrAt: a negative attribute size fails with `NegativeAttributeSize` (the corrected behaviour; see Findings). As written, the reader does not fail: a negative size moves the cursor back. For some sizes, such as minus the sum of the name's length, the type's length and 6, the table loop then never ends.
- Header.AttrRecords: the corrected reading also rejects negative-size inputs that the reader as written accepts. An example is `61 00 62 00 FB FF FF FF`: the size -5 lands the cursor on the zero after the type, and the table ends there (`NegativeSizeAccepted`).
- Header.OffsetsFromEncoded: only offsets whose low byte is not zero read back. `_read_offsets` takes a zero byte for the end of the table, so an offset that is a multiple of 256 ends it early. The reader itself never calls `_read_offsets`, so no corrected version is modelled.
- Python `assert` statements are treated as always on. Running Python with `-O` would skip them.
- The ctypes buffer that `read_null_string` creates is only its value: the bytes before the first zero.
- `bench.py`, `example.py` and the packaging are not part of this model.

## Findings

| source | as written | input that shows it | evidently intended | confidence | as-written member | corrected member |
|---|---|---|---|---|---|---|
| minexr/reader.py:135-152 | `_read_header_attr` passes the signed 32-bit size to `read`, so a negative size moves the cursor backwards. For some sizes, such as minus the sum of the name's length, the type's length and 6, `_read_header_attrs` then reads the same record again, forever. For others it reads on from wherever the cursor lands. | The record bytes `61 00 62 00 F8 FF FF FF` (name `a`, type `b`, size -8) followed by a byte: the cursor returns to the record's start with bytes left. | A negative size is an error, so that every record moves the cursor forward and the table loop ends. | not executed | Header.RawAttrAt, Header.NegativeSizeRewinds | Header.ReadAttrAt, Header.ReadHeaderAttr |
| minexr/reader.py:129-133 | `np.frombuffer(..., offset=8)` only checks that the bytes after offset 8 are whole elements. A file that ends before the last scan line is accepted, and `as_strided` then addresses bytes past the end of the buffer. | H = 2, C = 1, W = 1, FLOAT and a 12-byte body (`nbytes` is 24): accepted, and element (1, 0, 0) lies at bytes 20 to 24. | The body must be exactly `nbytes` bytes long, so that every element the strides address exists. | not executed | Reader.ImageAsWritten, Reader.TruncatedBodyAccepted | Reader.ImageSpec, Reader.ImageSpecWellFormed |
