# MDTool decoder in Dafny

This project models the MD mesh decoder of MDTool. MDTool reads the "MD"
mesh container of a PSP-era game and writes each subdivision of each
submesh as a C vertex list and a triangle-strip index list. The MD format
has no offset table. The decoder finds every section by scanning forward
in 16-byte lines for a marker: the ASCII token `"mdb"` for a submesh and
the little-endian u32 `0x20` for a subdivision. It also realigns with a
single-bit test of the offset, `pos & 0x10`.

Two revisions of the decoder are modelled:

- `src/main.cpp`, the current one. `ExportMD` checks the `"scr"`
  signature, reads the submesh count at 0x08 and walks submeshes and
  subdivisions from 0x10. It reads the 20-byte subdivision header, `n`
  16-byte vertex positions, skips `4n` bytes, realigns and reads `n` raw
  u16 uv pairs.
- `main.cpp`, the older one. It keeps a second cursor, `actualFilePtr`,
  in step with the stream. It does not realign before a subdivision. It
  reads 8 bytes per vertex for uvs and always ends with `MD_FAILURE`.

Modules:

- `Wrappers`: `Option` and `Result`.
- `Bytes`: bytes, little-endian u16/u32 reads, and the NUL-terminated
  view of a buffer that `strcmp` compares.
- `CStdio`: a `Stream` class standing for a `FILE*` opened for reading.
  Its contents are fixed and its position is the state. `fseek` never
  fails; `fread` fails when it would read past the end.
- `MdFormat`: the file layout and the whole decode as pure functions
  (`Decode`), with lemmas about the scans, the realignment, the header
  offsets and the shape of the decoded mesh.
- `MdTool`: the functions of `src/main.cpp` as methods on a `Stream`,
  each proved equal to its function in `MdFormat`.
- `MdListing`: what `src/main.cpp` emits per subdivision, as values. This
  covers the list name `<prefix>_NN_NN`, the vertex entries and the
  strip index triples.
- `MdToolLegacy`: the functions of `main.cpp` as methods, with their
  `actualFilePtr` out-parameter, and the older walk as functions.

The mdb token is compared over a window of `sizeof(char*) - 1` bytes,
because `SeekForHeader` receives `sizeof(strMDBHeader)`. The window is a
parameter of the model: 3 bytes on a 32-bit build and 7 on a 64-bit one.
With 7 bytes, `strcmp` also needs a NUL right after `"mdb"`.

The token window is therefore not the token's length, and the cursor
after a match is the window's end, not the token's. The decoder has no
count-mismatch error; `MdFormat.DecodeWellFormed` proves that every count
in the file equals the number of entities decoded.

## Model

| member | source | states |
|---|---|---|
| Bytes.CStringIs | src/main.cpp:135-143 | a NUL-terminated buffer equals a NUL-free token under strcmp iff the token is a prefix of the buffer followed by NUL or by the buffer's end |
| Bytes.U32AtBytes | src/main.cpp:179-183 | the u32 read at p equals v iff the four bytes at p are v in little-endian order |
| MdFormat.SignatureCaseSensitive | src/main.cpp:135-143 | the signature is accepted iff bytes 0..2 are exactly 's','c','r'; an upper-case 'S' is rejected |
| MdFormat.DecodeSignature | src/main.cpp:272-278 | the decode reports a wrong signature iff the signature is invalid; otherwise a completed decode is MD_OK |
| MdFormat.AlignBit4 | src/main.cpp:168-173 | the realignment moves p forward by at most 16 bytes to an offset whose bit 4 is clear |
| MdFormat.Bit4UpperHalf | src/main.cpp:170 | `pos & 0x10` is set exactly in the upper 16 bytes of each 32-byte block |
| MdFormat.AlignBit4Least | src/main.cpp:168-173 | the realignment leaves p unchanged when bit 4 is clear; otherwise it stops at the least q > p with bit 4 clear, the next multiple of 32, at most 16 bytes on |
| MdFormat.AlignBit4Step | src/main.cpp:170-172 | one byte step of the realignment loop keeps its destination and moves toward it |
| MdFormat.ScanToken | src/main.cpp:145-164 | a found match is a probe start + 16k whose whole window lies in the file and compares equal to the token |
| MdFormat.ScanTokenLeast | src/main.cpp:145-164 | a token scan finds the least probe start + 16k whose window matches; when it finds none, no in-bounds probe matches |
| MdFormat.MisalignedTokenNotFound | src/main.cpp:145-164 | an "mdb" lying off the 16-byte stride is never probed: a 32-byte file holding it only at offset 5 makes the scan fail rather than find it |
| MdFormat.ScanMagic | src/main.cpp:175-187 | a found marker is a probe start + 16k whose u32 lies in the file and is 0x20 |
| MdFormat.ScanMagicLeast | src/main.cpp:175-187 | a u32 scan finds the least probe start + 16k holding 0x20; when it finds none, no in-bounds probe holds 0x20 |
| MdFormat.MdbWindow | src/main.cpp:293-303 | a 3-byte window matches iff the bytes are "mdb"; a 7-byte window also needs a NUL after them; only the 3-byte window ends the submesh header at match + 16 |
| MdFormat.ReadSubmeshHeader | src/main.cpp:293-303 | the header read is the 8 bytes ending 4 before the new cursor, which is at least window + 13 past p and at most 4 past the end of the file |
| MdFormat.ReadSubmeshHeaderLayout | src/main.cpp:291-303 | a submesh header is found at the least matching probe; the 8-byte header is read one byte past the window; the cursor ends 4 bytes after it |
| MdFormat.ReadSubdivision | src/main.cpp:305-324 | a decoded subdivision has VertexCount positions and VertexCount uv pairs; the cursor moves at least 32 + 24n bytes |
| MdFormat.ReadSubdivisionLayout | src/main.cpp:305-324 | the subdivision sits at the least 0x20 probe, realigned first only when it is not the first; position i is at marker + 32 + 16i; uv pair i is 4i past the realigned end of positions and skipped bytes |
| MdFormat.ReadSubmesh | src/main.cpp:291-324 | a decoded submesh has SubdivisionAmount well-formed subdivisions and never moves the cursor back |
| MdFormat.ReadSubdivisions | src/main.cpp:305-344 | the subdivisions loop only appends to what was read before, and never moves the cursor back |
| MdFormat.ReadSubdivisionsShape | src/main.cpp:305-324 | walking the subdivisions appends exactly amount - index subdivisions after those already read, all well-formed |
| MdFormat.ReadSubmeshes | src/main.cpp:291-345 | the submeshes loop only appends to what was read before, and never moves the cursor back |
| MdFormat.ReadSubmeshesShape | src/main.cpp:291-345 | walking the submeshes appends exactly amount - index submeshes after those already read, all well-formed |
| MdFormat.Decode | src/main.cpp:265-353 | an exported mesh comes from a file with a valid signature and at least 12 bytes, and its SubmeshAmount is the u32 at 0x08 |
| MdFormat.DecodeWellFormed | src/main.cpp:286-345 | a decoded mesh has exactly SubmeshAmount submeshes, each with SubdivisionAmount subdivisions of VertexCount positions and uv pairs |
| MdTool.IsValidHeaderSignature | src/main.cpp:135-143 | returns true iff the three bytes at the stream position are "scr"; after a full read the stream is 3 bytes on |
| MdTool.SkipWhileBit4 | src/main.cpp:168-173 | the byte-by-byte loop leaves the stream at the realigned position |
| MdTool.SeekForHeader | src/main.cpp:145-164 | finds the token iff the token scan does, and leaves the stream just past the matched window |
| MdTool.SeekForSubdvisionHeader | src/main.cpp:166-187 | realigns only when asked, finds 0x20 iff the u32 scan does, and leaves the stream 4 bytes past the marker |
| MdTool.ReadVertexPositionBuffer | src/main.cpp:189-192 | succeeds iff 16n bytes remain; fills the first n cells with the n positions in order, leaves the rest, and advances 16n |
| MdTool.ReadVertexUVBuffer | src/main.cpp:194-212 | skips 4n, realigns, and reads n (u, v) pairs into the first n cells in index order, leaving the rest; succeeds iff they are in the file |
| MdTool.ReadMdbInfoHeader | src/main.cpp:299-300 | reads the 8-byte submesh header {u32 type, u16 id, u16 count} at the cursor |
| MdTool.ReadSubdivisionInfoHeader | src/main.cpp:314-315 | reads the 20-byte subdivision header, VertexCount being the u16 at offset 16 |
| MdTool.ExportSubdivision | src/main.cpp:305-324 | one pass of the subdivision loop decodes exactly the subdivision the format functions define and leaves the cursor where they say |
| MdTool.ExportSubmeshHeader | src/main.cpp:293-303 | scanning for "mdb", skipping 1, reading the 8-byte header and skipping 4 reads exactly the header the format functions define and leaves the cursor where they say |
| MdTool.ExportSubmesh | src/main.cpp:291-345 | one pass of the submesh loop decodes exactly the submesh the format functions define |
| MdTool.ExportMD | src/main.cpp:265-352 | the whole traversal returns exactly the decode of the file; on a wrong signature nothing past the signature is read |
| MdListing.StringGetFirstNotOf | src/main.cpp:214-232 | yields a prefix iff the separator occurs and its first occurrence is not at index 0; the prefix is the source up to its first separator |
| MdListing.ListNameRoundTrip | src/main.cpp:326-331 | the list name is the prefix, "_", two digits of the submesh number, "_", two digits of the subdivision number, and both numbers read back from it |
| MdListing.ListNameInjective | src/main.cpp:326-331 | different submesh or subdivision numbers give different list names |
| MdListing.StripTriples | src/main.cpp:258-263 | n vertices give n - 2 triples, triple i being (i, i+1, i+2) |
| MdListing.StripTriplesShareEdges | src/main.cpp:258-263 | consecutive triples share two vertices, as a triangle strip does |
| MdListing.WriteIndices | src/main.cpp:258-263 | the loop emits exactly the strip triples in increasing order |
| MdListing.IndexCountAsWrittenWraps | src/main.cpp:260 | the uint32 bound `size - 2` is the triple count for n >= 2 and wraps to 2^32 - 2 or 2^32 - 1 for n = 0 or 1 |
| MdListing.StripFlagIgnored | src/main.cpp:245-256 | the strip flag does not change a vertex entry |
| MdListing.WriteBuffersToVertexList | src/main.cpp:245-256 | the vertex list has n entries, entry i pairing position i with uv pair i |
| MdListing.TexCoordEndpoints | src/main.cpp:209-210 | raw (32767, 32767) decodes to (8, -7) and raw (0, 0) to (0, 1) |
| MdListing.ListingsOf | src/main.cpp:305-341 | there is one listing per subdivision of each submesh, in file order |
| MdListing.ListingsDistinct | src/main.cpp:326-341 | listings carry pairwise distinct names, n vertex entries and the strip triples of n |
| MdToolLegacy.LegacySubdivision | main.cpp:275-291 | after a subdivision actualFilePtr is even, at least 32 bytes past the start, and not past the stream |
| MdToolLegacy.LegacySubdivisions | main.cpp:275-295 | the older subdivision loop never moves the stream back, and after one pass or more actualFilePtr is even and not past the stream |
| MdToolLegacy.LegacySubmesh | main.cpp:258-296 | a submesh moves the stream at least window + 13 bytes on, and leaves actualFilePtr not past it |
| MdToolLegacy.LegacySubmeshes | main.cpp:258-296 | the older submesh loop never moves the stream back |
| MdToolLegacy.LegacyExport | main.cpp:240-298 | the older ExportMD returns only MD_WRONG_SIGNATURE or MD_FAILURE |
| MdToolLegacy.LegacyExportNeverOk | main.cpp:240-298 | the older ExportMD never returns MD_OK; it returns MD_WRONG_SIGNATURE iff the signature is invalid, and MD_FAILURE after a complete walk |
| MdToolLegacy.LegacySubdivisionCursor | main.cpp:275-291 | after a subdivision actualFilePtr is the even skip target, marker + 32 + 20n, and the stream is 8n past it; the newer revision's uv block starts at that target realigned |
| MdToolLegacy.LegacySubdivisionEven | main.cpp:219-236 | from an even stream position a subdivision never reaches the undefined realignment loop, and ends at an even position |
| MdToolLegacy.LegacySubdivisionsEven | main.cpp:275-295 | from an even position the older subdivision loop never reaches the undefined loop, and ends even |
| MdToolLegacy.LegacySubmeshEven | main.cpp:258-296 | with an odd window a submesh starts its subdivisions at an even offset, so never reaches the undefined loop, and ends even |
| MdToolLegacy.LegacySubmeshesEven | main.cpp:258-296 | with an odd window the older submesh loop never reaches the undefined loop from an even position |
| MdToolLegacy.LegacyExportDefined | main.cpp:240-298 | with a 3- or 7-byte window (any odd one) the older ExportMD never reaches the undefined realignment loop |
| MdToolLegacy.IsValidHeaderSignature | main.cpp:163-171 | returns true iff the three bytes at the stream position are "scr"; after a full read the stream is 3 bytes on |
| MdToolLegacy.SeekForHeader | main.cpp:173-192 | finds the token iff the token scan does; every failed probe sets actualFilePtr to the next probe start, where the stream goes |
| MdToolLegacy.SeekForSubdvisionHeader | main.cpp:194-208 | scans for 0x20 without realigning; actualFilePtr follows each failed probe; a match leaves the stream 4 past the marker |
| MdToolLegacy.ReadVertexPositionBuffer | main.cpp:210-217 | succeeds iff 16n bytes remain; advances the stream and actualFilePtr by 16 per vertex |
| MdToolLegacy.ReadVertexUVBuffer | main.cpp:219-238 | sets actualFilePtr to the cursor + 4n and seeks there; then reads n 8-byte records |
| MdToolLegacy.ExportSubdivision | main.cpp:275-291 | one pass of the older subdivision loop moves stream and actualFilePtr as the older walk says |
| MdToolLegacy.ExportSubmesh | main.cpp:258-296 | one pass of the older submesh loop, with actualFilePtr set after the match, then +1, then +4 past the header |
| MdToolLegacy.ExportMD | main.cpp:240-298 | the older traversal returns exactly the older walk's status code |

## Left out

- File output, `printf`/`fprintf` text, `%0.5f` formatting and the emitted C typedef are I/O. `MdListing` models what is written as values, not as text.
- Command-line parsing and `main` are plumbing around `ExportMD`.
- The output file path reaches the model only as the name prefix of `MdListing`.
- Float arithmetic is not modelled. Positions keep their raw 32-bit words. The uv decode is stated over reals without rounding (`MdListing.TexCoord`).
- `malloc`/`free`, the undersized buffers of `main.cpp` and the `_DEBUG` path overrides are left out.
- The source's scans never stop on a file without the marker. In the model a scan fails with `MarkerNotFound` once a probe would read past the end. This is the one deliberate departure from the source.
- A short `fread` leaves a stale buffer in the source. In the model it fails the decode with `Truncated`. A signature read shorter than 3 bytes counts as a wrong signature.
- Positions are unbounded naturals. The `long` range of `ftell` and the `uint32_t filePtr` at src/main.cpp:307, which is never used, are not modelled.
- MdListing.ListName: requires both numbers below 100, because `sprintf` overflows `vertexListId[7]` beyond that.
- MdListing.ListingsOf: takes the name prefix as given and requires fewer than 100 submeshes and subdivisions. When the path's first `'.'` is at index 0 (as in `./out.h`), or it has none, `StringGetFirstNotOf` gives no prefix and the source appends to an uninitialised name; that case has no listing in the model.
- MdListing.ListingsOf: builds the index list with the corrected rule `StripTriples` (see Findings), so a subdivision of 0 or 1 vertices gets no triples; the source writes 2^32 - 2 or 2^32 - 1 of them there (src/main.cpp:260, 338).
- MdListing.WriteIndices: requires n >= 2. For smaller n the uint32 bound wraps (see Findings).
- MdTool.ExportMD: returns the decoded mesh, not the file written. In the source the listings are written while decoding. `MdListing.ListingsOf` gives the listings of a decoded mesh.
- MdToolLegacy.ReadVertexUVBuffer: the realignment loop of main.cpp:225-229 is undefined behaviour, and is modelled only when it does not run. Its test `*actualFilePtr & HEX_LINE_OFFSET != 0` parses as `& 1`, and its body increments the pointer, not the value. An odd skip target fails with `Undefined`; `MdToolLegacy.LegacyExportDefined` proves that this never happens with a 3- or 7-byte "mdb" window, so the loop never runs on a 32-bit or a 64-bit build. The 8-byte records are read for their effect on the cursor; their values and the float conversion are not modelled.
- MdToolLegacy.ReadVertexPositionBuffer: the positions are read for their effect on the cursors only. The older ExportMD discards them.

## Findings

| source | as written | input that shows it | evidently intended | confidence | as-written member | corrected member |
|---|---|---|---|---|---|---|
| src/main.cpp:258-263 | the loop bound `size - 2` is uint32 and wraps when a subdivision has fewer than 2 vertices | VertexCount = 0 gives 2^32 - 2 iterations; VertexCount = 1 gives 2^32 - 1 | no index triples for fewer than 2 vertices | not executed | MdListing.IndexCountAsWrittenWraps | MdListing.StripTriples |
