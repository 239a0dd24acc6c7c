# PointCloudGridEncoder message format, modelled in Dafny

This project models the core of the grid-based point-cloud codec of
`include/PointCloudGridEncoder.hpp`. It covers the wire format and the
encoder's bookkeeping:

- **Headers.** The three data transfer objects and their fixed byte sizes
  are modelled: `GlobalHeader` (17 bytes), `GridHeader` (31 bytes) and
  `CellHeader` (10 bytes). So is each one's serialisation, and the
  offset-threading helpers that write or read each one at `msg.data() +
  offset` and return the offset after it.
- **Body.** The body is a `GridHeader`, then the blacklist, then a cell
  stream.
  - The blacklist holds one 4-byte entry per cell that holds no data.
  - In the cell stream, every other cell appears in ascending index order,
    as its `CellHeader` followed by its packed payload.
  - `encodePointCloudGrid`, `decodePointCloudGrid` and `calcMessageSize`
    are modelled over this body.
- **Message.** A message is the uncompressed `GlobalHeader`, then the body,
  then the appendix, which is a trailing region whose capacity the global
  header declares.
  - When `entropy_coding` is set, the body travels compressed.
  - `finalizeMessage` is modelled, along with the entropy stage and the
    appendix side channel (`writeToAppendix` and `readFromAppendix`).
- **Configuration and state.** `EncodingSettings` is modelled with its
  default values, along with the quantisation level count behind
  `getQuantizationStepSize` and the selection of points by `num_points`.
- **The encoder object.** A `PointCloudGridEncoder` class holds the grid and
  the two headers of the last message encoded or decoded. These are the
  fields `pc_grid_`, `header_` and `global_header_`.

Representation choices:

- **Integers.**
  - Every integer field is written little-endian with a fixed width.
  - `bool` and `uint8_t`/`BitCount` take one byte.
  - `unsigned` takes four bytes, and `unsigned long` takes eight.
- **Floats.** A `float` is carried as its 32-bit pattern. The wire format
  only copies floats, so no float arithmetic is modelled.
- **Cell encodings.** The six `BitCount` fields of a `CellHeader` are
  grouped into two `Encoding` triples: positions and colours. They are
  written in the source's field order.
- **Cell payload.**
  - A cell's bit-packed payload is an opaque byte region.
  - The model takes its length to be ⌈num_elements × (sum of the six
    widths) / 8⌉, with every element's fields packed contiguously. The
    header shows no body for `encodeCell` or `decodeCell`, so this is an
    assumption, and the sizes computed below rest on it.
  - The model's decoder rejects a width above 8 bits, like the other
    structural checks listed under "## Left out".
  - The field `cell_idx` is not written to the message. A decoded cell gets
    the index of the slot it is read into.
- **Empty cells.**
  - Empty cells are not written at all. The decoder fills their slots with a
    canonical empty cell.
  - So a decoded message yields `Normalize(g)`, not `g`. That is the grid
    with every cell that holds no data replaced by that canonical cell.
- **Entropy coder.** The compressor is an `EntropyCoder`, a pair of function
  values. The round-trip lemmas assume it is `Lossless`, which means that
  decompressing a compressed body with its original length gives the body
  back.

Where the header's comments and declarations settle a question, the model
follows them:

- The global header's size fields are `unsigned long`, so they take eight
  bytes each.
- Only a negative `num_points` selects all points. Zero selects none.
- An out-of-range cell index in `getQuantizationStepSize` is only logged
  before the table is indexed. The model returns `None` for it, see
  "## Left out".
- The comments disagree about where the global header is handled. Lines
  302 and 310 call `encodeGlobalHeader` and `decodeGlobalHeader` helpers of
  `encodePointCloudGrid` and `decodePointCloudGrid`, and
  `entropyDecompression` takes the whole message and an offset (line 271).
  Line 259, however, says `finalizeMessage` prepends the global header, and
  line 139 places the grid header right after it. The model follows lines
  259 and 139. `encodePointCloudGrid` and `decodePointCloudGrid` work on
  the body only. `finalizeMessage` writes the global header, and
  `UnpackBody` reads it and inflates the body from the offset after it. The
  bytes of a message and the outcome of `decode` are the same either way.

## Model

| member | source | states |
|---|---|---|
| Headers.GlobalHeaderByteSize | include/PointCloudGridEncoder.hpp:118-125 | the global header takes one bool and two unsigned longs: 17 bytes |
| Headers.GridHeaderByteSize | include/PointCloudGridEncoder.hpp:142-149 | the grid header takes three bytes of dimensions, six floats and one unsigned: 31 bytes |
| Headers.CellHeaderByteSize | include/PointCloudGridEncoder.hpp:165-179 | the cell header takes one unsigned and six bit counts: 10 bytes (cell_idx is not counted) |
| Headers.GlobalHeaderBytes | include/PointCloudGridEncoder.hpp:111-125 | every global header serialises to exactly its byte size |
| Headers.GridHeaderBytes | include/PointCloudGridEncoder.hpp:141-149 | every grid header serialises to exactly its byte size |
| Headers.CellHeaderBytes | include/PointCloudGridEncoder.hpp:165-179 | every cell header serialises to exactly its byte size, with cell_idx left out |
| Headers.ParseGlobalHeader | include/PointCloudGridEncoder.hpp:309-315 | reading a global header succeeds exactly when 17 bytes remain at the offset, and then returns the offset after them |
| Headers.ParseGridHeader | include/PointCloudGridEncoder.hpp:325-331 | reading a grid header succeeds exactly when 31 bytes remain, and then returns the offset after them |
| Headers.ParseCellHeader | include/PointCloudGridEncoder.hpp:361-367 | reading a cell header succeeds exactly when 10 bytes remain; the debug index is the reader's, not the message's |
| Headers.GlobalHeaderAt | include/PointCloudGridEncoder.hpp:301-315 | wherever the serialised global header lies in a buffer, reading at its offset gives the same header and the offset after it |
| Headers.GlobalHeaderRoundTrip | include/PointCloudGridEncoder.hpp:301-315 | decoding at the offset where encoding wrote gives back the global header, whatever surrounds it |
| Headers.GridHeaderAt | include/PointCloudGridEncoder.hpp:317-331 | wherever the serialised grid header lies in a buffer, reading at its offset gives the same header and the offset after it |
| Headers.GridHeaderRoundTrip | include/PointCloudGridEncoder.hpp:317-331 | decoding at the offset where encoding wrote gives back the grid header, whatever surrounds it |
| Headers.CellHeaderAt | include/PointCloudGridEncoder.hpp:353-367 | a serialised cell header reads back with every written field intact and the reader's index as cell_idx |
| Headers.CellHeaderRoundTrip | include/PointCloudGridEncoder.hpp:353-367 | decoding a cell header where it was encoded gives it back when the reader's index is its own |
| Headers.GridHeaderParseExact | include/PointCloudGridEncoder.hpp:325-331 | the 31 bytes a grid header is read from are exactly the serialisation of the header read: no byte is ignored |
| Headers.CellHeaderParseExact | include/PointCloudGridEncoder.hpp:361-367 | the 10 bytes a cell header is read from are exactly the serialisation of the header read |
| Headers.EncodeGlobalHeader | include/PointCloudGridEncoder.hpp:301-307 | writes the header's bytes at the offset, leaves the rest of the buffer as it was, returns the offset plus 17 |
| Headers.DecodeGlobalHeader | include/PointCloudGridEncoder.hpp:309-315 | returns what ParseGlobalHeader reads at the offset |
| Headers.EncodeGridHeader | include/PointCloudGridEncoder.hpp:317-323 | writes the header's bytes at the offset, leaves the rest unchanged, returns the offset plus 31 |
| Headers.DecodeGridHeader | include/PointCloudGridEncoder.hpp:325-331 | returns what ParseGridHeader reads at the offset |
| Headers.EncodeCellHeader | include/PointCloudGridEncoder.hpp:353-359 | writes the header's bytes at the offset, leaves the rest unchanged, returns the offset plus 10 |
| Headers.DecodeCellHeader | include/PointCloudGridEncoder.hpp:361-367 | returns what ParseCellHeader reads at the offset |
| Grid.CellCount | include/PointCloudGridEncoder.hpp:142 | a grid of one-byte dimensions has at most 255³ cells |
| Grid.PayloadBound | include/PointCloudGridEncoder.hpp:168-174 | with every width at most 8 bits, a payload takes at most 6 bytes per element |
| Grid.Blacklist | include/PointCloudGridEncoder.hpp:333-341 | the blacklist has at most one entry per cell |
| Grid.BlacklistExact | include/PointCloudGridEncoder.hpp:333-341 | an index is blacklisted if and only if it is a cell of the grid holding no data |
| Grid.BlacklistAscending | include/PointCloudGridEncoder.hpp:333-341 | the blacklist is strictly ascending |
| Grid.ComputeBlacklist | include/PointCloudGridEncoder.hpp:333-341 | scanning the cells in index order collects exactly the blacklist |
| Grid.NormalizeIdempotent | include/PointCloudGridEncoder.hpp:377-383 | normalising keeps a grid valid, and normalising twice equals normalising once |
| Body.BlacklistBytes | include/PointCloudGridEncoder.hpp:333-341 | the blacklist takes four bytes per entry |
| Body.ParseBlacklist | include/PointCloudGridEncoder.hpp:343-351 | reading n entries succeeds exactly when 4·n bytes remain, gives n entries and returns the offset after them |
| Body.BlacklistAt | include/PointCloudGridEncoder.hpp:333-351 | a serialised blacklist reads back unchanged wherever it lies in a buffer |
| Body.EncodeBlackList | include/PointCloudGridEncoder.hpp:333-341 | writes the blacklist's bytes at the offset, leaves the rest unchanged, returns the offset plus four bytes per entry |
| Body.DecodeBlackList | include/PointCloudGridEncoder.hpp:343-351 | returns what ParseBlacklist reads at the offset |
| Body.CellStreamAppend | include/PointCloudGridEncoder.hpp:353-375 | the stream of two runs of cells is the stream of the first followed by that of the second |
| Body.HeaderOf | include/PointCloudGridEncoder.hpp:141-144 | the grid header carries the grid's dimensions and bounding box, and its blacklist count plus the number of cell headers in the stream is the number of cells |
| Body.BlacklistComplete | include/PointCloudGridEncoder.hpp:333-341 | every cell is either blacklisted or has its header in the cell stream: the two counts add up to the cell count |
| Body.ParsePayload | include/PointCloudGridEncoder.hpp:377-383 | a payload read has the length its cell header determines and ends within the buffer |
| Body.ParseCell | include/PointCloudGridEncoder.hpp:361-383 | a cell read is valid for the index it is read into and its bytes lie within the buffer |
| Body.NextCell | include/PointCloudGridEncoder.hpp:377-383 | the next slot read is valid for its index and never moves the offset backwards |
| Body.ParseCellsShape | include/PointCloudGridEncoder.hpp:293-299 | reading the cells fills every slot from the first index to the last, each valid for its index |
| Body.ParseBody | include/PointCloudGridEncoder.hpp:293-299 | a body that parses yields a valid grid whose dimensions and bounding box are those of its grid header |
| Body.BlacklistInRange | include/PointCloudGridEncoder.hpp:343-351 | every index the encoder blacklists lies in the grid's cell range, so the decoder's range check accepts it |
| Body.CellsRead | include/PointCloudGridEncoder.hpp:369-383 | a serialised cell stream lying anywhere in a buffer reads back as the normalised cells and ends where the stream ends |
| Body.BodyAt | include/PointCloudGridEncoder.hpp:288-299 | a buffer holding exactly a grid's body parses to that grid's header and its normalised grid |
| Body.BodyRoundTrip | include/PointCloudGridEncoder.hpp:288-299 | decoding an encoded body yields the header written and the normalised grid |
| Body.CalcMessageSize | include/PointCloudGridEncoder.hpp:396-399 | the loop over the cell headers sums to MessageSize: grid header, blacklist, and each listed header with its payload |
| Body.CellsByteSizeMatches | include/PointCloudGridEncoder.hpp:396-399 | the headers and payloads of the cells with data add up to the length of the cell stream |
| Body.MessageSizeMatches | include/PointCloudGridEncoder.hpp:396-399 | the computed message size of a grid's non-empty cell headers is the exact length of its encoded body |
| Body.BodySizeBound | include/PointCloudGridEncoder.hpp:119 | every body is shorter than 2^64 bytes, so its size fits uncompressed_size |
| Body.EncodeCell | include/PointCloudGridEncoder.hpp:369-375 | copies the cell's payload to the offset, leaves the rest unchanged, returns the offset after it |
| Body.DecodeCell | include/PointCloudGridEncoder.hpp:377-383 | returns what ParsePayload reads for the header at the offset |
| Body.EncodeCellStream | include/PointCloudGridEncoder.hpp:353-375 | writes the whole cell stream at the offset, leaves the rest unchanged, returns the offset after it |
| Body.EncodePointCloudGrid | include/PointCloudGridEncoder.hpp:288-291 | returns a new buffer holding exactly the grid's body |
| Body.DecodeNextCell | include/PointCloudGridEncoder.hpp:361-383 | returns what NextCell reads for the slot |
| Body.DecodeCells | include/PointCloudGridEncoder.hpp:293-299 | the loop over every slot in ascending order returns what ParseCells reads |
| Body.DecodePointCloudGrid | include/PointCloudGridEncoder.hpp:293-299 | returns what ParseBody reads from the buffer |
| Message.ParseFrame | include/PointCloudGridEncoder.hpp:258-261 | a framed message is its global header, the payload, and the appendix of the declared size, with nothing left over |
| Message.GlobalHeaderFor | include/PointCloudGridEncoder.hpp:111-120 | the global header records the entropy choice and the appendix capacity, and as uncompressed size the body size calcMessageSize computes from the grid's cell headers, which is the length of the encoded body |
| Message.DecodeMessage | include/PointCloudGridEncoder.hpp:208-211 | a decoded message yields a valid grid with the dimensions its grid header declares |
| Message.ReadAppendix | include/PointCloudGridEncoder.hpp:244-249 | reading the appendix succeeds exactly when the message is framed, and gives as many bytes as its header declares |
| Message.WriteAppendix | include/PointCloudGridEncoder.hpp:222-232 | writing fails exactly when the data exceeds the configured size, the message is malformed, or its appendix is smaller than the data; it never changes the message's length |
| Message.FrameRoundTrip | include/PointCloudGridEncoder.hpp:258-261 | a finalised message frames back into its global header and payload |
| Message.FinalizedSize | include/PointCloudGridEncoder.hpp:258-261 | a finalised message is 17 bytes plus the payload plus the appendix capacity, with the payload right after the header |
| Message.MessageRoundTrip | include/PointCloudGridEncoder.hpp:200-211 | with a lossless compressor, decoding an encoded message yields its global header, its grid header and the normalised grid |
| Message.EntropyTransparent | include/PointCloudGridEncoder.hpp:263-271 | with a lossless compressor, turning entropy coding on or off does not change the decoded grid or header |
| Message.MessageLength | include/PointCloudGridEncoder.hpp:396-399 | an uncompressed message is 17 bytes plus the computed body size plus the appendix capacity |
| Message.EncodedAppendix | include/PointCloudGridEncoder.hpp:258-261 | a fresh message's appendix is the configured number of zero bytes |
| Message.AppendixIsolation | include/PointCloudGridEncoder.hpp:222-232 | writing the appendix changes neither the frame's header and payload nor the decoded message |
| Message.AppendixReadBack | include/PointCloudGridEncoder.hpp:222-249 | after a successful write, reading the appendix gives the data followed by the appendix bytes behind it |
| Settings.Pow2Grows | include/PointCloudGridEncoder.hpp:50-54 | more bits of precision give strictly more quantisation values |
| Settings.Pow2Byte | include/PointCloudGridEncoder.hpp:50-54 | a precision of at most 8 bits gives at most 256 values |
| Settings.QuantizationLevels | include/PointCloudGridEncoder.hpp:40-54 | the level counts exist exactly for a cell index inside the precision table |
| Settings.LevelsOrdered | include/PointCloudGridEncoder.hpp:50-54 | every cell has at least one level per axis, exactly one where its precision is 0, and more where its precision is larger |
| Settings.SelectPoints | include/PointCloudGridEncoder.hpp:200-206 | a negative count selects all points; otherwise the first num_points (all when there are fewer); always a prefix |
| Settings.SelectAll | include/PointCloudGridEncoder.hpp:200-206 | asking for at least as many points as there are selects all of them |
| Settings.SelectIdempotent | include/PointCloudGridEncoder.hpp:200-206 | selecting again with the same count changes nothing |
| Encoder.PointCloudGridEncoder.constructor | include/PointCloudGridEncoder.hpp:197 | a new encoder holds the given settings and no grid or headers yet |
| Encoder.PointCloudGridEncoder.GetPointCloudGrid | include/PointCloudGridEncoder.hpp:213-220 | None before the first encode or decode; otherwise a valid grid, with its headers set |
| Encoder.PointCloudGridEncoder.Encode | include/PointCloudGridEncoder.hpp:200-206 | builds the grid of the selected points, records it and both headers, keeps the settings, returns the encoded message |
| Encoder.PointCloudGridEncoder.EntropyCompression | include/PointCloudGridEncoder.hpp:263-266 | returns a new buffer holding the compressed message |
| Encoder.PointCloudGridEncoder.EntropyDecompression | include/PointCloudGridEncoder.hpp:268-271 | returns a new buffer holding the decompression of the bytes from the offset |
| Encoder.PointCloudGridEncoder.FinalizeMessage | include/PointCloudGridEncoder.hpp:258-261 | returns a new buffer holding the global header, the payload and zeroed appendix space |
| Encoder.PointCloudGridEncoder.UnpackBody | include/PointCloudGridEncoder.hpp:268-271 | fails exactly when the frame is malformed or the unpacked body lacks the declared size; otherwise gives the header and body |
| Encoder.PointCloudGridEncoder.Decode | include/PointCloudGridEncoder.hpp:208-211 | succeeds exactly when the message decodes, and then holds its headers and grid; on failure the state is unchanged |
| Encoder.PointCloudGridEncoder.WriteToAppendix | include/PointCloudGridEncoder.hpp:222-232 | succeeds exactly when WriteAppendix does, updating the message in place; on failure the message is unchanged |
| Encoder.PointCloudGridEncoder.ReadFromAppendix | include/PointCloudGridEncoder.hpp:244-249 | returns what ReadAppendix reads |
| Encoder.DefaultMessage | include/PointCloudGridEncoder.hpp:29-36 | under the default settings a message is entropy coded, has an empty appendix, and accepts only empty appendix data |
| Encoder.AllPointsSameMessage | include/PointCloudGridEncoder.hpp:200-206 | a negative count and the number of points encode the same message |

## Left out

- Transport: zmq messages are byte sequences or byte arrays, and no socket is modelled.
- Compression internals: zlib deflate/inflate is an `EntropyCoder` parameter. Its losslessness is a hypothesis of the round-trip lemmas. A compressor failure is not modelled.
- Float arithmetic: the quantisation step division (lines 56-60), `calcGridCellIndex` and `mapToCell` are not modelled. Floats are only copied as bit patterns.
- `buildPointCloudGrid` is the `build` function parameter of `Encode`, because it is float arithmetic over `UncompressedVoxel`. `UncompressedVoxel` and `PointCloudGrid.hpp` are not part of this model, so the point type is a type parameter.
- Encoder.PointCloudGridEncoder.Encode: requires that `build` returns a valid grid (one slot per cell of its dimensions, every width at most 8 bits, every payload of the length its header determines). The builder is not modelled, so this is assumed of it rather than proved, and the encoder's invariant after `Encode` rests on it.
- `extractPointCloudFromGrid` and the decoding of positions and colours from a payload: `Decode` stops at the grid.
- Bit packing: a payload is an opaque region. Only its length is tied to its cell header.
- Parallel cell coding (`num_threads`), `verbose`, and the effect of `irrelevance_coding` are carried as settings but not modelled.
- `toString`, console notifications, and the encode/decode logs.
- The string overloads of `writeToAppendix` and `readFromAppendix` (lines 242 and 255) only wrap the byte form.
- Failing `encode` on empty input is not part of the declared interface and is not modelled.
- The default `GridPrecisionDescriptor` is a parameter of `Settings.DefaultSettings`, because its definition is not part of this model.
- Grid.PayloadByteSize: the payload length formula (fields of every element packed contiguously, padded once to a byte) is assumed, not read from the source. The bodies of `encodeCell`, `decodeCell` and `calcMessageSize` are not visible. If the program pads positions and colours separately, the sizes proved by `Body.CalcMessageSize`, `Message.MessageLength` and `Message.GlobalHeaderFor` differ accordingly.
- Body.ParseBody: the decoder's checks are assumed, not read from the source, whose `decodePointCloudGrid` body is not visible. It rejects a width above 8 bits, a blacklist entry at or beyond the cell count, and bytes left after the last cell. `Message.DecodeMessage` likewise assumes the check that the unpacked body has the declared uncompressed size.
- Settings.SelectPoints: a `num_points` above the number of points selects all of them. The source's comments take points `[0, num_points-1]` with no clamp, which would read past the end of the vector. The model does not capture that out-of-bounds read.
- Settings.QuantizationLevels: returns `None` for an out-of-range cell index where the source only logs and then indexes out of range. It uses unbounded powers of two, without the `int` conversion of `pow` for large precisions.
- Message.WriteAppendix: also fails when the message's own appendix is smaller than the data. Copying past the end of the message there would be out of bounds.
- Encoder.PointCloudGridEncoder.Decode: on failure the state is left as it was. What the source leaves behind on failure is not specified.
- Encoder.PointCloudGridEncoder.ReadFromAppendix: returns the appendix bytes, whose length is the size the source returns, instead of a pointer and a size.
