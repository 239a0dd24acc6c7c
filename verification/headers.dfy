/**
 * The three fixed-layout header records of a grid message, their byte
 * sizes, their serialisation (fields in declaration order, little-endian),
 * the offset-threading readers, and the helpers that write a header into
 * or read it from a message buffer at a given offset.
 */
module Headers {
  import opened Bytes

  // Byte widths fixed for the host types the records are sized with.
  const BoolSize: nat := 1
  const Uint8Size: nat := 1
  const FloatSize: nat := 4
  const UnsignedSize: nat := 4
  const UnsignedLongSize: nat := 8
  const BitCountSize: nat := 1

  /** A single-precision float, carried as its 32-bit IEEE-754 pattern. */
  type float32 = uint32

  /** A per-cell bit width of one quantised axis or colour channel. */
  type BitCount = byte

  datatype Vec8 = Vec8(x: byte, y: byte, z: byte)
  datatype Vec3f = Vec3f(x: float32, y: float32, z: float32)
  datatype BoundingBox = BoundingBox(min: Vec3f, max: Vec3f)

  /** First chunk of every message; never entropy coded. */
  datatype GlobalHeader = GlobalHeader(entropyCoding: bool, uncompressedSize: uint64, appendixSize: uint64)

  /** Meta information of a grid; first record of the (possibly compressed) body. */
  datatype GridHeader = GridHeader(dimensions: Vec8, boundingBox: BoundingBox, numBlacklist: uint32)

  /** Bit widths of the x, y and z component of a cell's positions or colours. */
  datatype Encoding = Encoding(x: BitCount, y: BitCount, z: BitCount)

  /** Meta information of one cell; `cellIdx` is kept for debugging only and is never serialised. */
  datatype CellHeader = CellHeader(cellIdx: uint32, pointEncoding: Encoding, colorEncoding: Encoding, numElements: uint32)

  function GlobalHeaderByteSize(): (n: nat)
    ensures n == 17
  {
    BoolSize + 2 * UnsignedLongSize
  }

  function GridHeaderByteSize(): (n: nat)
    ensures n == 31
  {
    3 * Uint8Size + 6 * FloatSize + UnsignedSize
  }

  function CellHeaderByteSize(): (n: nat)
    ensures n == 10
  {
    1 * UnsignedSize + 6 * BitCountSize
  }

  // ----- serialisation -----

  function BoolByte(b: bool): byte
  {
    if b then 1 else 0
  }

  function GlobalHeaderBytes(h: GlobalHeader): (r: seq<byte>)
    ensures |r| == GlobalHeaderByteSize()
  {
    Pow256Widths();
    [BoolByte(h.entropyCoding)]
      + EncodeLE(h.uncompressedSize, UnsignedLongSize)
      + EncodeLE(h.appendixSize, UnsignedLongSize)
  }

  function Vec3fBytes(v: Vec3f): (r: seq<byte>)
    ensures |r| == 3 * FloatSize
  {
    Pow256Widths();
    EncodeLE(v.x, FloatSize) + EncodeLE(v.y, FloatSize) + EncodeLE(v.z, FloatSize)
  }

  function GridHeaderBytes(h: GridHeader): (r: seq<byte>)
    ensures |r| == GridHeaderByteSize()
  {
    Pow256Widths();
    [h.dimensions.x, h.dimensions.y, h.dimensions.z]
      + Vec3fBytes(h.boundingBox.min) + Vec3fBytes(h.boundingBox.max)
      + EncodeLE(h.numBlacklist, UnsignedSize)
  }

  function CellHeaderBytes(h: CellHeader): (r: seq<byte>)
    ensures |r| == CellHeaderByteSize()
  {
    Pow256Widths();
    [h.pointEncoding.x, h.pointEncoding.y, h.pointEncoding.z,
     h.colorEncoding.x, h.colorEncoding.y, h.colorEncoding.z]
      + EncodeLE(h.numElements, UnsignedSize)
  }

  // ----- parsing at an offset -----

  function ReadUInt32(s: seq<byte>, offset: nat): uint32
    requires offset + UnsignedSize <= |s|
  {
    Pow256Widths();
    DecodeLE(s[offset..offset + UnsignedSize])
  }

  function ParseGlobalHeader(s: seq<byte>, offset: nat): (r: Option<Parsed<GlobalHeader>>)
    ensures r.Some? <==> offset + GlobalHeaderByteSize() <= |s|
    ensures r.Some? ==> r.value.next == offset + GlobalHeaderByteSize()
  {
    if offset + GlobalHeaderByteSize() > |s| then None
    else
      Pow256Widths();
      var h := GlobalHeader(
        s[offset] != 0,
        DecodeLE(s[offset + 1..offset + 9]),
        DecodeLE(s[offset + 9..offset + 17]));
      Some(Parsed(h, offset + GlobalHeaderByteSize()))
  }

  function ParseVec3f(s: seq<byte>, offset: nat): Vec3f
    requires offset + 3 * FloatSize <= |s|
  {
    Vec3f(ReadUInt32(s, offset), ReadUInt32(s, offset + 4), ReadUInt32(s, offset + 8))
  }

  function ParseGridHeader(s: seq<byte>, offset: nat): (r: Option<Parsed<GridHeader>>)
    ensures r.Some? <==> offset + GridHeaderByteSize() <= |s|
    ensures r.Some? ==> r.value.next == offset + GridHeaderByteSize()
  {
    if offset + GridHeaderByteSize() > |s| then None
    else
      var h := GridHeader(
        Vec8(s[offset], s[offset + 1], s[offset + 2]),
        BoundingBox(ParseVec3f(s, offset + 3), ParseVec3f(s, offset + 15)),
        ReadUInt32(s, offset + 27));
      Some(Parsed(h, offset + GridHeaderByteSize()))
  }

  /** The cell header at `offset`; its debug index is supplied by the reader. */
  function ParseCellHeader(s: seq<byte>, offset: nat, cellIdx: uint32): (r: Option<Parsed<CellHeader>>)
    ensures r.Some? <==> offset + CellHeaderByteSize() <= |s|
    ensures r.Some? ==> r.value.next == offset + CellHeaderByteSize() && r.value.value.cellIdx == cellIdx
  {
    if offset + CellHeaderByteSize() > |s| then None
    else
      var h := CellHeader(
        cellIdx,
        Encoding(s[offset], s[offset + 1], s[offset + 2]),
        Encoding(s[offset + 3], s[offset + 4], s[offset + 5]),
        ReadUInt32(s, offset + 6));
      Some(Parsed(h, offset + CellHeaderByteSize()))
  }

  // ----- round trips -----

  lemma ReadEncodedUInt32(s: seq<byte>, offset: nat, x: uint32)
    requires offset + UnsignedSize <= |s|
    requires Pow256(4) == 0x1_0000_0000
    requires s[offset..offset + UnsignedSize] == EncodeLE(x, UnsignedSize)
    ensures ReadUInt32(s, offset) == x
  {
    DecodeEncodeLE(x, UnsignedSize);
  }

  /** A global header held at `offset` reads back, and the read advances by its byte size. */
  lemma GlobalHeaderAt(h: GlobalHeader, s: seq<byte>, offset: nat)
    requires Holds(s, offset, GlobalHeaderBytes(h))
    ensures ParseGlobalHeader(s, offset) == Some(Parsed(h, offset + GlobalHeaderByteSize()))
  {
    Pow256Widths();
    var flag := [BoolByte(h.entropyCoding)];
    var size := EncodeLE(h.uncompressedSize, UnsignedLongSize);
    var appendix := EncodeLE(h.appendixSize, UnsignedLongSize);
    HoldsSplit(s, offset, flag + size, appendix);
    HoldsSplit(s, offset, flag, size);
    HoldsAt(s, offset, flag, 0);
    HoldsSlice(s, offset + 1, size);
    HoldsSlice(s, offset + 9, appendix);
    DecodeEncodeLE(h.uncompressedSize, 8);
    DecodeEncodeLE(h.appendixSize, 8);
  }

  /** Reading the global header where it was written recovers it and advances by its byte size. */
  lemma GlobalHeaderRoundTrip(h: GlobalHeader, prefix: seq<byte>, suffix: seq<byte>)
    ensures ParseGlobalHeader(prefix + GlobalHeaderBytes(h) + suffix, |prefix|)
         == Some(Parsed(h, |prefix| + GlobalHeaderByteSize()))
  {
    HoldsMiddle(prefix, GlobalHeaderBytes(h), suffix);
    GlobalHeaderAt(h, prefix + GlobalHeaderBytes(h) + suffix, |prefix|);
  }

  lemma Vec3fAt(v: Vec3f, s: seq<byte>, offset: nat)
    requires Holds(s, offset, Vec3fBytes(v))
    ensures ParseVec3f(s, offset) == v
  {
    Pow256Widths();
    var x := EncodeLE(v.x, FloatSize);
    var y := EncodeLE(v.y, FloatSize);
    var z := EncodeLE(v.z, FloatSize);
    HoldsSplit(s, offset, x + y, z);
    HoldsSplit(s, offset, x, y);
    HoldsSlice(s, offset, x);
    HoldsSlice(s, offset + 4, y);
    HoldsSlice(s, offset + 8, z);
    ReadEncodedUInt32(s, offset, v.x);
    ReadEncodedUInt32(s, offset + 4, v.y);
    ReadEncodedUInt32(s, offset + 8, v.z);
  }

  /** A grid header held at `offset` reads back, and the read advances by its byte size. */
  lemma GridHeaderAt(h: GridHeader, s: seq<byte>, offset: nat)
    requires Holds(s, offset, GridHeaderBytes(h))
    ensures ParseGridHeader(s, offset) == Some(Parsed(h, offset + GridHeaderByteSize()))
  {
    Pow256Widths();
    var dims := [h.dimensions.x, h.dimensions.y, h.dimensions.z];
    var lo := Vec3fBytes(h.boundingBox.min);
    var hi := Vec3fBytes(h.boundingBox.max);
    var nb := EncodeLE(h.numBlacklist, UnsignedSize);
    HoldsSplit(s, offset, dims + lo + hi, nb);
    HoldsSplit(s, offset, dims + lo, hi);
    HoldsSplit(s, offset, dims, lo);
    HoldsAt(s, offset, dims, 0);
    HoldsAt(s, offset, dims, 1);
    HoldsAt(s, offset, dims, 2);
    Vec3fAt(h.boundingBox.min, s, offset + 3);
    Vec3fAt(h.boundingBox.max, s, offset + 15);
    HoldsSlice(s, offset + 27, nb);
    ReadEncodedUInt32(s, offset + 27, h.numBlacklist);
  }

  /** Reading the grid header where it was written recovers it and advances by its byte size. */
  lemma GridHeaderRoundTrip(h: GridHeader, prefix: seq<byte>, suffix: seq<byte>)
    ensures ParseGridHeader(prefix + GridHeaderBytes(h) + suffix, |prefix|)
         == Some(Parsed(h, |prefix| + GridHeaderByteSize()))
  {
    HoldsMiddle(prefix, GridHeaderBytes(h), suffix);
    GridHeaderAt(h, prefix + GridHeaderBytes(h) + suffix, |prefix|);
  }

  /** A cell header held at `offset` reads back, with whatever debug index the reader supplies. */
  lemma CellHeaderAt(h: CellHeader, s: seq<byte>, offset: nat, cellIdx: uint32)
    requires Holds(s, offset, CellHeaderBytes(h))
    ensures ParseCellHeader(s, offset, cellIdx) == Some(Parsed(h.(cellIdx := cellIdx), offset + CellHeaderByteSize()))
  {
    Pow256Widths();
    var b := CellHeaderBytes(h);
    assert b[6..10] == EncodeLE(h.numElements, 4);
    HoldsSlice(s, offset, b);
    SliceWithin(s, offset, 10, b, 6, 4);
    assert forall k :: 0 <= k < 6 ==> s[offset + k] == b[k];
    ReadEncodedUInt32(s, offset + 6, h.numElements);
  }

  /**
   * Reading a cell header where it was written recovers every serialised
   * field; the debug index is whatever the reader supplies.
   */
  lemma CellHeaderRoundTrip(h: CellHeader, cellIdx: uint32, prefix: seq<byte>, suffix: seq<byte>)
    ensures ParseCellHeader(prefix + CellHeaderBytes(h) + suffix, |prefix|, cellIdx)
         == Some(Parsed(h.(cellIdx := cellIdx), |prefix| + CellHeaderByteSize()))
  {
    HoldsMiddle(prefix, CellHeaderBytes(h), suffix);
    CellHeaderAt(h, prefix + CellHeaderBytes(h) + suffix, |prefix|, cellIdx);
  }

  /** The four bytes a 4-byte integer is read from are that integer's serialisation. */
  lemma ReadBackUInt32(s: seq<byte>, offset: nat)
    requires offset + UnsignedSize <= |s|
    ensures EncodeLE(ReadUInt32(s, offset), UnsignedSize) == s[offset..offset + UnsignedSize]
  {
    Pow256Widths();
    EncodeDecodeLE(s[offset..offset + UnsignedSize]);
  }

  lemma Vec3fParseExact(s: seq<byte>, offset: nat)
    requires offset + 3 * FloatSize <= |s|
    ensures Vec3fBytes(ParseVec3f(s, offset)) == s[offset..offset + 3 * FloatSize]
  {
    ReadBackUInt32(s, offset);
    ReadBackUInt32(s, offset + 4);
    ReadBackUInt32(s, offset + 8);
    SliceConcat(s, offset, offset + 4, offset + 8);
    SliceConcat(s, offset, offset + 8, offset + 12);
  }

  /** A parsed grid header accounts for exactly the bytes it was read from. */
  lemma GridHeaderParseExact(s: seq<byte>, offset: nat)
    requires offset + GridHeaderByteSize() <= |s|
    ensures GridHeaderBytes(ParseGridHeader(s, offset).value.value) == s[offset..offset + GridHeaderByteSize()]
  {
    var o := offset;
    Vec3fParseExact(s, o + 3);
    Vec3fParseExact(s, o + 15);
    ReadBackUInt32(s, o + 27);
    assert s[o..o + 3] == [s[o], s[o + 1], s[o + 2]];
    SliceConcat(s, o, o + 3, o + 15);
    SliceConcat(s, o, o + 15, o + 27);
    SliceConcat(s, o, o + 27, o + 31);
  }

  /** A parsed cell header accounts for exactly the bytes it was read from. */
  lemma CellHeaderParseExact(s: seq<byte>, offset: nat, cellIdx: uint32)
    requires offset + CellHeaderByteSize() <= |s|
    ensures CellHeaderBytes(ParseCellHeader(s, offset, cellIdx).value.value) == s[offset..offset + CellHeaderByteSize()]
  {
    Pow256Widths();
    var o := offset;
    EncodeDecodeLE(s[o + 6..o + 10]);
    assert s[o..o + 6] == [s[o], s[o + 1], s[o + 2], s[o + 3], s[o + 4], s[o + 5]];
    SliceConcat(s, o, o + 6, o + 10);
  }

  // ----- offset-threading helpers over a message buffer -----

  /** Writes `h` at `msg[offset..]`; returns the offset just past it. */
  method EncodeGlobalHeader(msg: array<byte>, h: GlobalHeader, offset: nat) returns (next: nat)
    requires offset + GlobalHeaderByteSize() <= msg.Length
    modifies msg
    ensures next == offset + GlobalHeaderByteSize()
    ensures msg[..] == Splice(old(msg[..]), offset, GlobalHeaderBytes(h))
  {
    WriteBytes(msg, offset, GlobalHeaderBytes(h));
    next := offset + GlobalHeaderByteSize();
  }

  /** Reads the global header at `msg[offset..]`, or None when the buffer is too short. */
  method DecodeGlobalHeader(msg: array<byte>, offset: nat) returns (r: Option<Parsed<GlobalHeader>>)
    ensures r == ParseGlobalHeader(msg[..], offset)
  {
    if offset + GlobalHeaderByteSize() > msg.Length {
      return None;
    }
    Pow256Widths();
    var coded := msg[offset];
    var uncompressed := ReadLE(msg, offset + 1, UnsignedLongSize);
    var appendix := ReadLE(msg, offset + 9, UnsignedLongSize);
    r := Some(Parsed(GlobalHeader(coded != 0, uncompressed, appendix), offset + GlobalHeaderByteSize()));
  }

  /** Writes `h` at `msg[offset..]`; returns the offset just past it. */
  method EncodeGridHeader(msg: array<byte>, h: GridHeader, offset: nat) returns (next: nat)
    requires offset + GridHeaderByteSize() <= msg.Length
    modifies msg
    ensures next == offset + GridHeaderByteSize()
    ensures msg[..] == Splice(old(msg[..]), offset, GridHeaderBytes(h))
  {
    WriteBytes(msg, offset, GridHeaderBytes(h));
    next := offset + GridHeaderByteSize();
  }

  method DecodeVec3f(msg: array<byte>, offset: nat) returns (v: Vec3f)
    requires offset + 3 * FloatSize <= msg.Length
    ensures v == ParseVec3f(msg[..], offset)
  {
    Pow256Widths();
    var x := ReadLE(msg, offset, FloatSize);
    var y := ReadLE(msg, offset + 4, FloatSize);
    var z := ReadLE(msg, offset + 8, FloatSize);
    v := Vec3f(x, y, z);
  }

  /** Reads the grid header at `msg[offset..]`, or None when the buffer is too short. */
  method DecodeGridHeader(msg: array<byte>, offset: nat) returns (r: Option<Parsed<GridHeader>>)
    ensures r == ParseGridHeader(msg[..], offset)
  {
    if offset + GridHeaderByteSize() > msg.Length {
      return None;
    }
    Pow256Widths();
    var dims := Vec8(msg[offset], msg[offset + 1], msg[offset + 2]);
    var min := DecodeVec3f(msg, offset + 3);
    var max := DecodeVec3f(msg, offset + 15);
    var numBlacklist := ReadLE(msg, offset + 27, UnsignedSize);
    r := Some(Parsed(GridHeader(dims, BoundingBox(min, max), numBlacklist), offset + GridHeaderByteSize()));
  }

  /** Writes the serialised fields of `h` at `msg[offset..]`; returns the offset just past them. */
  method EncodeCellHeader(msg: array<byte>, h: CellHeader, offset: nat) returns (next: nat)
    requires offset + CellHeaderByteSize() <= msg.Length
    modifies msg
    ensures next == offset + CellHeaderByteSize()
    ensures msg[..] == Splice(old(msg[..]), offset, CellHeaderBytes(h))
  {
    WriteBytes(msg, offset, CellHeaderBytes(h));
    next := offset + CellHeaderByteSize();
  }

  /** Reads the cell header at `msg[offset..]` for cell `cellIdx`, or None when the buffer is too short. */
  method DecodeCellHeader(msg: array<byte>, offset: nat, cellIdx: uint32) returns (r: Option<Parsed<CellHeader>>)
    ensures r == ParseCellHeader(msg[..], offset, cellIdx)
  {
    if offset + CellHeaderByteSize() > msg.Length {
      return None;
    }
    Pow256Widths();
    var numElements := ReadLE(msg, offset + 6, UnsignedSize);
    var h := CellHeader(
      cellIdx,
      Encoding(msg[offset], msg[offset + 1], msg[offset + 2]),
      Encoding(msg[offset + 3], msg[offset + 4], msg[offset + 5]),
      numElements);
    r := Some(Parsed(h, offset + CellHeaderByteSize()));
  }
}
