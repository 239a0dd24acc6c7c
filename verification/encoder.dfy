/**
 * The encoder object: its settings, the grid it last built or decoded,
 * and the grid and global headers of that message, updated in place by
 * encode and decode; plus the buffer-level message operations it offers
 * (finalising a message, the entropy stage, the appendix channel).
 */
module Encoder {
  import opened Bytes
  import opened Headers
  import opened Grid
  import opened Body
  import opened Message
  import opened Settings

  class PointCloudGridEncoder {
    /** Configuration; only the user changes it. */
    var settings: EncodingSettings
    /** The external compressor the entropy stage calls. */
    const coder: EntropyCoder
    /** The grid of the last encode or decode; None before the first. */
    var grid: Option<PointCloudGrid>
    /** The grid header of that message. */
    var header: Option<GridHeader>
    /** The global header of that message. */
    var globalHeader: Option<GlobalHeader>

    /** The three pieces of state are set together, and the grid agrees with its header. */
    ghost predicate Inv()
      reads this
    {
      && grid.Some? == header.Some? == globalHeader.Some?
      && (grid.Some? ==>
            && Valid(grid.value)
            && grid.value.dimensions == header.value.dimensions
            && grid.value.boundingBox == header.value.boundingBox)
    }

    constructor(s: EncodingSettings, c: EntropyCoder)
      ensures settings == s && coder == c
      ensures grid.None? && header.None? && globalHeader.None?
      ensures Inv()
    {
      settings := s;
      coder := c;
      grid := None;
      header := None;
      globalHeader := None;
    }

    /** The grid of the last encode or decode; None before the first. */
    function GetPointCloudGrid(): (r: Option<PointCloudGrid>)
      reads this
      requires Inv()
      ensures r.Some? ==> Valid(r.value) && globalHeader.Some?
    {
      grid
    }

    /**
     * Builds the grid of the selected points with `build`, encodes its
     * body, compresses it when the settings ask for it, and finalises the
     * message.
     */
    method Encode<P>(points: seq<P>, numPoints: int, build: seq<P> -> PointCloudGrid) returns (msg: array<byte>)
      requires Valid(build(SelectPoints(points, numPoints)))
      modifies this
      ensures settings == old(settings)
      ensures grid == Some(build(SelectPoints(points, numPoints)))
      ensures header == Some(HeaderOf(grid.value))
      ensures globalHeader == Some(GlobalHeaderFor(grid.value, settings.entropyCoding, settings.appendixSize))
      ensures fresh(msg)
      ensures msg[..] == EncodeMessage(grid.value, settings.entropyCoding, settings.appendixSize, coder)
      ensures Inv()
    {
      var g := build(SelectPoints(points, numPoints));
      grid := Some(g);
      var body := EncodePointCloudGrid(g);
      header := Some(HeaderOf(g));
      var payload := body;
      if settings.entropyCoding {
        payload := EntropyCompression(body);
      }
      globalHeader := Some(GlobalHeaderFor(g, settings.entropyCoding, settings.appendixSize));
      msg := FinalizeMessage(payload);
    }

    /** A fresh buffer holding the compressed contents of `msg`. */
    method EntropyCompression(msg: array<byte>) returns (r: array<byte>)
      ensures fresh(r) && r[..] == coder.compress(msg[..])
    {
      r := FromSeq(coder.compress(msg[..]));
    }

    /** A fresh buffer holding the decompression of the `length` bytes at `msg[offset..]` to `size` bytes. */
    method EntropyDecompression(msg: array<byte>, offset: nat, length: nat, size: nat) returns (r: array<byte>)
      requires offset + length <= msg.Length
      ensures fresh(r) && r[..] == coder.decompress(msg[offset..offset + length], size)
    {
      r := FromSeq(coder.decompress(msg[offset..offset + length], size));
    }

    /** Puts the global header in front of `payload` and reserves the zeroed appendix space behind it. */
    method FinalizeMessage(payload: array<byte>) returns (msg: array<byte>)
      requires globalHeader.Some?
      ensures fresh(msg) && msg[..] == Finalized(globalHeader.value, payload[..])
    {
      var gh := globalHeader.value;
      FinalizedSize(gh, payload[..]);
      msg := new byte[GlobalHeaderByteSize() + payload.Length + gh.appendixSize](_ => 0);
      ghost var m0 := msg[..];
      var off := EncodeGlobalHeader(msg, gh, 0);
      WriteBytes(msg, off, payload[..]);
      SpliceTwice(m0, 0, GlobalHeaderBytes(gh), payload[..]);
      assert m0[GlobalHeaderByteSize() + payload.Length..] == Zeros(gh.appendixSize);
    }

    /**
     * Reads the global header and unpacks the body between it and the
     * appendix, decompressing it when the header says so; None when the
     * frame is malformed or the body lacks the declared size.
     */
    method UnpackBody(msg: array<byte>) returns (r: Option<(GlobalHeader, array<byte>)>)
      ensures r.None? <==> (
        || ParseFrame(msg[..]).None?
        || |Unpack(ParseFrame(msg[..]).value.0, ParseFrame(msg[..]).value.1, coder)| != ParseFrame(msg[..]).value.0.uncompressedSize)
      ensures r.Some? ==> (
        && fresh(r.value.1)
        && r.value.0 == ParseFrame(msg[..]).value.0
        && r.value.1[..] == Unpack(ParseFrame(msg[..]).value.0, ParseFrame(msg[..]).value.1, coder))
    {
      var f := DecodeGlobalHeader(msg, 0);
      if f.None? || GlobalHeaderByteSize() + f.value.value.appendixSize > msg.Length {
        return None;
      }
      var gh := f.value.value;
      var length := msg.Length - gh.appendixSize - GlobalHeaderByteSize();
      assert ParseFrame(msg[..]) == Some((gh, msg[GlobalHeaderByteSize()..GlobalHeaderByteSize() + length]));
      var body: array<byte>;
      if gh.entropyCoding {
        body := EntropyDecompression(msg, GlobalHeaderByteSize(), length, gh.uncompressedSize);
      } else {
        body := FromSeq(msg[GlobalHeaderByteSize()..GlobalHeaderByteSize() + length]);
      }
      if body.Length != gh.uncompressedSize {
        return None;
      }
      r := Some((gh, body));
    }

    /**
     * Unpacks the body and parses the grid; on success the object holds
     * the message's headers and grid, on failure it is left as it was.
     */
    method Decode(msg: array<byte>) returns (ok: bool)
      requires Inv()
      modifies this
      ensures settings == old(settings)
      ensures ok == DecodeMessage(msg[..], coder).Some?
      ensures ok ==> (
        && globalHeader == Some(DecodeMessage(msg[..], coder).value.global)
        && header == Some(DecodeMessage(msg[..], coder).value.header)
        && grid == Some(DecodeMessage(msg[..], coder).value.grid))
      ensures !ok ==> globalHeader == old(globalHeader) && header == old(header) && grid == old(grid)
      ensures Inv()
    {
      var u := UnpackBody(msg);
      if u.None? {
        return false;
      }
      var r := DecodePointCloudGrid(u.value.1);
      if r.None? {
        return false;
      }
      globalHeader := Some(u.value.0);
      header := Some(r.value.0);
      grid := Some(r.value.1);
      ok := true;
    }

    /**
     * Copies `data` to the start of the appendix of `msg`; fails, leaving
     * `msg` untouched, when `data` exceeds the configured appendix size or
     * the message's own appendix, or the message is malformed.
     */
    method WriteToAppendix(msg: array<byte>, data: seq<byte>) returns (ok: bool)
      modifies msg
      ensures ok == WriteAppendix(old(msg[..]), data, settings.appendixSize).Some?
      ensures msg[..] == if ok then WriteAppendix(old(msg[..]), data, settings.appendixSize).value else old(msg[..])
    {
      if |data| > settings.appendixSize {
        return false;
      }
      var f := DecodeGlobalHeader(msg, 0);
      if f.None? || GlobalHeaderByteSize() + f.value.value.appendixSize > msg.Length || |data| > f.value.value.appendixSize {
        return false;
      }
      WriteBytes(msg, msg.Length - f.value.value.appendixSize, data);
      ok := true;
    }

    /** The appendix of `msg`, of the size its global header declares. */
    method ReadFromAppendix(msg: array<byte>) returns (r: Option<seq<byte>>)
      ensures r == ReadAppendix(msg[..])
    {
      var f := DecodeGlobalHeader(msg, 0);
      if f.None? || GlobalHeaderByteSize() + f.value.value.appendixSize > msg.Length {
        return None;
      }
      r := Some(msg[msg.Length - f.value.value.appendixSize..]);
    }
  }

  /** A fresh buffer holding `s`. */
  method FromSeq(s: seq<byte>) returns (a: array<byte>)
    ensures fresh(a) && a[..] == s
  {
    a := new byte[|s|](i requires 0 <= i < |s| => s[i]);
  }

  /** Under the default settings a message is entropy coded, has no appendix, and accepts only empty appendix data. */
  lemma DefaultMessage(gp: GridPrecisionDescriptor, g: PointCloudGrid, c: EntropyCoder, data: seq<byte>)
    requires Valid(g)
    ensures var s := DefaultSettings(gp);
      var m := EncodeMessage(g, s.entropyCoding, s.appendixSize, c);
      && ParseFrame(m).Some? && ParseFrame(m).value.0.entropyCoding
      && ReadAppendix(m) == Some([])
      && (WriteAppendix(m, data, s.appendixSize).Some? <==> data == [])
  {
    var s := DefaultSettings(gp);
    EncodedAppendix(g, s.entropyCoding, s.appendixSize, c);
    FrameRoundTrip(GlobalHeaderFor(g, true, 0), Payload(BodyBytes(g), true, c));
  }

  /** Encoding with a negative point count and with the number of points gives the same message. */
  lemma AllPointsSameMessage<P>(points: seq<P>, build: seq<P> -> PointCloudGrid, s: EncodingSettings, c: EntropyCoder)
    requires Valid(build(points))
    ensures SelectPoints(points, -1) == SelectPoints(points, |points|) == points
    ensures EncodeMessage(build(SelectPoints(points, -1)), s.entropyCoding, s.appendixSize, c)
         == EncodeMessage(build(SelectPoints(points, |points|)), s.entropyCoding, s.appendixSize, c)
  {
    SelectAll(points, -1);
    SelectAll(points, |points|);
  }
}
