/**
 * The assembled message: the GlobalHeader (never compressed), then the
 * body (GridHeader, blacklist and cell stream, entropy coded when the
 * header says so), then the appendix, a trailing region of the capacity
 * the header declares.  Framing, the entropy stage, the appendix channel,
 * and the whole-message round trip.
 */
module Message {
  import opened Bytes
  import opened Headers
  import opened Grid
  import opened Body

  /**
   * The external deflate-style compressor: `compress` a body, and
   * `decompress` a compressed body given the length it had before.
   */
  datatype EntropyCoder = EntropyCoder(compress: seq<byte> -> seq<byte>, decompress: (seq<byte>, nat) -> seq<byte>)

  /** Decompressing a compressed body with its original length gives the body back. */
  ghost predicate Lossless(c: EntropyCoder)
  {
    forall b: seq<byte> :: c.decompress(c.compress(b), |b|) == b
  }

  /** `n` zero bytes: the appendix space of a freshly finalised message. */
  function Zeros(n: nat): (r: seq<byte>)
    ensures |r| == n && forall i :: 0 <= i < n ==> r[i] == 0
  {
    seq(n, _ => 0)
  }

  /** The finished message: `gh` first, then `payload`, then `gh.appendixSize` bytes of appendix space. */
  function Finalized(gh: GlobalHeader, payload: seq<byte>): seq<byte>
  {
    GlobalHeaderBytes(gh) + payload + Zeros(gh.appendixSize)
  }

  /**
   * The global header of `msg` and the payload between it and the
   * appendix; None when the header is short or the declared appendix does
   * not fit behind it.
   */
  function ParseFrame(msg: seq<byte>): (r: Option<(GlobalHeader, seq<byte>)>)
    ensures r.Some? ==> GlobalHeaderByteSize() + |r.value.1| + r.value.0.appendixSize == |msg|
  {
    var gh := ParseGlobalHeader(msg, 0);
    if gh.None? || GlobalHeaderByteSize() + gh.value.value.appendixSize > |msg| then None
    else Some((gh.value.value, msg[GlobalHeaderByteSize()..|msg| - gh.value.value.appendixSize]))
  }

  /** What travels between the global header and the appendix: the body, compressed when `entropy` is set. */
  function Payload(body: seq<byte>, entropy: bool, c: EntropyCoder): seq<byte>
  {
    if entropy then c.compress(body) else body
  }

  /** The body carried by `payload` under global header `gh`. */
  function Unpack(gh: GlobalHeader, payload: seq<byte>, c: EntropyCoder): seq<byte>
  {
    if gh.entropyCoding then c.decompress(payload, gh.uncompressedSize) else payload
  }

  /**
   * The global header written for grid `g`: the entropy choice, the
   * appendix capacity, and as uncompressed size the body size computed
   * from the grid's cell headers, which is the length of the encoded body.
   */
  function GlobalHeaderFor(g: PointCloudGrid, entropy: bool, appendixSize: uint64): (gh: GlobalHeader)
    requires Valid(g)
    ensures gh.entropyCoding == entropy && gh.appendixSize == appendixSize
    ensures gh.uncompressedSize == MessageSize(NonEmptyHeaders(g.cells), |Blacklist(g.cells)|) == |BodyBytes(g)|
  {
    BodySizeBound(g);
    MessageSizeMatches(g);
    GlobalHeader(entropy, |BodyBytes(g)|, appendixSize)
  }

  /** The message the encoder produces for grid `g`. */
  function EncodeMessage(g: PointCloudGrid, entropy: bool, appendixSize: uint64, c: EntropyCoder): seq<byte>
    requires Valid(g)
  {
    Finalized(GlobalHeaderFor(g, entropy, appendixSize), Payload(BodyBytes(g), entropy, c))
  }

  /** Everything a decoded message yields. */
  datatype Decoded = Decoded(global: GlobalHeader, header: GridHeader, grid: PointCloudGrid)

  /**
   * Decodes a message: None when the frame is malformed, the unpacked
   * body does not have the declared uncompressed size, or the body does
   * not parse.
   */
  function DecodeMessage(msg: seq<byte>, c: EntropyCoder): (r: Option<Decoded>)
    ensures r.Some? ==> Valid(r.value.grid) && r.value.grid.dimensions == r.value.header.dimensions
  {
    var f := ParseFrame(msg);
    if f.None? then None
    else
      var body := Unpack(f.value.0, f.value.1, c);
      if |body| != f.value.0.uncompressedSize then None
      else
        var b := ParseBody(body);
        if b.None? then None else Some(Decoded(f.value.0, b.value.0, b.value.1))
  }

  /** The trailing appendix region, of the size the message's own global header declares. */
  function ReadAppendix(msg: seq<byte>): (r: Option<seq<byte>>)
    ensures r.Some? <==> ParseFrame(msg).Some?
    ensures r.Some? ==> |r.value| == ParseFrame(msg).value.0.appendixSize
  {
    var f := ParseFrame(msg);
    if f.None? then None else Some(msg[|msg| - f.value.0.appendixSize..])
  }

  /**
   * `msg` with `data` copied to the start of its appendix; None when
   * `data` exceeds `capacity`, the message is malformed, or its own
   * appendix is smaller than `data`.
   */
  function WriteAppendix(msg: seq<byte>, data: seq<byte>, capacity: nat): (r: Option<seq<byte>>)
    ensures r.None? <==> |data| > capacity || ReadAppendix(msg).None? || |data| > |ReadAppendix(msg).value|
    ensures r.Some? ==> |r.value| == |msg|
  {
    var f := ParseFrame(msg);
    if |data| > capacity || f.None? || |data| > f.value.0.appendixSize then None
    else Some(Splice(msg, |msg| - f.value.0.appendixSize, data))
  }

  // ----- framing -----

  /** The global header is read from the first bytes only. */
  lemma GlobalHeaderPrefix(s: seq<byte>, t: seq<byte>)
    requires GlobalHeaderByteSize() <= |s| && GlobalHeaderByteSize() <= |t|
    requires s[..GlobalHeaderByteSize()] == t[..GlobalHeaderByteSize()]
    ensures ParseGlobalHeader(s, 0) == ParseGlobalHeader(t, 0)
  {
    assert s[0] == s[..17][0] && t[0] == t[..17][0];
    assert s[1..9] == s[..17][1..9] && t[1..9] == t[..17][1..9];
    assert s[9..17] == s[..17][9..17] && t[9..17] == t[..17][9..17];
  }

  /** A finalised message frames back into its global header and payload. */
  lemma FrameRoundTrip(gh: GlobalHeader, payload: seq<byte>)
    ensures ParseFrame(Finalized(gh, payload)) == Some((gh, payload))
  {
    var hb := GlobalHeaderBytes(gh);
    var m := Finalized(gh, payload);
    HoldsWhole(m);
    HoldsSplit(m, 0, hb + payload, Zeros(gh.appendixSize));
    HoldsSplit(m, 0, hb, payload);
    GlobalHeaderAt(gh, m, 0);
    HoldsSlice(m, GlobalHeaderByteSize(), payload);
  }

  /** The finalised message is exactly the global header, the payload and the appendix space. */
  lemma FinalizedSize(gh: GlobalHeader, payload: seq<byte>)
    ensures |Finalized(gh, payload)| == GlobalHeaderByteSize() + |payload| + gh.appendixSize
    ensures Finalized(gh, payload)[GlobalHeaderByteSize()..GlobalHeaderByteSize() + |payload|] == payload
  {
    FrameRoundTrip(gh, payload);
  }

  // ----- whole-message round trip -----

  /** A frame whose body unpacks to the declared size and parses decodes to that body's grid. */
  lemma DecodeMessageOf(msg: seq<byte>, c: EntropyCoder, gh: GlobalHeader, payload: seq<byte>, body: seq<byte>, h: GridHeader, g: PointCloudGrid)
    requires ParseFrame(msg) == Some((gh, payload))
    requires body == Unpack(gh, payload, c) && |body| == gh.uncompressedSize
    requires ParseBody(body) == Some((h, g))
    ensures DecodeMessage(msg, c) == Some(Decoded(gh, h, g))
  {
  }

  /** Unpacking a packed body gives it back, whenever compression is lossless or not used. */
  lemma UnpackPayload(gh: GlobalHeader, body: seq<byte>, c: EntropyCoder)
    requires gh.uncompressedSize == |body|
    requires gh.entropyCoding ==> Lossless(c)
    ensures Unpack(gh, Payload(body, gh.entropyCoding, c), c) == body
  {
    if gh.entropyCoding {
      assert c.decompress(c.compress(body), |body|) == body;
    }
  }

  /**
   * Decoding an encoded message gives back its global header, the grid
   * header of `g`, and `g` with its empty cells normalised.
   */
  lemma MessageRoundTrip(g: PointCloudGrid, entropy: bool, appendixSize: uint64, c: EntropyCoder)
    requires Valid(g)
    requires entropy ==> Lossless(c)
    ensures DecodeMessage(EncodeMessage(g, entropy, appendixSize, c), c)
         == Some(Decoded(GlobalHeaderFor(g, entropy, appendixSize), HeaderOf(g), Normalize(g)))
  {
    var body := BodyBytes(g);
    var gh := GlobalHeaderFor(g, entropy, appendixSize);
    var payload := Payload(body, entropy, c);
    FrameRoundTrip(gh, payload);
    UnpackPayload(gh, body, c);
    BodyRoundTrip(g);
    DecodeMessageOf(Finalized(gh, payload), c, gh, payload, body, HeaderOf(g), Normalize(g));
  }

  /** With a lossless compressor, switching entropy coding on or off does not change the decoded grid. */
  lemma EntropyTransparent(g: PointCloudGrid, appendixSize: uint64, c: EntropyCoder)
    requires Valid(g) && Lossless(c)
    ensures DecodeMessage(EncodeMessage(g, true, appendixSize, c), c).Some?
    ensures DecodeMessage(EncodeMessage(g, false, appendixSize, c), c).Some?
    ensures DecodeMessage(EncodeMessage(g, true, appendixSize, c), c).value.grid
         == DecodeMessage(EncodeMessage(g, false, appendixSize, c), c).value.grid
    ensures DecodeMessage(EncodeMessage(g, true, appendixSize, c), c).value.header
         == DecodeMessage(EncodeMessage(g, false, appendixSize, c), c).value.header
  {
    MessageRoundTrip(g, true, appendixSize, c);
    MessageRoundTrip(g, false, appendixSize, c);
  }

  /**
   * Without entropy coding, a message is the global header, the body of
   * the computed message size, and the appendix space.
   */
  lemma MessageLength(g: PointCloudGrid, appendixSize: uint64, c: EntropyCoder)
    requires Valid(g)
    ensures |EncodeMessage(g, false, appendixSize, c)|
         == GlobalHeaderByteSize() + MessageSize(NonEmptyHeaders(g.cells), |Blacklist(g.cells)|) + appendixSize
  {
    FinalizedSize(GlobalHeaderFor(g, false, appendixSize), BodyBytes(g));
    MessageSizeMatches(g);
  }

  // ----- appendix channel -----

  /** A freshly encoded message carries an all-zero appendix of the configured size. */
  lemma EncodedAppendix(g: PointCloudGrid, entropy: bool, appendixSize: uint64, c: EntropyCoder)
    requires Valid(g)
    ensures ReadAppendix(EncodeMessage(g, entropy, appendixSize, c)) == Some(Zeros(appendixSize))
  {
    var gh := GlobalHeaderFor(g, entropy, appendixSize);
    var payload := Payload(BodyBytes(g), entropy, c);
    FrameRoundTrip(gh, payload);
    var m := Finalized(gh, payload);
    assert m[|m| - appendixSize..] == Zeros(appendixSize);
  }

  /** Writing to the appendix changes neither the frame nor what the message decodes to. */
  lemma AppendixIsolation(msg: seq<byte>, data: seq<byte>, capacity: nat, c: EntropyCoder)
    requires WriteAppendix(msg, data, capacity).Some?
    ensures ParseFrame(WriteAppendix(msg, data, capacity).value) == ParseFrame(msg)
    ensures DecodeMessage(WriteAppendix(msg, data, capacity).value, c) == DecodeMessage(msg, c)
  {
    var f := ParseFrame(msg).value;
    var start := |msg| - f.0.appendixSize;
    var m := WriteAppendix(msg, data, capacity).value;
    SpliceAt(msg, start, data);
    assert m[..GlobalHeaderByteSize()] == msg[..GlobalHeaderByteSize()] by {
      assert m[..GlobalHeaderByteSize()] == m[..start][..GlobalHeaderByteSize()];
      assert msg[..GlobalHeaderByteSize()] == msg[..start][..GlobalHeaderByteSize()];
    }
    GlobalHeaderPrefix(m, msg);
    assert m[GlobalHeaderByteSize()..start] == msg[GlobalHeaderByteSize()..start] by {
      assert m[GlobalHeaderByteSize()..start] == m[..start][GlobalHeaderByteSize()..];
      assert msg[GlobalHeaderByteSize()..start] == msg[..start][GlobalHeaderByteSize()..];
    }
  }

  /** Reading the appendix after a write yields the written bytes, then what the appendix held after them. */
  lemma AppendixReadBack(msg: seq<byte>, data: seq<byte>, capacity: nat)
    requires WriteAppendix(msg, data, capacity).Some?
    ensures ReadAppendix(WriteAppendix(msg, data, capacity).value)
         == Some(data + ReadAppendix(msg).value[|data|..])
  {
    var f := ParseFrame(msg).value;
    var start := |msg| - f.0.appendixSize;
    var m := WriteAppendix(msg, data, capacity).value;
    AppendixIsolation(msg, data, capacity, EntropyCoder(b => b, (b, n) => b));
    SpliceAt(msg, start, data);
    assert m[start..] == m[start..start + |data|] + m[start + |data|..];
    assert msg[start..][|data|..] == msg[start + |data|..];
  }
}
