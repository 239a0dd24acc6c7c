/**
 * The grid body of a message: GridHeader, then the blacklist of empty
 * cells, then for every other cell in ascending index order its
 * CellHeader followed by its payload.  Serialisation, parsing, the size
 * computation, and the encoder's helpers that write and read the body.
 */
module Body {
  import opened Bytes
  import opened Headers
  import opened Grid

  // ----- blacklist: one UnsignedSize (4-byte) entry per empty cell -----

  /** One blacklist entry as written. */
  function EntryBytes(e: uint32): (r: seq<byte>)
    ensures |r| == UnsignedSize
  {
    Pow256Widths();
    EncodeLE(e, UnsignedSize)
  }

  /** The blacklist as written: one four-byte entry per blacklisted index. */
  function BlacklistBytes(bl: seq<uint32>): (r: seq<byte>)
    ensures |r| == 4 * |bl|
  {
    BlacklistBytesLength(bl);
    Flatten(bl, EntryBytes)
  }

  lemma {:induction false} BlacklistBytesLength(bl: seq<uint32>)
    ensures |Flatten(bl, EntryBytes)| == 4 * |bl|
  {
    if bl != [] {
      BlacklistBytesLength(bl[..|bl| - 1]);
    }
  }

  /** `n` blacklist entries read from `offset` on. */
  function ParseBlacklist(s: seq<byte>, offset: nat, n: nat): (r: Option<Parsed<seq<uint32>>>)
    ensures r.Some? <==> offset + 4 * n <= |s|
    ensures r.Some? ==> |r.value.value| == n && r.value.next == offset + 4 * n
  {
    if offset + 4 * n > |s| then None
    else Some(Parsed(seq(n, k requires 0 <= k < n => ReadUInt32(s, offset + 4 * k)), offset + 4 * n))
  }

  lemma ParseBlacklistOf(bl: seq<uint32>, s: seq<byte>, o: nat)
    requires o + 4 * |bl| <= |s|
    requires forall k :: 0 <= k < |bl| ==> ReadUInt32(s, o + 4 * k) == bl[k]
    ensures ParseBlacklist(s, o, |bl|) == Some(Parsed(bl, o + 4 * |bl|))
  {
    assert ParseBlacklist(s, o, |bl|).value.value == bl;
  }

  /** Where the blacklist is held, entry `k` reads back from its four bytes. */
  lemma BlacklistEntryAt(bl: seq<uint32>, s: seq<byte>, o: nat, k: nat)
    requires k < |bl| && Holds(s, o, BlacklistBytes(bl))
    ensures ReadUInt32(s, o + 4 * k) == bl[k]
  {
    FlattenHeldAt(bl, EntryBytes, s, o, k);
    BlacklistBytesLength(bl[..k]);
    HoldsSlice(s, o + 4 * k, EntryBytes(bl[k]));
    Pow256Widths();
    ReadEncodedUInt32(s, o + 4 * k, bl[k]);
  }

  /** Wherever the blacklist is held, reading it there recovers it. */
  lemma BlacklistAt(bl: seq<uint32>, s: seq<byte>, o: nat)
    requires Holds(s, o, BlacklistBytes(bl))
    ensures ParseBlacklist(s, o, |bl|) == Some(Parsed(bl, o + 4 * |bl|))
  {
    forall k | 0 <= k < |bl|
      ensures ReadUInt32(s, o + 4 * k) == bl[k]
    {
      BlacklistEntryAt(bl, s, o, k);
    }
    ParseBlacklistOf(bl, s, o);
  }

  /** Writes entry `e` at `msg[offset..]`, right after the bytes `written` already put at `base`. */
  method EncodeEntry(msg: array<byte>, e: uint32, offset: nat, ghost m0: seq<byte>, ghost base: nat, ghost written: seq<byte>)
    requires base + |written| + UnsignedSize <= |m0| == msg.Length
    requires offset == base + |written| && msg[..] == Splice(m0, base, written)
    modifies msg
    ensures msg[..] == Splice(m0, base, written + EntryBytes(e))
  {
    WriteBytes(msg, offset, EntryBytes(e));
    SpliceTwice(m0, base, written, EntryBytes(e));
  }

  /** Writes the blacklist entries at `msg[offset..]`; returns the offset just past them. */
  method EncodeBlackList(msg: array<byte>, bl: seq<uint32>, offset: nat) returns (next: nat)
    requires offset + 4 * |bl| <= msg.Length
    modifies msg
    ensures next == offset + 4 * |bl|
    ensures msg[..] == Splice(old(msg[..]), offset, BlacklistBytes(bl))
  {
    ghost var m0 := msg[..];
    SpliceNothing(m0, offset);
    assert BlacklistBytes(bl[..0]) == [];
    var i := 0;
    while i < |bl|
      invariant 0 <= i <= |bl|
      invariant msg[..] == Splice(m0, offset, BlacklistBytes(bl[..i]))
    {
      FlattenSnoc(bl, i, EntryBytes);
      EncodeEntry(msg, bl[i], offset + 4 * i, m0, offset, BlacklistBytes(bl[..i]));
      i := i + 1;
    }
    assert bl[..i] == bl;
    next := offset + 4 * |bl|;
  }

  /** Reads `n` blacklist entries at `msg[offset..]`, or None when the buffer is too short. */
  method DecodeBlackList(msg: array<byte>, n: nat, offset: nat) returns (r: Option<Parsed<seq<uint32>>>)
    ensures r == ParseBlacklist(msg[..], offset, n)
  {
    if offset + 4 * n > msg.Length {
      return None;
    }
    Pow256Widths();
    var bl: seq<uint32> := [];
    var i := 0;
    while i < n
      invariant 0 <= i <= n
      invariant |bl| == i
      invariant forall k :: 0 <= k < i ==> bl[k] == ReadUInt32(msg[..], offset + 4 * k)
    {
      var entry := ReadLE(msg, offset + 4 * i, UnsignedSize);
      bl := bl + [entry];
      i := i + 1;
    }
    r := Some(Parsed(bl, offset + 4 * n));
    assert bl == ParseBlacklist(msg[..], offset, n).value.value;
  }

  // ----- cell stream -----

  /** A cell's contribution to the stream: nothing for an empty cell, else its header and payload. */
  function CellBytes(c: GridCell): seq<byte>
  {
    if IsEmpty(c) then [] else CellHeaderBytes(c.header) + c.payload
  }

  /** The cells' contributions, in index order. */
  function CellStream(cells: seq<GridCell>): seq<byte>
  {
    Flatten(cells, CellBytes)
  }

  lemma CellStreamAppend(a: seq<GridCell>, b: seq<GridCell>)
    ensures CellStream(a + b) == CellStream(a) + CellStream(b)
  {
    FlattenAppend(a, b, CellBytes);
  }

  // ----- the body -----

  /**
   * The grid header the encoder writes for `g`: the grid's layout, and a
   * blacklist count that together with the cells written to the stream
   * accounts for every cell exactly once.
   */
  function HeaderOf(g: PointCloudGrid): (h: GridHeader)
    requires |g.cells| <= MaxCells
    ensures h.dimensions == g.dimensions && h.boundingBox == g.boundingBox
    ensures h.numBlacklist == |Blacklist(g.cells)|
    ensures h.numBlacklist + |NonEmptyHeaders(g.cells)| == |g.cells|
  {
    BlacklistComplete(g.cells);
    GridHeader(g.dimensions, g.boundingBox, |Blacklist(g.cells)| as uint32)
  }

  /** Every cell is either blacklisted or has its header in the stream, never both. */
  lemma {:induction false} BlacklistComplete(cells: seq<GridCell>)
    requires |cells| <= MaxCells
    ensures |Blacklist(cells)| + |NonEmptyHeaders(cells)| == |cells|
  {
    if cells != [] {
      BlacklistComplete(cells[..|cells| - 1]);
    }
  }

  function BodyBytes(g: PointCloudGrid): seq<byte>
    requires Valid(g)
  {
    GridHeaderBytes(HeaderOf(g)) + BlacklistBytes(Blacklist(g.cells)) + CellStream(g.cells)
  }

  /** The payload of a cell with header `h` at `offset`; None for a bit width over the limit or a short buffer. */
  function ParsePayload(s: seq<byte>, offset: nat, h: CellHeader): (r: Option<Parsed<seq<byte>>>)
    ensures r.Some? ==> |r.value.value| == PayloadByteSize(h) && r.value.next == offset + PayloadByteSize(h) <= |s|
  {
    if !ValidWidths(h) || offset + PayloadByteSize(h) > |s| then None
    else Some(Parsed(s[offset..offset + PayloadByteSize(h)], offset + PayloadByteSize(h)))
  }

  function ParseCell(s: seq<byte>, offset: nat, idx: uint32): (r: Option<Parsed<GridCell>>)
    ensures r.Some? ==> ValidCell(r.value.value, idx) && offset <= r.value.next <= |s|
  {
    var h := ParseCellHeader(s, offset, idx);
    if h.None? then None
    else
      var p := ParsePayload(s, h.value.next, h.value.value);
      if p.None? then None
      else Some(Parsed(GridCell(h.value.value, p.value.value), p.value.next))
  }

  /** `acc` in front of the cells of `r`, if `r` succeeded. */
  function Join(acc: seq<GridCell>, r: Option<Parsed<seq<GridCell>>>): Option<Parsed<seq<GridCell>>>
  {
    if r.None? then None else Some(Parsed(acc + r.value.value, r.value.next))
  }

  /** Cell `idx` read at `offset`: a blacklisted index gets the empty cell and consumes nothing. */
  function NextCell(s: seq<byte>, offset: nat, idx: nat, bl: seq<uint32>): (r: Option<Parsed<GridCell>>)
    requires idx < 0x1_0000_0000
    ensures r.Some? ==> ValidCell(r.value.value, idx) && offset <= r.value.next
  {
    if idx in bl then Some(Parsed(EmptyCell(idx as uint32), offset)) else ParseCell(s, offset, idx as uint32)
  }

  /**
   * Cells `idx` up to `n` read from `offset` on: a blacklisted index gets the
   * empty cell and consumes nothing, any other reads a header and a payload.
   */
  function ParseCells(s: seq<byte>, offset: nat, idx: nat, n: nat, bl: seq<uint32>): Option<Parsed<seq<GridCell>>>
    requires n <= MaxCells
    decreases n - idx
  {
    if idx >= n then Some(Parsed([], offset))
    else
      var first := NextCell(s, offset, idx, bl);
      if first.None? then None
      else Join([first.value.value], ParseCells(s, first.value.next, idx + 1, n, bl))
  }

  /** Parsed cells fill every slot from `idx` to `n`, each consistent with its index, and never move backwards. */
  lemma {:induction false} ParseCellsShape(s: seq<byte>, offset: nat, idx: nat, n: nat, bl: seq<uint32>)
    requires idx <= n <= MaxCells
    requires ParseCells(s, offset, idx, n, bl).Some?
    ensures |ParseCells(s, offset, idx, n, bl).value.value| == n - idx
    ensures forall k :: 0 <= k < n - idx ==> ValidCell(ParseCells(s, offset, idx, n, bl).value.value[k], idx + k)
    ensures offset <= ParseCells(s, offset, idx, n, bl).value.next
    decreases n - idx
  {
    if idx < n {
      var first := NextCell(s, offset, idx, bl);
      ParseCellsShape(s, first.value.next, idx + 1, n, bl);
    }
  }

  predicate InRange(bl: seq<uint32>, n: nat)
  {
    forall k :: 0 <= k < |bl| ==> bl[k] < n
  }

  /**
   * The grid header and grid carried by a body; None when the body is
   * short, lists a blacklisted index outside the grid, has a bit width over
   * the limit, or has bytes left over.
   */
  function ParseBody(s: seq<byte>): (r: Option<(GridHeader, PointCloudGrid)>)
    ensures r.Some? ==> Valid(r.value.1)
    ensures r.Some? ==> r.value.1.dimensions == r.value.0.dimensions && r.value.1.boundingBox == r.value.0.boundingBox
  {
    var gh := ParseGridHeader(s, 0);
    if gh.None? then None
    else
      var h := gh.value.value;
      var n := CellCount(h.dimensions);
      var bl := ParseBlacklist(s, gh.value.next, h.numBlacklist);
      if bl.None? || !InRange(bl.value.value, n) then None
      else
        var cells := ParseCells(s, bl.value.next, 0, n, bl.value.value);
        if cells.None? || cells.value.next != |s| then None
        else
          ParseCellsShape(s, bl.value.next, 0, n, bl.value.value);
          Some((h, PointCloudGrid(h.dimensions, h.boundingBox, cells.value.value)))
  }

  // ----- round trip of the body -----

  /** A cell with data held at `offset` reads back, with the reader's index. */
  lemma CellAt(c: GridCell, idx: uint32, s: seq<byte>, offset: nat)
    requires ValidCell(c, idx) && !IsEmpty(c)
    requires Holds(s, offset, CellBytes(c))
    ensures ParseCell(s, offset, idx) == Some(Parsed(c, offset + |CellBytes(c)|))
  {
    HoldsSplit(s, offset, CellHeaderBytes(c.header), c.payload);
    HoldsSlice(s, offset + |CellHeaderBytes(c.header)|, c.payload);
    CellHeaderAt(c.header, s, offset, idx);
    assert c.header.(cellIdx := idx) == c.header;
  }

  /** Reading cells from `i` on is reading cell `i`, then the rest from where it ends. */
  lemma ParseCellsStep(s: seq<byte>, offset: nat, i: nat, n: nat, bl: seq<uint32>, x: GridCell, next: nat)
    requires i < n <= MaxCells
    requires NextCell(s, offset, i, bl) == Some(Parsed(x, next))
    ensures ParseCells(s, offset, i, n, bl) == Join([x], ParseCells(s, next, i + 1, n, bl))
  {
  }

  /** Cell `i` held at `offset` reads back as the normalised cell `i`, ending where its bytes end. */
  lemma NextCellAt(g: PointCloudGrid, i: nat, s: seq<byte>, offset: nat)
    requires Valid(g) && i < |g.cells|
    requires Holds(s, offset, CellBytes(g.cells[i]))
    ensures NextCell(s, offset, i, Blacklist(g.cells)) == Some(Parsed(Normalize(g).cells[i], offset + |CellBytes(g.cells[i])|))
  {
    var c := g.cells[i];
    assert ValidCell(c, i);
    BlacklistExact(g.cells, i);
    if !IsEmpty(c) {
      CellAt(c, i as uint32, s, offset);
    }
  }

  /** Reading from cell `i` on yields the normalised cell `i`, then whatever follows its bytes. */
  lemma FirstCellAt(g: PointCloudGrid, i: nat, s: seq<byte>, offset: nat, next: nat)
    requires Valid(g) && i < |g.cells|
    requires Holds(s, offset, CellBytes(g.cells[i])) && next == offset + |CellBytes(g.cells[i])|
    ensures ParseCells(s, offset, i, |g.cells|, Blacklist(g.cells))
         == Join([Normalize(g).cells[i]], ParseCells(s, next, i + 1, |g.cells|, Blacklist(g.cells)))
  {
    NextCellAt(g, i, s, offset);
    ParseCellsStep(s, offset, i, |g.cells|, Blacklist(g.cells), Normalize(g).cells[i], next);
  }

  /** From offset `at(k)` and index `k`, the reader `P` yields `xs[k]` and continues at `at(k + 1)`. */
  predicate ReadsOne(P: (nat, nat) -> Option<Parsed<seq<GridCell>>>, xs: seq<GridCell>, at: nat -> nat, k: nat)
    requires k < |xs|
  {
    P(at(k), k) == Join([xs[k]], P(at(k + 1), k + 1))
  }

  /** A reader that reads each of `xs` in turn and stops at the end reads `xs[i..]` from `at(i)`. */
  lemma {:induction false} ParseChain(P: (nat, nat) -> Option<Parsed<seq<GridCell>>>, xs: seq<GridCell>, at: nat -> nat, i: nat)
    requires i <= |xs|
    requires P(at(|xs|), |xs|) == Some(Parsed([], at(|xs|)))
    requires forall k :: i <= k < |xs| ==> ReadsOne(P, xs, at, k)
    ensures P(at(i), i) == Some(Parsed(xs[i..], at(|xs|)))
    decreases |xs| - i
  {
    if i < |xs| {
      assert ReadsOne(P, xs, at, i);
      ParseChain(P, xs, at, i + 1);
      assert xs[i..] == [xs[i]] + xs[i + 1..];
    } else {
      assert xs[i..] == [];
    }
  }

  /** The stream up to and including cell `k` is the stream before it, then cell `k`. */
  lemma CellStreamSnoc(cells: seq<GridCell>, k: nat)
    requires k < |cells|
    ensures CellStream(cells[..k + 1]) == CellStream(cells[..k]) + CellBytes(cells[k])
  {
    FlattenSnoc(cells, k, CellBytes);
  }

  /** The stream of `cells` is the stream up to cell `k`, then the stream after it. */
  lemma CellStreamSplit(cells: seq<GridCell>, k: nat)
    requires k < |cells|
    ensures CellStream(cells) == CellStream(cells[..k + 1]) + CellStream(cells[k + 1..])
  {
    FlattenSplit(cells, k, CellBytes);
  }

  /** The stream up to and including cell `k` stays within the whole stream. */
  lemma StreamPrefixGrows(cells: seq<GridCell>, k: nat)
    requires k < |cells|
    ensures |CellStream(cells[..k + 1])| <= |CellStream(cells)|
  {
    CellStreamSplit(cells, k);
  }

  /** Offset of cell `k`'s bytes in a stream of `cells` written from `base` on. */
  function StreamOffset(cells: seq<GridCell>, base: nat, k: nat): nat
    requires k <= |cells|
  {
    base + |CellStream(cells[..k])|
  }

  /** Where the stream of `cells` is held, the bytes of cell `k` are held at its offset. */
  lemma CellHeldAt(cells: seq<GridCell>, s: seq<byte>, base: nat, k: nat)
    requires k < |cells|
    requires Holds(s, base, CellStream(cells))
    ensures Holds(s, StreamOffset(cells, base, k), CellBytes(cells[k]))
  {
    FlattenHeldAt(cells, CellBytes, s, base, k);
  }

  /** The bytes of cell `k` are held at its offset from `base`. */
  predicate CellHeld(s: seq<byte>, base: nat, cells: seq<GridCell>, k: nat)
    requires k < |cells|
  {
    Holds(s, StreamOffset(cells, base, k), CellBytes(cells[k]))
  }

  lemma CellsHeld(cells: seq<GridCell>, s: seq<byte>, base: nat)
    requires Holds(s, base, CellStream(cells))
    ensures forall k :: 0 <= k < |cells| ==> CellHeld(s, base, cells, k)
  {
    forall k | 0 <= k < |cells|
      ensures CellHeld(s, base, cells, k)
    {
      CellHeldAt(cells, s, base, k);
    }
  }

  /** Cell `k + 1` starts right after the bytes of cell `k`. */
  lemma StreamOffsetNext(cells: seq<GridCell>, base: nat, k: nat)
    requires k < |cells|
    ensures StreamOffset(cells, base, k + 1) == StreamOffset(cells, base, k) + |CellBytes(cells[k])|
  {
    CellStreamSnoc(cells, k);
  }

  /** The cell reader over `s` for a grid of `n` cells with blacklist `bl`, as a function of offset and index. */
  function Reader(s: seq<byte>, n: nat, bl: seq<uint32>): (nat, nat) -> Option<Parsed<seq<GridCell>>>
    requires n <= MaxCells
  {
    (o: nat, k: nat) => ParseCells(s, o, k, n, bl)
  }

  /** The offset of every cell of a stream written from `base` on. */
  function Offsets(cells: seq<GridCell>, base: nat): nat -> nat
  {
    (k: nat) => if k <= |cells| then StreamOffset(cells, base, k) else base
  }

  /** Reading cell `k` of `cells` at its offset with blacklist `bl` yields `xs[k]` and moves on to the offset of cell `k + 1`. */
  predicate CellReads(s: seq<byte>, base: nat, cells: seq<GridCell>, bl: seq<uint32>, xs: seq<GridCell>, k: nat)
    requires |cells| <= MaxCells && k < |xs|
  {
    ReadsOne(Reader(s, |cells|, bl), xs, Offsets(cells, base), k)
  }

  lemma CellSteps(g: PointCloudGrid, s: seq<byte>, base: nat)
    requires Valid(g)
    requires forall k :: 0 <= k < |g.cells| ==> CellHeld(s, base, g.cells, k)
    ensures forall k :: 0 <= k < |g.cells| ==> CellReads(s, base, g.cells, Blacklist(g.cells), Normalize(g).cells, k)
  {
    forall k | 0 <= k < |g.cells|
      ensures CellReads(s, base, g.cells, Blacklist(g.cells), Normalize(g).cells, k)
    {
      assert CellHeld(s, base, g.cells, k);
      StreamOffsetNext(g.cells, base, k);
      FirstCellAt(g, k, s, StreamOffset(g.cells, base, k), StreamOffset(g.cells, base, k + 1));
    }
  }

  lemma StreamOffsetEnd(cells: seq<GridCell>, base: nat)
    ensures StreamOffset(cells, base, |cells|) == base + |CellStream(cells)|
  {
    assert cells[..|cells|] == cells;
  }

  /** Cells read one at a time from their offsets read back, all together, as `xs`. */
  lemma CellsRoundTrip(cells: seq<GridCell>, bl: seq<uint32>, xs: seq<GridCell>, s: seq<byte>, base: nat)
    requires |cells| <= MaxCells && |xs| == |cells|
    requires forall k :: 0 <= k < |xs| ==> CellReads(s, base, cells, bl, xs, k)
    ensures ParseCells(s, base, 0, |cells|, bl) == Some(Parsed(xs, StreamOffset(cells, base, |cells|)))
  {
    var P := Reader(s, |cells|, bl);
    var at := Offsets(cells, base);
    forall k | 0 <= k < |xs|
      ensures ReadsOne(P, xs, at, k)
    {
      assert CellReads(s, base, cells, bl, xs, k);
    }
    ParseChain(P, xs, at, 0);
    assert xs[0..] == xs;
    assert cells[..0] == [];
  }

  /** Cells read one at a time from their offsets read back as `xs`, ending where the stream ends. */
  lemma CellsReadToEnd(cells: seq<GridCell>, bl: seq<uint32>, xs: seq<GridCell>, s: seq<byte>, base: nat)
    requires |cells| <= MaxCells && |xs| == |cells|
    requires forall k :: 0 <= k < |xs| ==> CellReads(s, base, cells, bl, xs, k)
    ensures ParseCells(s, base, 0, |cells|, bl) == Some(Parsed(xs, base + |CellStream(cells)|))
  {
    StreamOffsetEnd(cells, base);
    var e := StreamOffset(cells, base, |cells|);
    CellsRoundTrip(cells, bl, xs, s, base);
    assert ParseCells(s, base, 0, |cells|, bl) == Some(Parsed(xs, e));
  }

  /** Every blacklisted index lies inside the grid. */
  lemma BlacklistInRange(cells: seq<GridCell>)
    requires |cells| <= MaxCells
    ensures InRange(Blacklist(cells), |cells|)
  {
    var bl := Blacklist(cells);
    forall k | 0 <= k < |bl|
      ensures bl[k] < |cells|
    {
      BlacklistExact(cells, bl[k]);
    }
  }

  /** The cell stream of a valid grid held at `base` reads back as the normalised cells, ending where the stream ends. */
  lemma CellsRead(g: PointCloudGrid, s: seq<byte>, base: nat)
    requires Valid(g)
    requires Holds(s, base, CellStream(g.cells))
    ensures ParseCells(s, base, 0, |g.cells|, Blacklist(g.cells))
         == Some(Parsed(Normalize(g).cells, base + |CellStream(g.cells)|))
  {
    CellsHeld(g.cells, s, base);
    CellSteps(g, s, base);
    CellsReadToEnd(g.cells, Blacklist(g.cells), Normalize(g).cells, s, base);
  }


  /** Where the body of `g` is held, the grid header and the blacklist read back, and every entry is a cell index. */
  lemma BodyPrefixAt(g: PointCloudGrid, s: seq<byte>)
    requires Valid(g) && Holds(s, 0, BodyBytes(g))
    ensures ParseGridHeader(s, 0) == Some(Parsed(HeaderOf(g), GridHeaderByteSize()))
    ensures ParseBlacklist(s, GridHeaderByteSize(), |Blacklist(g.cells)|)
         == Some(Parsed(Blacklist(g.cells), GridHeaderByteSize() + 4 * |Blacklist(g.cells)|))
    ensures InRange(Blacklist(g.cells), |g.cells|)
    ensures Holds(s, GridHeaderByteSize() + 4 * |Blacklist(g.cells)|, CellStream(g.cells))
  {
    var bl := Blacklist(g.cells);
    var gb := GridHeaderBytes(HeaderOf(g));
    HoldsSplit(s, 0, gb + BlacklistBytes(bl), CellStream(g.cells));
    HoldsSplit(s, 0, gb, BlacklistBytes(bl));
    GridHeaderAt(HeaderOf(g), s, 0);
    BlacklistAt(bl, s, GridHeaderByteSize());
    BlacklistInRange(g.cells);
  }

  /** A body whose header, blacklist and cells each read back, and which ends with the last cell, reads back whole. */
  lemma ParseBodyOf(s: seq<byte>, h: GridHeader, nb: nat, bl: seq<uint32>, base: nat, n: nat, cells: seq<GridCell>)
    requires nb == h.numBlacklist && n == CellCount(h.dimensions)
    requires ParseGridHeader(s, 0) == Some(Parsed(h, GridHeaderByteSize()))
    requires ParseBlacklist(s, GridHeaderByteSize(), nb) == Some(Parsed(bl, base))
    requires InRange(bl, n)
    requires ParseCells(s, base, 0, n, bl) == Some(Parsed(cells, |s|))
    ensures ParseBody(s) == Some((h, PointCloudGrid(h.dimensions, h.boundingBox, cells)))
  {
  }

  /** Once the header and blacklist of `g` read back, a buffer ending with its cell stream at `base` reads back whole. */
  lemma BodyTailAt(g: PointCloudGrid, s: seq<byte>, base: nat)
    requires Valid(g)
    requires ParseGridHeader(s, 0) == Some(Parsed(HeaderOf(g), GridHeaderByteSize()))
    requires ParseBlacklist(s, GridHeaderByteSize(), |Blacklist(g.cells)|) == Some(Parsed(Blacklist(g.cells), base))
    requires InRange(Blacklist(g.cells), |g.cells|)
    requires Holds(s, base, CellStream(g.cells)) && |s| == base + |CellStream(g.cells)|
    ensures ParseBody(s) == Some((HeaderOf(g), Normalize(g)))
  {
    CellsRead(g, s, base);
    ParseBodyOf(s, HeaderOf(g), |Blacklist(g.cells)|, Blacklist(g.cells), base, |g.cells|, Normalize(g).cells);
  }

  /** A buffer holding exactly the body of `g` reads back as its header and normalised grid. */
  lemma BodyAt(g: PointCloudGrid, s: seq<byte>)
    requires Valid(g) && Holds(s, 0, BodyBytes(g)) && |s| == |BodyBytes(g)|
    ensures ParseBody(s) == Some((HeaderOf(g), Normalize(g)))
  {
    BodyPrefixAt(g, s);
    BodyTailAt(g, s, GridHeaderByteSize() + 4 * |Blacklist(g.cells)|);
  }

  /** Decoding an encoded body gives back its header and the grid with empty cells normalised. */
  lemma BodyRoundTrip(g: PointCloudGrid)
    requires Valid(g)
    ensures ParseBody(BodyBytes(g)) == Some((HeaderOf(g), Normalize(g)))
  {
    HoldsWhole(BodyBytes(g));
    BodyAt(g, BodyBytes(g));
  }

  // ----- size of the body -----

  /** Headers of the cells that carry data, in index order. */
  function NonEmptyHeaders(cells: seq<GridCell>): seq<CellHeader>
  {
    if cells == [] then []
    else
      var last := cells[|cells| - 1];
      NonEmptyHeaders(cells[..|cells| - 1]) + (if IsEmpty(last) then [] else [last.header])
  }

  function CellsByteSize(headers: seq<CellHeader>): nat
  {
    if headers == [] then 0
    else CellsByteSize(headers[..|headers| - 1]) + CellHeaderByteSize() + PayloadByteSize(headers[|headers| - 1])
  }

  /** Size of a body with `numBlacklist` blacklisted cells and the given cell headers. */
  function MessageSize(headers: seq<CellHeader>, numBlacklist: nat): nat
  {
    GridHeaderByteSize() + 4 * numBlacklist + CellsByteSize(headers)
  }

  /** Sums the body size over the cell headers. */
  method CalcMessageSize(headers: seq<CellHeader>, numBlacklist: nat) returns (size: nat)
    ensures size == MessageSize(headers, numBlacklist)
  {
    var cells := 0;
    var i := 0;
    while i < |headers|
      invariant 0 <= i <= |headers|
      invariant cells == CellsByteSize(headers[..i])
    {
      assert headers[..i + 1][..i] == headers[..i];
      cells := cells + CellHeaderByteSize() + PayloadByteSize(headers[i]);
      i := i + 1;
    }
    assert headers[..i] == headers;
    size := GridHeaderByteSize() + 4 * numBlacklist + cells;
  }

  lemma CellsByteSizeSnoc(headers: seq<CellHeader>, h: CellHeader)
    ensures CellsByteSize(headers + [h]) == CellsByteSize(headers) + CellHeaderByteSize() + PayloadByteSize(h)
  {
    assert (headers + [h])[..|headers|] == headers;
  }

  lemma {:induction false} CellsByteSizeMatches(cells: seq<GridCell>)
    requires forall i :: 0 <= i < |cells| ==> |cells[i].payload| == PayloadByteSize(cells[i].header)
    ensures CellsByteSize(NonEmptyHeaders(cells)) == |CellStream(cells)|
  {
    if cells != [] {
      var front := cells[..|cells| - 1];
      var last := cells[|cells| - 1];
      assert forall i :: 0 <= i < |front| ==> front[i] == cells[i];
      CellsByteSizeMatches(front);
      assert |CellStream(cells)| == |CellStream(front)| + |CellBytes(last)|;
      if IsEmpty(last) {
        assert NonEmptyHeaders(cells) == NonEmptyHeaders(front) + [];
        assert NonEmptyHeaders(front) + [] == NonEmptyHeaders(front);
      } else {
        assert NonEmptyHeaders(cells) == NonEmptyHeaders(front) + [last.header];
        CellsByteSizeSnoc(NonEmptyHeaders(front), last.header);
      }
    }
  }

  /** The size computed from the non-empty cells' headers is the length of the encoded body. */
  lemma MessageSizeMatches(g: PointCloudGrid)
    requires Valid(g)
    ensures MessageSize(NonEmptyHeaders(g.cells), |Blacklist(g.cells)|) == |BodyBytes(g)|
  {
    CellsByteSizeMatches(g.cells);
  }

  /** Most bytes one cell can add to the stream: a header and six bytes per element. */
  const MaxCellBytes: nat := 10 + 6 * 0xFFFF_FFFF

  lemma {:induction false} CellStreamBound(cells: seq<GridCell>)
    requires forall i :: 0 <= i < |cells| ==> ValidWidths(cells[i].header) && |cells[i].payload| == PayloadByteSize(cells[i].header)
    ensures |CellStream(cells)| <= MaxCellBytes * |cells|
  {
    if cells != [] {
      var last := cells[|cells| - 1];
      CellStreamBound(cells[..|cells| - 1]);
      PayloadBound(last.header);
      assert |CellBytes(last)| <= MaxCellBytes;
    }
  }

  /** The uncompressed body always fits the 64-bit size field of the global header. */
  lemma BodySizeBound(g: PointCloudGrid)
    requires Valid(g)
    ensures |BodyBytes(g)| < 0x1_0000_0000_0000_0000
  {
    CellStreamBound(g.cells);
  }

  // ----- offset-threading helpers over the body buffer -----

  /** Copies the packed payload of `c` to `msg[offset..]`; returns the offset just past it. */
  method EncodeCell(msg: array<byte>, c: GridCell, offset: nat) returns (next: nat)
    requires offset + |c.payload| <= msg.Length
    modifies msg
    ensures next == offset + |c.payload|
    ensures msg[..] == Splice(old(msg[..]), offset, c.payload)
  {
    WriteBytes(msg, offset, c.payload);
    next := offset + |c.payload|;
  }

  /** Takes the packed payload described by `h` at `msg[offset..]`, or None when it cannot be read. */
  method DecodeCell(msg: array<byte>, h: CellHeader, offset: nat) returns (r: Option<Parsed<seq<byte>>>)
    ensures r == ParsePayload(msg[..], offset, h)
  {
    var size := PayloadByteSize(h);
    if !ValidWidths(h) || offset + size > msg.Length {
      return None;
    }
    r := Some(Parsed(msg[offset..offset + size], offset + size));
  }

  /** Writes cell `c` at `msg[offset..]`: nothing for an empty cell, else its header and then its payload. */
  method EncodeNextCell(msg: array<byte>, c: GridCell, offset: nat, ghost m0: seq<byte>, ghost base: nat, ghost written: seq<byte>)
      returns (next: nat)
    requires base + |written| + |CellBytes(c)| <= |m0| == msg.Length
    requires offset == base + |written| && msg[..] == Splice(m0, base, written)
    modifies msg
    ensures next == offset + |CellBytes(c)|
    ensures msg[..] == Splice(m0, base, written + CellBytes(c))
  {
    if IsEmpty(c) {
      next := offset;
      assert written + CellBytes(c) == written;
    } else {
      next := EncodeNonEmptyCell(msg, c, offset);
      SpliceTwice(m0, base, written, CellBytes(c));
    }
  }

  /** Writes a cell that holds data: its header, then its payload. */
  method EncodeNonEmptyCell(msg: array<byte>, c: GridCell, offset: nat) returns (next: nat)
    requires !IsEmpty(c) && offset + |CellBytes(c)| <= msg.Length
    modifies msg
    ensures next == offset + |CellBytes(c)|
    ensures msg[..] == Splice(old(msg[..]), offset, CellBytes(c))
  {
    ghost var m := msg[..];
    next := EncodeCellHeader(msg, c.header, offset);
    next := EncodeCell(msg, c, next);
    SpliceTwice(m, offset, CellHeaderBytes(c.header), c.payload);
  }

  /** Writes the cells one after another from `offset` on. */
  method EncodeCellStream(msg: array<byte>, cells: seq<GridCell>, offset: nat) returns (next: nat)
    requires offset + |CellStream(cells)| <= msg.Length
    modifies msg
    ensures next == offset + |CellStream(cells)|
    ensures msg[..] == Splice(old(msg[..]), offset, CellStream(cells))
  {
    ghost var m0 := msg[..];
    SpliceNothing(m0, offset);
    assert CellStream(cells[..0]) == [];
    next := offset;
    var i := 0;
    while i < |cells|
      invariant 0 <= i <= |cells|
      invariant next == offset + |CellStream(cells[..i])| <= msg.Length
      invariant msg[..] == Splice(m0, offset, CellStream(cells[..i]))
    {
      CellStreamSnoc(cells, i);
      StreamPrefixGrows(cells, i);
      next := EncodeNextCell(msg, cells[i], next, m0, offset, CellStream(cells[..i]));
      i := i + 1;
    }
    assert cells[..i] == cells;
  }

  /** Serialises `g` into a body buffer sized by CalcMessageSize. */
  method EncodePointCloudGrid(g: PointCloudGrid) returns (msg: array<byte>)
    requires Valid(g)
    ensures fresh(msg)
    ensures msg[..] == BodyBytes(g)
  {
    var bl := ComputeBlacklist(g.cells);
    var size := CalcMessageSize(NonEmptyHeaders(g.cells), |bl|);
    MessageSizeMatches(g);
    msg := new byte[size](_ => 0);
    ghost var m0 := msg[..];
    var off := EncodeGridHeader(msg, HeaderOf(g), 0);
    off := EncodeBlackList(msg, bl, off);
    SpliceTwice(m0, 0, GridHeaderBytes(HeaderOf(g)), BlacklistBytes(bl));
    ghost var prefix := GridHeaderBytes(HeaderOf(g)) + BlacklistBytes(bl);
    off := EncodeCellStream(msg, g.cells, off);
    SpliceTwice(m0, 0, prefix, CellStream(g.cells));
    SpliceWhole(m0, prefix + CellStream(g.cells));
  }

  /** `a` followed by the single cell `x`, then by the cells of `r`, is `a + [x]` followed by them. */
  lemma JoinStep(acc: seq<GridCell>, x: GridCell, r: Option<Parsed<seq<GridCell>>>)
    ensures Join(acc, Join([x], r)) == Join(acc + [x], r)
  {
    if r.Some? {
      assert acc + ([x] + r.value.value) == acc + [x] + r.value.value;
    }
  }

  lemma JoinEmpty(r: Option<Parsed<seq<GridCell>>>)
    ensures Join([], r) == r
  {
    if r.Some? {
      assert [] + r.value.value == r.value.value;
    }
  }

  /** Reads cell `i` at `msg[offset..]`: the empty cell for a blacklisted index, else a header and a payload. */
  method DecodeNextCell(msg: array<byte>, offset: nat, i: nat, bl: seq<uint32>) returns (r: Option<Parsed<GridCell>>)
    requires i < 0x1_0000_0000
    ensures r == NextCell(msg[..], offset, i, bl)
  {
    if i in bl {
      return Some(Parsed(EmptyCell(i as uint32), offset));
    }
    var ch := DecodeCellHeader(msg, offset, i as uint32);
    if ch.None? {
      return None;
    }
    var p := DecodeCell(msg, ch.value.value, ch.value.next);
    if p.None? {
      return None;
    }
    r := Some(Parsed(GridCell(ch.value.value, p.value.value), p.value.next));
  }

  /** Reads cells `0` up to `n` from `msg[offset..]`, one after the other. */
  method DecodeCells(msg: array<byte>, offset: nat, n: nat, bl: seq<uint32>) returns (r: Option<Parsed<seq<GridCell>>>)
    requires n <= MaxCells
    ensures r == ParseCells(msg[..], offset, 0, n, bl)
  {
    ghost var s := msg[..];
    var cells: seq<GridCell> := [];
    var off := offset;
    JoinEmpty(ParseCells(s, off, 0, n, bl));
    var i := 0;
    while i < n
      invariant 0 <= i <= n
      invariant ParseCells(s, offset, 0, n, bl) == Join(cells, ParseCells(s, off, i, n, bl))
    {
      var first := DecodeNextCell(msg, off, i, bl);
      if first.None? {
        return None;
      }
      JoinStep(cells, first.value.value, ParseCells(s, first.value.next, i + 1, n, bl));
      cells := cells + [first.value.value];
      off := first.value.next;
      i := i + 1;
    }
    assert cells + [] == cells;
    r := Some(Parsed(cells, off));
  }

  /** Parses a whole body buffer back into its grid header and grid. */
  method DecodePointCloudGrid(msg: array<byte>) returns (r: Option<(GridHeader, PointCloudGrid)>)
    ensures r == ParseBody(msg[..])
  {
    ghost var s := msg[..];
    var gh := DecodeGridHeader(msg, 0);
    if gh.None? {
      return None;
    }
    var h := gh.value.value;
    var n := CellCount(h.dimensions);
    var blr := DecodeBlackList(msg, h.numBlacklist, gh.value.next);
    if blr.None? {
      return None;
    }
    var bl := blr.value.value;
    if !(forall k :: 0 <= k < |bl| ==> bl[k] < n) {
      return None;
    }
    var cr := DecodeCells(msg, blr.value.next, n, bl);
    if cr.None? || cr.value.next != msg.Length {
      return None;
    }
    var cells := cr.value.value;
    r := Some((h, PointCloudGrid(h.dimensions, h.boundingBox, cells)));
  }
}
