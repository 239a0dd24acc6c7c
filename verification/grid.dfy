/**
 * The point-cloud grid as the codec sees it: cells in ascending index
 * order, each with its cell header and its bit-packed payload (an opaque
 * byte region whose length the header determines), and the blacklist of
 * cells that hold no data.
 */
module Grid {
  import opened Bytes
  import opened Headers

  /** Largest bit width a cell may use for one axis or channel. */
  const MaxBitCount: nat := 8

  /** Most cells a grid can have: three one-byte dimensions. */
  const MaxCells: nat := 255 * 255 * 255

  datatype GridCell = GridCell(header: CellHeader, payload: seq<byte>)

  datatype PointCloudGrid = PointCloudGrid(dimensions: Vec8, boundingBox: BoundingBox, cells: seq<GridCell>)

  /** Number of cells of a grid with dimensions `d`. */
  function CellCount(d: Vec8): (n: nat)
    ensures n <= MaxCells
  {
    MulLe(d.x, 255, d.y);
    MulLe(d.y, 255, 255);
    MulLe(d.x * d.y, 255 * 255, d.z);
    MulLe(d.z, 255, 255 * 255);
    d.x * d.y * d.z
  }

  lemma {:induction false} MulLe(a: nat, b: nat, c: nat)
    requires a <= b
    ensures a * c <= b * c && c * a <= c * b
  {
    if c > 0 {
      MulLe(a, b, c - 1);
      assert a * c == a * (c - 1) + a && b * c == b * (c - 1) + b;
    }
  }

  function BitsPerElement(h: CellHeader): nat
  {
    h.pointEncoding.x + h.pointEncoding.y + h.pointEncoding.z
      + h.colorEncoding.x + h.colorEncoding.y + h.colorEncoding.z
  }

  /** Bits taken by `count` elements of `bits` bits each, packed contiguously. */
  function PackedBits(count: nat, bits: nat): nat
  {
    if count == 0 then 0 else PackedBits(count - 1, bits) + bits
  }

  /** Bytes of a cell's packed payload: every element's fields packed contiguously, padded to a byte. */
  function PayloadByteSize(h: CellHeader): nat
  {
    (PackedBits(h.numElements, BitsPerElement(h)) + 7) / 8
  }

  predicate ValidWidths(h: CellHeader)
  {
    && h.pointEncoding.x <= MaxBitCount && h.pointEncoding.y <= MaxBitCount && h.pointEncoding.z <= MaxBitCount
    && h.colorEncoding.x <= MaxBitCount && h.colorEncoding.y <= MaxBitCount && h.colorEncoding.z <= MaxBitCount
  }

  predicate IsEmpty(c: GridCell)
  {
    c.header.numElements == 0
  }

  predicate ValidCell(c: GridCell, idx: nat)
  {
    && c.header.cellIdx == idx
    && ValidWidths(c.header)
    && |c.payload| == PayloadByteSize(c.header)
  }

  /** One slot per cell of the dimensions, each consistent with its header. */
  predicate Valid(g: PointCloudGrid)
  {
    && |g.cells| == CellCount(g.dimensions)
    && forall i :: 0 <= i < |g.cells| ==> ValidCell(g.cells[i], i)
  }

  /** With widths of at most eight bits, a payload never exceeds six bytes per element. */
  lemma PayloadBound(h: CellHeader)
    requires ValidWidths(h)
    ensures PayloadByteSize(h) <= 6 * h.numElements
  {
    PackedBitsBound(h.numElements, BitsPerElement(h));
  }

  lemma {:induction false} PackedBitsBound(count: nat, bits: nat)
    requires bits <= 48
    ensures PackedBits(count, bits) <= 48 * count
  {
    if count > 0 {
      PackedBitsBound(count - 1, bits);
    }
  }

  /** Indices of the cells without data, in ascending order. */
  function Blacklist(cells: seq<GridCell>): (bl: seq<uint32>)
    requires |cells| <= MaxCells
    ensures |bl| <= |cells|
  {
    if cells == [] then []
    else
      var last := |cells| - 1;
      Blacklist(cells[..last]) + (if IsEmpty(cells[last]) then [last as uint32] else [])
  }

  /** The blacklist lists exactly the empty cells. */
  lemma {:induction false} BlacklistExact(cells: seq<GridCell>, i: int)
    requires |cells| <= MaxCells
    ensures i in Blacklist(cells) <==> 0 <= i < |cells| && IsEmpty(cells[i])
  {
    if cells != [] {
      var last := |cells| - 1;
      BlacklistExact(cells[..last], i);
    }
  }

  /** The blacklist is strictly ascending. */
  lemma {:induction false} BlacklistAscending(cells: seq<GridCell>)
    requires |cells| <= MaxCells
    ensures forall j, k :: 0 <= j < k < |Blacklist(cells)| ==> Blacklist(cells)[j] < Blacklist(cells)[k]
  {
    if cells != [] {
      var last := |cells| - 1;
      BlacklistAscending(cells[..last]);
      var prev := Blacklist(cells[..last]);
      forall j | 0 <= j < |prev|
        ensures prev[j] < last
      {
        BlacklistExact(cells[..last], prev[j]);
      }
    }
  }

  /** Builds the blacklist by scanning the cells in index order. */
  method ComputeBlacklist(cells: seq<GridCell>) returns (bl: seq<uint32>)
    requires |cells| <= MaxCells
    ensures bl == Blacklist(cells)
  {
    bl := [];
    var i := 0;
    while i < |cells|
      invariant 0 <= i <= |cells|
      invariant bl == Blacklist(cells[..i])
    {
      assert cells[..i + 1][..i] == cells[..i];
      if IsEmpty(cells[i]) {
        bl := bl + [i as uint32];
      }
      i := i + 1;
    }
    assert cells[..i] == cells;
  }

  /** What decoding reconstructs for a blacklisted cell. */
  function EmptyCell(idx: uint32): GridCell
  {
    GridCell(CellHeader(idx, Encoding(0, 0, 0), Encoding(0, 0, 0), 0), [])
  }

  function NormalizeCell(c: GridCell): GridCell
  {
    if IsEmpty(c) then EmptyCell(c.header.cellIdx) else c
  }

  /**
   * The grid with every empty cell replaced by the canonical empty cell:
   * the part of a grid that a message carries.
   */
  function Normalize(g: PointCloudGrid): (r: PointCloudGrid)
    ensures r.dimensions == g.dimensions && r.boundingBox == g.boundingBox && |r.cells| == |g.cells|
    ensures forall i :: 0 <= i < |g.cells| && !IsEmpty(g.cells[i]) ==> r.cells[i] == g.cells[i]
    ensures forall i :: 0 <= i < |g.cells| && IsEmpty(g.cells[i]) ==> r.cells[i] == EmptyCell(g.cells[i].header.cellIdx)
  {
    g.(cells := seq(|g.cells|, i requires 0 <= i < |g.cells| => NormalizeCell(g.cells[i])))
  }

  /** Normalising keeps a grid valid, and normalising twice changes nothing. */
  lemma NormalizeIdempotent(g: PointCloudGrid)
    requires Valid(g)
    ensures Valid(Normalize(g))
    ensures Normalize(Normalize(g)) == Normalize(g)
  {
    var n := Normalize(g);
    forall i | 0 <= i < |g.cells|
      ensures ValidCell(n.cells[i], i) && NormalizeCell(n.cells[i]) == n.cells[i]
    {
      if IsEmpty(g.cells[i]) {
        assert PayloadByteSize(n.cells[i].header) == 0;
      }
    }
    assert Normalize(n).cells == n.cells;
  }
}
