/**
 * The encoder's configuration: the grid precision descriptor, the
 * EncodingSettings record with its default values, the per-cell
 * quantisation level count, and the selection of the points an encode
 * call considers.
 */
module Settings {
  import opened Bytes
  import opened Headers

  /** Grid layout and the nominal bit precision of each cell's positions. */
  datatype GridPrecisionDescriptor = GridPrecisionDescriptor(
    dimensions: Vec8,
    boundingBox: BoundingBox,
    pointPrecision: seq<Encoding>)

  /** Configuration consulted at the start of every encode; the codec never changes it. */
  datatype EncodingSettings = EncodingSettings(
    gridPrecision: GridPrecisionDescriptor,
    verbose: bool,
    numThreads: int,
    irrelevanceCoding: bool,
    entropyCoding: bool,
    appendixSize: uint64)

  /** The settings a default-constructed record holds, around a default-constructed precision descriptor `gp`. */
  function DefaultSettings(gp: GridPrecisionDescriptor): EncodingSettings
  {
    EncodingSettings(gp, false, 24, true, true, 0)
  }

  // ----- quantisation levels -----

  function Pow2(n: nat): (r: nat)
    ensures r >= 1
  {
    if n == 0 then 1 else 2 * Pow2(n - 1)
  }

  /** More bits of precision give strictly more quantisation levels. */
  lemma {:induction false} Pow2Grows(p: nat, q: nat)
    requires p < q
    ensures Pow2(p) < Pow2(q)
  {
    if q > p + 1 {
      Pow2Grows(p, q - 1);
    }
  }

  /** A width of at most eight bits has at most 256 levels, one per value of a byte. */
  lemma Pow2Byte(p: nat)
    requires p <= 8
    ensures Pow2(p) <= Pow256(1)
  {
    Pow256Widths();
    if p < 8 {
      Pow2Grows(p, 8);
    }
  }

  datatype Levels = Levels(x: nat, y: nat, z: nat)

  /**
   * The number of quantisation values per axis for cell `cellIdx`: two to
   * the power of that cell's point precision; None for an index outside
   * the precision table.
   */
  function QuantizationLevels(s: EncodingSettings, cellIdx: int): (r: Option<Levels>)
    ensures r.Some? <==> 0 <= cellIdx < |s.gridPrecision.pointPrecision|
  {
    if cellIdx < 0 || cellIdx >= |s.gridPrecision.pointPrecision| then None
    else
      var p := s.gridPrecision.pointPrecision[cellIdx];
      Some(Levels(Pow2(p.x), Pow2(p.y), Pow2(p.z)))
  }

  /**
   * Every valid cell has at least one level per axis, exactly one where
   * its precision is zero, and more levels wherever its precision is larger.
   */
  lemma LevelsOrdered(s: EncodingSettings, i: nat, j: nat)
    requires i < |s.gridPrecision.pointPrecision| && j < |s.gridPrecision.pointPrecision|
    ensures var li := QuantizationLevels(s, i).value;
      li.x >= 1 && li.y >= 1 && li.z >= 1
    ensures var li, p := QuantizationLevels(s, i).value, s.gridPrecision.pointPrecision[i];
      && (li.x == 1 <==> p.x == 0)
      && (li.y == 1 <==> p.y == 0)
      && (li.z == 1 <==> p.z == 0)
    ensures var li, lj := QuantizationLevels(s, i).value, QuantizationLevels(s, j).value;
      var p, q := s.gridPrecision.pointPrecision[i], s.gridPrecision.pointPrecision[j];
      && (p.x < q.x ==> li.x < lj.x)
      && (p.y < q.y ==> li.y < lj.y)
      && (p.z < q.z ==> li.z < lj.z)
  {
    var p := s.gridPrecision.pointPrecision[i];
    var q := s.gridPrecision.pointPrecision[j];
    AxisLevels(p.x, q.x);
    AxisLevels(p.y, q.y);
    AxisLevels(p.z, q.z);
  }

  /** One axis: at least one level, exactly one for precision zero, more for a larger precision. */
  lemma AxisLevels(p: nat, q: nat)
    ensures Pow2(p) >= 1 && (Pow2(p) == 1 <==> p == 0)
    ensures p < q ==> Pow2(p) < Pow2(q)
  {
    if p > 0 {
      Pow2Grows(0, p);
    }
    if p < q {
      Pow2Grows(p, q);
    }
  }

  // ----- point selection -----

  /**
   * The points an encode considers: all of them for a negative
   * `numPoints`, else the first `numPoints` (all of them when there are
   * fewer).
   */
  function SelectPoints<P>(points: seq<P>, numPoints: int): (r: seq<P>)
    ensures |r| == if numPoints < 0 || numPoints > |points| then |points| else numPoints
    ensures r == points[..|r|]
  {
    if numPoints < 0 || numPoints > |points| then points else points[..numPoints]
  }

  /** Asking for every point explicitly selects the same points as a negative count. */
  lemma SelectAll<P>(points: seq<P>, numPoints: int)
    requires numPoints < 0 || numPoints >= |points|
    ensures SelectPoints(points, numPoints) == points
  {
    assert points[..|points|] == points;
  }

  /** Selecting again with the same count changes nothing. */
  lemma SelectIdempotent<P>(points: seq<P>, numPoints: int)
    ensures SelectPoints(SelectPoints(points, numPoints), numPoints) == SelectPoints(points, numPoints)
  {
    var r := SelectPoints(points, numPoints);
    assert r[..|r|] == r;
  }
}
