/** `fetch_rectangle`: build one tile by walking the requested rectangle in
    chunks that never cross a zone boundary, cropping each chunk out of its
    zone image and pasting it at its offset inside the tile. Image I/O is left
    out; each chunk records the coordinates handed to `crop` and `paste`. */
module FetchRectangle {
  import opened Wrappers
  import opened TileGeometry
  import opened Striding

  /** A half-open rectangle [x0, x1) x [y0, y1); as a crop box, PIL's (left, upper, right, lower). */
  datatype Rect = Rect(x0: int, y0: int, x1: int, y1: int)

  /** One visited chunk: its global pixel area, the zone image it comes from,
      the crop box inside that image and the paste offset inside the tile. */
  datatype Chunk = Chunk(area: Rect, zone: ZoneId, crop: Rect, paste: Point)

  /** A finished tile: the size given to `Image.new` and the chunks pasted into it, in order. */
  datatype Tile = Tile(width: int, height: int, chunks: seq<Chunk>)

  datatype FetchError =
    | BoundsAssertionFailed  // `assert bottom <= top` failed
    | NegativeImageSize      // `Image.new` refused a negative width or height

  predicate Contains(r: Rect, p: Point) {
    r.x0 <= p.x < r.x1 && r.y0 <= p.y < r.y1
  }

  predicate Disjoint(a: Rect, b: Rect) {
    a.x1 <= b.x0 || b.x1 <= a.x0 || a.y1 <= b.y0 || b.y1 <= a.y0
  }

  /** Python's tuple comparison `bottom <= top`: lexicographic, x first. */
  predicate LexLeq(a: Point, b: Point) {
    a.x < b.x || (a.x == b.x && a.y <= b.y)
  }

  function ColumnStrides(bottom: Point, top: Point): seq<Span> {
    Strides(bottom.x, ZoneWidthPx, bottom.x, top.x)
  }

  function RowStrides(bottom: Point, top: Point): seq<Span> {
    Strides(bottom.y, ZoneHeightPx, bottom.y, top.y)
  }

  /** The body of the inner loop for the chunk [col) x [row): the zone holding the
      chunk's top-left pixel, and, when the chunk stays inside that zone's cell,
      the chunk in the zone image's own coordinates as the crop box. */
  function MakeChunk(col: Span, row: Span, bottom: Point): (c: Chunk)
    ensures c.area == Rect(col.lo, row.lo, col.hi, row.hi)
    ensures ValidZone(c.zone) && InZoneImage(c.zone, col.lo, row.lo)
    ensures c.paste == Point(col.lo - bottom.x, row.lo - bottom.y)
    ensures (col.lo < col.hi <= CellStart(col.lo, ZoneWidthPx) + ZoneWidthPx
             && row.lo < row.hi <= CellStart(row.lo, ZoneHeightPx) + ZoneHeightPx) ==>
      (var o := ZoneOrigin(c.zone);
       && c.crop == Rect(col.lo - o.x, row.lo - o.y, col.hi - o.x, row.hi - o.y)
       && 0 <= c.crop.x0 < c.crop.x1 <= ZoneWidthPx
       && 0 <= c.crop.y0 < c.crop.y1 <= ZoneHeightPx)
  {
    ZoneOriginOfPixel(col.lo, row.lo);
    var zone := ZoneOf(col.lo, row.lo);
    var xZone := col.lo % ZoneWidthPx;
    var yZone := row.lo % ZoneHeightPx;
    var xZoneMax := Clamp((col.hi - col.lo) + xZone, 0, ZoneWidthPx);
    var yZoneMax := Clamp((row.hi - row.lo) + yZone, 0, ZoneHeightPx);
    Chunk(Rect(col.lo, row.lo, col.hi, row.hi), zone,
          Rect(xZone, yZone, xZoneMax, yZoneMax),
          Point(col.lo - bottom.x, row.lo - bottom.y))
  }

  /** The chunks of one column, top to bottom. */
  function Column(col: Span, rows: seq<Span>, bottom: Point): seq<Chunk>
    decreases |rows|
  {
    if |rows| == 0 then []
    else Column(col, rows[..|rows| - 1], bottom) + [MakeChunk(col, rows[|rows| - 1], bottom)]
  }

  /** The chunks of all columns, column by column, left to right. */
  function Columns(cols: seq<Span>, rows: seq<Span>, bottom: Point): seq<Chunk>
    decreases |cols|
  {
    if |cols| == 0 then []
    else Columns(cols[..|cols| - 1], rows, bottom) + Column(cols[|cols| - 1], rows, bottom)
  }

  /** The chunks the two nested loops visit, in visiting order. */
  function Plan(bottom: Point, top: Point): seq<Chunk> {
    Columns(ColumnStrides(bottom, top), RowStrides(bottom, top), bottom)
  }

  /** What every chunk must satisfy: it is a non-empty part of the rectangle,
      its crop box is that part in its zone's own coordinates and lies inside
      the zone image, and it is pasted at its offset from the rectangle's corner,
      inside the tile. */
  predicate ChunkFits(c: Chunk, bottom: Point, top: Point) {
    var o := ZoneOrigin(c.zone);
    && bottom.x <= c.area.x0 < c.area.x1 <= top.x
    && bottom.y <= c.area.y0 < c.area.y1 <= top.y
    && ValidZone(c.zone)
    && c.crop == Rect(c.area.x0 - o.x, c.area.y0 - o.y, c.area.x1 - o.x, c.area.y1 - o.y)
    && 0 <= c.crop.x0 < c.crop.x1 <= ZoneWidthPx
    && 0 <= c.crop.y0 < c.crop.y1 <= ZoneHeightPx
    && c.paste == Point(c.area.x0 - bottom.x, c.area.y0 - bottom.y)
    && 0 <= c.paste.x && c.paste.x + (c.crop.x1 - c.crop.x0) <= top.x - bottom.x
    && 0 <= c.paste.y && c.paste.y + (c.crop.y1 - c.crop.y0) <= top.y - bottom.y
  }

  /** A chunk built from one column step and one row step fits. */
  lemma MakeChunkFits(col: Span, row: Span, bottom: Point, top: Point)
    requires bottom.x <= col.lo < col.hi <= top.x
    requires col.hi <= CellStart(col.lo, ZoneWidthPx) + ZoneWidthPx
    requires bottom.y <= row.lo < row.hi <= top.y
    requires row.hi <= CellStart(row.lo, ZoneHeightPx) + ZoneHeightPx
    ensures ChunkFits(MakeChunk(col, row, bottom), bottom, top)
  {
    ZoneOriginOfPixel(col.lo, row.lo);
  }

  /** The chunks of Columns are exactly the chunks of the column and row pairs. */
  lemma {:induction false} ColumnsMembers(cols: seq<Span>, rows: seq<Span>, bottom: Point, c: Chunk)
    ensures c in Columns(cols, rows, bottom) <==>
      exists i, j :: 0 <= i < |cols| && 0 <= j < |rows| && c == MakeChunk(cols[i], rows[j], bottom)
    decreases |cols|
  {
    if |cols| > 0 {
      var n := |cols| - 1;
      ColumnsMembers(cols[..n], rows, bottom, c);
      ColumnMembers(cols[n], rows, bottom, c);
      assert Columns(cols, rows, bottom) == Columns(cols[..n], rows, bottom) + Column(cols[n], rows, bottom);
      if c in Columns(cols, rows, bottom) {
        if c in Column(cols[n], rows, bottom) {
          var j :| 0 <= j < |rows| && c == MakeChunk(cols[n], rows[j], bottom);
          assert 0 <= n < |cols| && c == MakeChunk(cols[n], rows[j], bottom);
        } else {
          assert c in Columns(cols[..n], rows, bottom);
          var i, j :| 0 <= i < n && 0 <= j < |rows| && c == MakeChunk(cols[..n][i], rows[j], bottom);
          assert cols[..n][i] == cols[i];
          assert 0 <= i < |cols| && c == MakeChunk(cols[i], rows[j], bottom);
        }
      } else {
        forall i, j | 0 <= i < |cols| && 0 <= j < |rows|
          ensures c != MakeChunk(cols[i], rows[j], bottom)
        {
          if i < n {
            assert cols[..n][i] == cols[i];
          }
        }
      }
    }
  }

  lemma {:induction false} ColumnMembers(col: Span, rows: seq<Span>, bottom: Point, c: Chunk)
    ensures c in Column(col, rows, bottom) <==>
      exists j :: 0 <= j < |rows| && c == MakeChunk(col, rows[j], bottom)
    decreases |rows|
  {
    if |rows| > 0 {
      var n := |rows| - 1;
      ColumnMembers(col, rows[..n], bottom, c);
      if c in Column(col, rows, bottom) && c != MakeChunk(col, rows[n], bottom) {
        var j :| 0 <= j < n && c == MakeChunk(col, rows[..n][j], bottom);
        assert rows[..n][j] == rows[j];
      }
      forall j | 0 <= j < n
        ensures rows[..n][j] == rows[j]
      {
      }
    }
  }

  /** Every chunk the loops visit fits the rectangle, its zone image and the tile. */
  lemma PlanChunksFit(bottom: Point, top: Point)
    ensures forall k :: 0 <= k < |Plan(bottom, top)| ==> ChunkFits(Plan(bottom, top)[k], bottom, top)
  {
    var cols := ColumnStrides(bottom, top);
    var rows := RowStrides(bottom, top);
    StridesShape(bottom.x, ZoneWidthPx, bottom.x, top.x);
    StridesShape(bottom.y, ZoneHeightPx, bottom.y, top.y);
    forall k | 0 <= k < |Plan(bottom, top)|
      ensures ChunkFits(Plan(bottom, top)[k], bottom, top)
    {
      var c := Plan(bottom, top)[k];
      ColumnsMembers(cols, rows, bottom, c);
      var i, j :| 0 <= i < |cols| && 0 <= j < |rows| && c == MakeChunk(cols[i], rows[j], bottom);
      MakeChunkFits(cols[i], rows[j], bottom, top);
    }
  }

  /** Every pixel of the rectangle lies in the area of some visited chunk. */
  lemma PlanCovers(bottom: Point, top: Point, p: Point)
    requires bottom.x <= p.x < top.x && bottom.y <= p.y < top.y
    ensures exists k :: 0 <= k < |Plan(bottom, top)| && Contains(Plan(bottom, top)[k].area, p)
  {
    var cols := ColumnStrides(bottom, top);
    var rows := RowStrides(bottom, top);
    StridesCover(bottom.x, ZoneWidthPx, bottom.x, top.x, p.x);
    StridesCover(bottom.y, ZoneHeightPx, bottom.y, top.y, p.y);
    var i :| 0 <= i < |cols| && cols[i].lo <= p.x < cols[i].hi;
    var j :| 0 <= j < |rows| && rows[j].lo <= p.y < rows[j].hi;
    var c := MakeChunk(cols[i], rows[j], bottom);
    var plan := Plan(bottom, top);
    ColumnsMembers(cols, rows, bottom, c);
    assert c in plan;
    var k :| 0 <= k < |plan| && plan[k] == c;
    assert Contains(plan[k].area, p);
  }

  predicate PairwiseDisjoint(cs: seq<Chunk>) {
    forall k1, k2 :: 0 <= k1 < k2 < |cs| ==> Disjoint(cs[k1].area, cs[k2].area)
  }

  predicate SortedSpans(s: seq<Span>) {
    forall i, j :: 0 <= i < j < |s| ==> s[i].hi <= s[j].lo
  }

  lemma DisjointAppend(a: seq<Chunk>, b: seq<Chunk>)
    requires PairwiseDisjoint(a) && PairwiseDisjoint(b)
    requires forall i, j :: 0 <= i < |a| && 0 <= j < |b| ==> Disjoint(a[i].area, b[j].area)
    ensures PairwiseDisjoint(a + b)
  {
    var ab := a + b;
    forall k1, k2 | 0 <= k1 < k2 < |ab|
      ensures Disjoint(ab[k1].area, ab[k2].area)
    {
      if k2 < |a| {
        assert ab[k1] == a[k1] && ab[k2] == a[k2];
      } else if k1 >= |a| {
        assert ab[k1] == b[k1 - |a|] && ab[k2] == b[k2 - |a|];
      } else {
        assert ab[k1] == a[k1] && ab[k2] == b[k2 - |a|];
      }
    }
  }

  lemma {:induction false} ColumnDisjoint(col: Span, rows: seq<Span>, bottom: Point)
    requires SortedSpans(rows)
    requires forall j :: 0 <= j < |rows| ==> rows[j].lo < rows[j].hi
    ensures PairwiseDisjoint(Column(col, rows, bottom))
    ensures forall k :: 0 <= k < |Column(col, rows, bottom)| ==>
      Column(col, rows, bottom)[k].area.x0 == col.lo && Column(col, rows, bottom)[k].area.x1 == col.hi
    ensures |rows| > 0 ==> forall k :: 0 <= k < |Column(col, rows, bottom)| ==>
      Column(col, rows, bottom)[k].area.y1 <= rows[|rows| - 1].hi
    decreases |rows|
  {
    if |rows| > 0 {
      var n := |rows| - 1;
      var front := Column(col, rows[..n], bottom);
      var last := MakeChunk(col, rows[n], bottom);
      ColumnDisjoint(col, rows[..n], bottom);
      if n > 0 {
        assert rows[..n][n - 1] == rows[n - 1];
        assert forall k :: 0 <= k < |front| ==> front[k].area.y1 <= rows[n].lo;
      } else {
        assert front == [];
      }
      DisjointAppend(front, [last]);
    }
  }

  lemma {:induction false} ColumnsDisjoint(cols: seq<Span>, rows: seq<Span>, bottom: Point)
    requires SortedSpans(cols) && SortedSpans(rows)
    requires forall j :: 0 <= j < |rows| ==> rows[j].lo < rows[j].hi
    requires forall i :: 0 <= i < |cols| ==> cols[i].lo < cols[i].hi
    ensures PairwiseDisjoint(Columns(cols, rows, bottom))
    ensures |cols| > 0 ==> forall k :: 0 <= k < |Columns(cols, rows, bottom)| ==>
      Columns(cols, rows, bottom)[k].area.x1 <= cols[|cols| - 1].hi
    decreases |cols|
  {
    if |cols| > 0 {
      var n := |cols| - 1;
      var front := Columns(cols[..n], rows, bottom);
      var back := Column(cols[n], rows, bottom);
      ColumnsDisjoint(cols[..n], rows, bottom);
      ColumnDisjoint(cols[n], rows, bottom);
      if n > 0 {
        assert cols[..n][n - 1] == cols[n - 1];
        assert forall k :: 0 <= k < |front| ==> front[k].area.x1 <= cols[n].lo;
      } else {
        assert front == [];
      }
      DisjointAppend(front, back);
    }
  }

  /** No two visited chunks overlap. */
  lemma PlanDisjoint(bottom: Point, top: Point)
    ensures PairwiseDisjoint(Plan(bottom, top))
  {
    StridesShape(bottom.x, ZoneWidthPx, bottom.x, top.x);
    StridesShape(bottom.y, ZoneHeightPx, bottom.y, top.y);
    ColumnsDisjoint(ColumnStrides(bottom, top), RowStrides(bottom, top), bottom);
  }

  /** The outer striding loop: one column of zones per step. */
  method StrideChunks(bottom: Point, top: Point) returns (chunks: seq<Chunk>)
    ensures chunks == Plan(bottom, top)
    ensures forall k :: 0 <= k < |chunks| ==> ChunkFits(chunks[k], bottom, top)
    ensures PairwiseDisjoint(chunks)
  {
    ghost var cols := ColumnStrides(bottom, top);
    ghost var doneCols: seq<Span> := [];
    chunks := [];
    var x := bottom.x;
    while x < top.x
      invariant bottom.x <= x
      invariant cols == doneCols + Strides(x, ZoneWidthPx, bottom.x, top.x)
      invariant chunks == Columns(doneCols, RowStrides(bottom, top), bottom)
      decreases top.x - x
    {
      var xMax := x + ZoneWidthPx;
      xMax := xMax - x % ZoneWidthPx;
      xMax := Clamp(xMax, bottom.x, top.x);
      assert xMax == NextBoundary(x, ZoneWidthPx, bottom.x, top.x);
      var column := StrideColumn(x, xMax, bottom, top);
      chunks := chunks + column;
      assert Strides(x, ZoneWidthPx, bottom.x, top.x)
        == [Span(x, xMax)] + Strides(xMax, ZoneWidthPx, bottom.x, top.x);
      ghost var next := doneCols + [Span(x, xMax)];
      assert next[..|doneCols|] == doneCols;
      assert Columns(next, RowStrides(bottom, top), bottom) == chunks;
      doneCols := next;
      x := xMax;
    }
    assert cols == doneCols;
    PlanChunksFit(bottom, top);
    PlanDisjoint(bottom, top);
  }

  /** The inner striding loop over the rows of the column [x, xMax), with the
      assertions the cutter states about each chunk's extent and crop box. */
  method StrideColumn(x: int, xMax: int, bottom: Point, top: Point) returns (column: seq<Chunk>)
    requires bottom.x <= x < xMax <= top.x
    requires xMax <= CellStart(x, ZoneWidthPx) + ZoneWidthPx
    ensures column == Column(Span(x, xMax), RowStrides(bottom, top), bottom)
  {
    ghost var rows := RowStrides(bottom, top);
    ghost var doneRows: seq<Span> := [];
    column := [];
    var y := bottom.y;
    while y < top.y
      invariant bottom.y <= y
      invariant rows == doneRows + Strides(y, ZoneHeightPx, bottom.y, top.y)
      invariant column == Column(Span(x, xMax), doneRows, bottom)
      decreases top.y - y
    {
      var yMax := y + ZoneHeightPx;
      yMax := yMax - y % ZoneHeightPx;
      yMax := Clamp(yMax, bottom.y, top.y);
      assert yMax == NextBoundary(y, ZoneHeightPx, bottom.y, top.y);
      assert xMax >= x;
      assert yMax >= y;
      var chunk := MakeChunk(Span(x, xMax), Span(y, yMax), bottom);
      assert chunk.crop.x0 < chunk.crop.x1;
      assert chunk.crop.y0 < chunk.crop.y1;
      column := column + [chunk];
      assert Strides(y, ZoneHeightPx, bottom.y, top.y)
        == [Span(y, yMax)] + Strides(yMax, ZoneHeightPx, bottom.y, top.y);
      ghost var next := doneRows + [Span(y, yMax)];
      assert next[..|doneRows|] == doneRows;
      assert Column(Span(x, xMax), next, bottom) == column;
      doneRows := next;
      y := yMax;
    }
    assert rows == doneRows;
  }

  /** What PIL leaves at tile pixel t after all pastes: the zone image and the
      pixel inside it that was pasted there last, or None for the untouched
      (black) background. */
  function PixelSource(chunks: seq<Chunk>, t: Point): Option<(ZoneId, Point)>
    decreases |chunks|
  {
    if |chunks| == 0 then None
    else
      var c := chunks[|chunks| - 1];
      if c.paste.x <= t.x < c.paste.x + (c.crop.x1 - c.crop.x0)
         && c.paste.y <= t.y < c.paste.y + (c.crop.y1 - c.crop.y0)
      then Some((c.zone, Point(c.crop.x0 + t.x - c.paste.x, c.crop.y0 + t.y - c.paste.y)))
      else PixelSource(chunks[..|chunks| - 1], t)
  }

  /** Where global pixel g lives: its zone and its position inside the zone image. */
  function MapPixel(g: Point): (ZoneId, Point) {
    var zone := ZoneOf(g.x, g.y);
    var o := ZoneOrigin(zone);
    (zone, Point(g.x - o.x, g.y - o.y))
  }

  /** If all chunks fit and one of them is pasted over tile pixel t, the pixel
      there is the map pixel at the same offset from the rectangle's corner;
      if none is, the pixel stays background. */
  lemma {:induction false} PixelSourceOfFittingChunks(chunks: seq<Chunk>, bottom: Point, top: Point, t: Point)
    requires forall k :: 0 <= k < |chunks| ==> ChunkFits(chunks[k], bottom, top)
    ensures (exists k :: 0 <= k < |chunks| && Contains(chunks[k].area, Point(bottom.x + t.x, bottom.y + t.y)))
      ==> PixelSource(chunks, t) == Some(MapPixel(Point(bottom.x + t.x, bottom.y + t.y)))
    ensures (forall k :: 0 <= k < |chunks| ==> !Contains(chunks[k].area, Point(bottom.x + t.x, bottom.y + t.y)))
      ==> PixelSource(chunks, t) == None
    decreases |chunks|
  {
    if |chunks| > 0 {
      var n := |chunks| - 1;
      var c := chunks[n];
      var g := Point(bottom.x + t.x, bottom.y + t.y);
      var front := chunks[..n];
      assert forall k :: 0 <= k < n ==> front[k] == chunks[k];
      PixelSourceOfFittingChunks(front, bottom, top, t);
      if Contains(c.area, g) {
        ZoneOfCharacterization(c.zone, g.x, g.y);
      } else if exists k :: 0 <= k < |chunks| && Contains(chunks[k].area, g) {
        var k :| 0 <= k < |chunks| && Contains(chunks[k].area, g);
        assert k < n && Contains(front[k].area, g);
      }
    }
  }

  /** fetch_rectangle as a whole: the lexicographic assertion, the image
      allocation that refuses a negative size, then the striding loops. */
  method Fetch(bottom: Point, top: Point) returns (r: Result<Tile, FetchError>)
    ensures r.Success? <==> bottom.x <= top.x && bottom.y <= top.y
    ensures r.Failure? ==> (r.error == BoundsAssertionFailed <==> !LexLeq(bottom, top))
    ensures r.Success? ==> r.value.width == top.x - bottom.x && r.value.height == top.y - bottom.y
    ensures r.Success? ==> forall t: Point :: (0 <= t.x < r.value.width && 0 <= t.y < r.value.height
      ==> PixelSource(r.value.chunks, t) == Some(MapPixel(Point(bottom.x + t.x, bottom.y + t.y))))
    ensures r.Success? ==> PairwiseDisjoint(r.value.chunks)
  {
    if !LexLeq(bottom, top) {
      return Failure(BoundsAssertionFailed);
    }
    var width := top.x - bottom.x;
    var height := top.y - bottom.y;
    if width < 0 || height < 0 {
      return Failure(NegativeImageSize);
    }
    var chunks := StrideChunks(bottom, top);
    forall t: Point | 0 <= t.x < width && 0 <= t.y < height
      ensures PixelSource(chunks, t) == Some(MapPixel(Point(bottom.x + t.x, bottom.y + t.y)))
    {
      PlanCovers(bottom, top, Point(bottom.x + t.x, bottom.y + t.y));
      PixelSourceOfFittingChunks(chunks, bottom, top, t);
    }
    r := Success(Tile(width, height, chunks));
  }

  /** The assertion compares tuples lexicographically, so it lets through a
      rectangle whose top edge is below its bottom edge; only the image
      allocation then refuses it. */
  lemma LexGuardAdmitsInvertedRectangle()
    ensures LexLeq(Point(0, 600), Point(600, 0))
    ensures !(Point(0, 600).y <= Point(600, 0).y)
  {
  }

  /** A rectangle yields at least one chunk exactly when it is non-empty in both directions. */
  lemma PlanNonEmptyIff(bottom: Point, top: Point)
    ensures |Plan(bottom, top)| > 0 <==> bottom.x < top.x && bottom.y < top.y
  {
    PlanChunksFit(bottom, top);
    if |Plan(bottom, top)| > 0 {
      assert ChunkFits(Plan(bottom, top)[0], bottom, top);
    }
    if bottom.x < top.x && bottom.y < top.y {
      PlanCovers(bottom, top, bottom);
    }
  }
}
