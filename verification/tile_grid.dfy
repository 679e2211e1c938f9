/** The cutter's main loop: the map is cut into square tiles of TileLength
    pixels, column by column, each tile fetched with `fetch_rectangle` and
    saved as `tile_{x}_{y}.webp`. */
module TileGrid {
  import opened Wrappers
  import opened TileGeometry
  import FetchRectangle
  import Text

  /** The progress bar's total: map area over tile area. */
  const NumTiles: int := MapHeightPx * MapWidthPx / (TileLength * TileLength)

  /** One iteration of the loop: tile column and row, and the two corners passed to `fetch_rectangle`. */
  datatype TileJob = TileJob(column: int, row: int, upper: Point, lower: Point)

  function JobAt(column: int, row: int): TileJob {
    var px := column * TileLength;
    var py := row * TileLength;
    TileJob(column, row, Point(px, py), Point(px + TileLength, py + TileLength))
  }

  /** The progress bar's total is exactly the number of loop iterations, 512 x 75. */
  lemma NumTilesIsGridSize()
    ensures NumTiles == (MapWidthPx / TileLength) * (MapHeightPx / TileLength)
    ensures NumTiles == 512 * 75
  {
  }

  predicate InTile(job: TileJob, p: Point) {
    job.upper.x <= p.x < job.lower.x && job.upper.y <= p.y < job.lower.y
  }

  /** The outer `range` loop, over tile columns. */
  method EnumerateTiles() returns (jobs: seq<TileJob>)
    ensures |jobs| == NumTiles
    ensures forall k :: 0 <= k < |jobs| ==> jobs[k] == JobAt(k / 75, k % 75)
    ensures forall k :: 0 <= k < |jobs| ==>
      && 0 <= jobs[k].upper.x && jobs[k].lower.x <= MapWidthPx
      && 0 <= jobs[k].upper.y && jobs[k].lower.y <= MapHeightPx
      && jobs[k].lower.x - jobs[k].upper.x == TileLength
      && jobs[k].lower.y - jobs[k].upper.y == TileLength
    ensures forall p: Point, k :: 0 <= p.x < MapWidthPx && 0 <= p.y < MapHeightPx && 0 <= k < |jobs| ==>
      (InTile(jobs[k], p) <==> k == (p.x / TileLength) * 75 + p.y / TileLength)
  {
    var columns := MapWidthPx / TileLength;
    assert columns == 512;
    jobs := [];
    for x := 0 to columns
      invariant |jobs| == x * 75
      invariant forall k :: 0 <= k < |jobs| ==> jobs[k] == JobAt(k / 75, k % 75)
    {
      var column := EnumerateColumn(x);
      ghost var before := jobs;
      jobs := jobs + column;
      forall k | 0 <= k < |jobs|
        ensures jobs[k] == JobAt(k / 75, k % 75)
      {
        if k >= |before| {
          assert jobs[k] == column[k - x * 75];
          assert k / 75 == x && k % 75 == k - x * 75;
        }
      }
    }
    TilesPartitionMap(jobs);
  }

  /** The inner `range` loop: the tiles of column x, top to bottom. */
  method EnumerateColumn(x: int) returns (column: seq<TileJob>)
    ensures |column| == MapHeightPx / TileLength
    ensures forall y :: 0 <= y < |column| ==> column[y] == JobAt(x, y)
  {
    var rows := MapHeightPx / TileLength;
    column := [];
    for y := 0 to rows
      invariant |column| == y
      invariant forall j :: 0 <= j < y ==> column[j] == JobAt(x, j)
    {
      var pixelX := x * TileLength;
      var pixelY := y * TileLength;
      var upperCorner := Point(pixelX, pixelY);
      var lowerCorner := Point(pixelX + TileLength, pixelY + TileLength);
      column := column + [TileJob(x, y, upperCorner, lowerCorner)];
    }
  }

  /** The tile with a given column and row sits at that column and row of the grid,
      and contains exactly the map pixels whose coordinates divide down to them. */
  lemma JobContainsIff(column: int, row: int, p: Point)
    ensures InTile(JobAt(column, row), p) <==> p.x / TileLength == column && p.y / TileLength == row
  {
    if p.x / TileLength == column && p.y / TileLength == row {
    } else if InTile(JobAt(column, row), p) {
      DivIsUnique(p.x, TileLength, column);
      DivIsUnique(p.y, TileLength, row);
    }
  }

  /** Every map pixel is in exactly one tile, the one at index (x / 600) * 75 + y / 600. */
  lemma TilesPartitionMap(jobs: seq<TileJob>)
    requires forall k :: 0 <= k < |jobs| ==> jobs[k] == JobAt(k / 75, k % 75)
    ensures forall p: Point, k :: 0 <= p.x < MapWidthPx && 0 <= p.y < MapHeightPx && 0 <= k < |jobs| ==>
      (InTile(jobs[k], p) <==> k == (p.x / TileLength) * 75 + p.y / TileLength)
  {
    forall p: Point, k | 0 <= p.x < MapWidthPx && 0 <= p.y < MapHeightPx && 0 <= k < |jobs|
      ensures InTile(jobs[k], p) <==> k == (p.x / TileLength) * 75 + p.y / TileLength
    {
      JobContainsIff(k / 75, k % 75, p);
    }
  }

  /** Every zone a tile's chunks open lies in the 80 x 25 world grid. */
  lemma TileZonesInWorld(column: int, row: int)
    requires 0 <= column < MapWidthPx / TileLength && 0 <= row < MapHeightPx / TileLength
    ensures forall c :: c in FetchRectangle.Plan(JobAt(column, row).upper, JobAt(column, row).lower) ==>
      0 <= c.zone.wx < 80 && 0 <= c.zone.wy < 25
  {
    var job := JobAt(column, row);
    var plan := FetchRectangle.Plan(job.upper, job.lower);
    FetchRectangle.PlanChunksFit(job.upper, job.lower);
    forall c | c in plan
      ensures 0 <= c.zone.wx < 80 && 0 <= c.zone.wy < 25
    {
      var k :| 0 <= k < |plan| && plan[k] == c;
      assert FetchRectangle.ChunkFits(plan[k], job.upper, job.lower);
      ZoneOfCharacterization(c.zone, c.area.x0, c.area.y0);
      MapPixelsInWorld(c.area.x0, c.area.y0);
    }
  }

  /** The saved file name `tile_{x}_{y}.webp`; it reads back to its tile, so no two
      tiles overwrite each other's file. */
  function TileFileName(column: int, row: int): (name: string)
    ensures ParseTileFileName(name) == Some((column, row))
  {
    FileNameParts(column, row);
    "tile_" + Text.IntToDecimal(column) + "_" + Text.IntToDecimal(row) + ".webp"
  }

  /** The file name is the `_`-join of its three fields, and the join parses back. */
  lemma FileNameParts(column: int, row: int)
    ensures var name := "tile_" + Text.IntToDecimal(column) + "_" + Text.IntToDecimal(row) + ".webp";
      ParseTileFileName(name) == Some((column, row))
  {
    var cx := Text.IntToDecimal(column);
    var ry := Text.IntToDecimal(row);
    var last := ry + ".webp";
    var parts := ["tile", cx, last];
    assert parts[1..] == [cx, last] && parts[1..][1..] == [last];
    assert Text.Join(parts[1..], '_') == cx + "_" + last;
    assert "tile_" + cx + "_" + ry + ".webp" == Text.Join(parts, '_');
    assert '_' !in "tile" && '_' !in ".webp";
    assert '_' !in last;
    Text.SplitJoin(parts, '_');
    assert last[..|last| - 5] == ry;
    assert last[|last| - 5..] == ".webp";
    Text.IntRoundTrip(column);
    Text.IntRoundTrip(row);
  }

  /** Reads a saved file name back into its column and row. */
  function ParseTileFileName(s: string): Option<(int, int)> {
    var parts := Text.Split(s, '_');
    if |parts| != 3 || parts[0] != "tile" || |parts[2]| < 5 || parts[2][|parts[2]| - 5..] != ".webp" then None
    else
      match (Text.ParseInt(parts[1]), Text.ParseInt(parts[2][..|parts[2]| - 5]))
      case (Some(x), Some(y)) => Some((x, y))
      case _ => None
  }

  /** Only the file name of a tile parses to it, so TileFileName's round trip pins the exact name. */
  lemma ParseTileFileNameOnlyName(s: string)
    ensures ParseTileFileName(s).Some? ==> s == TileFileName(ParseTileFileName(s).value.0, ParseTileFileName(s).value.1)
  {
    var parts := Text.Split(s, '_');
    if ParseTileFileName(s).Some? {
      var (column, row) := ParseTileFileName(s).value;
      var last := parts[2];
      var y := last[..|last| - 5];
      assert Text.ParseInt(parts[1]) == Some(column);
      assert Text.ParseInt(y) == Some(row);
      Text.ParseIntOnlyCanonical(parts[1]);
      Text.ParseIntOnlyCanonical(y);
      assert last == y + ".webp";
      Text.JoinSplit(s, '_');
      var p1, p2 := parts[1..], parts[1..][1..];
      assert p1[0] == parts[1] && p2 == [last];
      assert Text.Join(p2, '_') == last;
      assert Text.Join(p1, '_') == parts[1] + "_" + last;
      assert Text.Join(parts, '_') == parts[0] + "_" + parts[1] + "_" + last;
    }
  }
}
