/** The fixed geometry of the exported world map as the tile cutter sees it:
    the world is 80 x 25 parasang cells, each cut into 3 x 3 zones, and each
    zone image is 80 x 25 glyphs of 16 x 24 pixels, that is 1280 x 600 px.
    Pixel (0, 0) is the top-left corner of the whole map. */
module TileGeometry {
  import opened Wrappers
  import Text

  const TileLength: int := 600
  const ZoneHeightPx: int := 25 * 24
  const ZoneWidthPx: int := 80 * 16
  const MapHeightPx: int := (25 * 3) * ZoneHeightPx
  const MapWidthPx: int := (80 * 3) * ZoneWidthPx

  /** Every zone id the cutter forms ends in this stratum. */
  const SurfaceStratum: int := 10

  /** A point in global pixel coordinates (or an offset between two such points). */
  datatype Point = Point(x: int, y: int)

  /** The number of tile columns and rows the map is cut into. */
  datatype Grid = Grid(columns: int, rows: int)

  datatype GridError = HeightNotDivisible | WidthNotDivisible

  /** The module-level divisibility checks: a tile length is accepted only when
      it divides both the height and the width of the map, and the grid is the
      map size over the tile length. The height is checked first. */
  function CheckTileLength(tileLength: int): (r: Result<Grid, GridError>)
    requires tileLength > 0
    ensures r.Success? <==> MapHeightPx % tileLength == 0 && MapWidthPx % tileLength == 0
    ensures r.Failure? && MapHeightPx % tileLength != 0 ==> r.error == HeightNotDivisible
    ensures r.Failure? && MapHeightPx % tileLength == 0 ==> r.error == WidthNotDivisible
    ensures r.Success? ==>
      r.value.columns * tileLength == MapWidthPx && r.value.rows * tileLength == MapHeightPx
  {
    if MapHeightPx % tileLength != 0 then Failure(HeightNotDivisible)
    else if MapWidthPx % tileLength != 0 then Failure(WidthNotDivisible)
    else Success(Grid(MapWidthPx / tileLength, MapHeightPx / tileLength))
  }

  /** The configured tile length passes both checks and gives a 512 x 75 grid. */
  lemma TileGridDimensions()
    ensures CheckTileLength(TileLength) == Success(Grid(512, 75))
    ensures MapWidthPx == 307200 && MapHeightPx == 45000
  {
  }

  /** The tile cutter's clamp: the lower bound is compared first. */
  function Clamp(x: int, lo: int, hi: int): (r: int)
    ensures lo <= hi ==> lo <= r <= hi
    ensures lo <= x <= hi ==> r == x
    ensures r == x || r == lo || r == hi
    ensures x < lo ==> r == lo
    ensures lo <= x && hi < x ==> r == hi
  {
    if x < lo then lo
    else if x > hi then hi
    else x
  }

  /** A zone of the world: parasang cell (wx, wy), zone (px, py) inside it, stratum z. */
  datatype ZoneId = ZoneId(wx: int, wy: int, px: int, py: int, z: int)

  /** A zone id the cutter can produce: in-cell indices 0..2 and the surface stratum. */
  predicate ValidZone(zone: ZoneId) {
    0 <= zone.px < 3 && 0 <= zone.py < 3 && zone.z == SurfaceStratum
  }

  /** The zone whose image holds global pixel (x, y). Python's `//` and `%`
      round toward negative infinity; with a positive divisor so do Dafny's. */
  function ZoneOf(x: int, y: int): (zone: ZoneId)
    ensures ValidZone(zone)
    ensures x >= 0 && y >= 0 ==> zone.wx >= 0 && zone.wy >= 0
  {
    ZoneId(x / (ZoneWidthPx * 3), y / (ZoneHeightPx * 3),
           (x / ZoneWidthPx) % 3, (y / ZoneHeightPx) % 3, SurfaceStratum)
  }

  /** The global pixel at the top-left corner of a zone's image. */
  function ZoneOrigin(zone: ZoneId): Point {
    Point(zone.wx * (ZoneWidthPx * 3) + zone.px * ZoneWidthPx,
          zone.wy * (ZoneHeightPx * 3) + zone.py * ZoneHeightPx)
  }

  /** Whether global pixel (x, y) lies inside the image of the given zone. */
  predicate InZoneImage(zone: ZoneId, x: int, y: int) {
    var o := ZoneOrigin(zone);
    o.x <= x < o.x + ZoneWidthPx && o.y <= y < o.y + ZoneHeightPx
  }

  lemma ZoneOfAxis(v: int, side: int, q: int, k: int)
    requires side > 0 && 0 <= k < 3
    requires q * (side * 3) + k * side <= v < q * (side * 3) + k * side + side
    ensures v / (side * 3) == q && (v / side) % 3 == k
  {
    var c := q * 3 + k;
    assert c * side <= v < c * side + side;
    DivIsUnique(v, side, c);
    DivIsUnique(c, 3, q);
    assert v / (side * 3) == (v / side) / 3 by {
      DivOfDiv(v, side, 3);
    }
  }

  lemma DivIsUnique(v: int, d: int, q: int)
    requires d > 0
    requires q * d <= v < q * d + d
    ensures v / d == q && v % d == v - q * d
  {
    var r := v - q * d;
    assert v == d * q + r && 0 <= r < d;
    var q' := v / d;
    var r' := v % d;
    assert v == d * q' + r' && 0 <= r' < d;
    if q' > q {
      assert d * q' >= d * (q + 1) by { MulMonotone(d, q + 1, q'); }
    } else if q' < q {
      assert d * q >= d * (q' + 1) by { MulMonotone(d, q' + 1, q); }
    }
  }

  lemma MulMonotone(d: int, a: int, b: int)
    requires d > 0 && a <= b
    ensures d * a <= d * b
  {
    assert d * b - d * a == d * (b - a);
  }

  lemma DivOfDiv(v: int, a: int, b: int)
    requires a > 0 && b > 0
    ensures v / (a * b) == (v / a) / b
  {
    var q := (v / a) / b;
    var r1 := v % a;
    var r2 := (v / a) % b;
    assert v / a == q * b + r2;
    assert v == (q * b + r2) * a + r1;
    assert (q * b + r2) * a + r1 == q * (a * b) + (r2 * a + r1);
    assert 0 <= r2 * a + r1 < a * b by {
      MulMonotone(a, r2, b - 1);
      assert (b - 1) * a == a * b - a;
    }
    DivIsUnique(v, a * b, q);
  }

  /** A pixel is in the image of exactly the zone ZoneOf names for it. */
  lemma ZoneOfCharacterization(zone: ZoneId, x: int, y: int)
    ensures ZoneOf(x, y) == zone <==> ValidZone(zone) && InZoneImage(zone, x, y)
  {
    var z := ZoneOf(x, y);
    var o := ZoneOrigin(z);
    var qx := x / ZoneWidthPx;
    var qy := y / ZoneHeightPx;
    DivOfDiv(x, ZoneWidthPx, 3);
    DivOfDiv(y, ZoneHeightPx, 3);
    assert o.x == qx * ZoneWidthPx;
    assert o.y == qy * ZoneHeightPx;
    assert InZoneImage(z, x, y);
    if ValidZone(zone) && InZoneImage(zone, x, y) {
      ZoneOfAxis(x, ZoneWidthPx, zone.wx, zone.px);
      ZoneOfAxis(y, ZoneHeightPx, zone.wy, zone.py);
    }
  }

  /** The corner of a pixel's zone is the pixel with its in-zone offsets removed. */
  lemma ZoneOriginOfPixel(x: int, y: int)
    ensures ZoneOrigin(ZoneOf(x, y)) == Point(x - x % ZoneWidthPx, y - y % ZoneHeightPx)
  {
    DivOfDiv(x, ZoneWidthPx, 3);
    DivOfDiv(y, ZoneHeightPx, 3);
  }

  /** Every pixel of the map falls in a zone of the 80 x 25 world grid. */
  lemma MapPixelsInWorld(x: int, y: int)
    requires 0 <= x < MapWidthPx && 0 <= y < MapHeightPx
    ensures 0 <= ZoneOf(x, y).wx < 80 && 0 <= ZoneOf(x, y).wy < 25
  {
  }

  /** The zone image file stem `JoppaWorld.{wx}.{wy}.{px}.{py}.10`. */
  function ZoneName(zone: ZoneId): (name: string)
    ensures ParseZoneName(name) == Some(zone)
  {
    var parts := ["JoppaWorld", Text.IntToDecimal(zone.wx), Text.IntToDecimal(zone.wy),
                  Text.IntToDecimal(zone.px), Text.IntToDecimal(zone.py),
                  Text.IntToDecimal(zone.z)];
    assert '.' !in "JoppaWorld";
    Text.SplitJoin(parts, '.');
    Text.IntRoundTrip(zone.wx);
    Text.IntRoundTrip(zone.wy);
    Text.IntRoundTrip(zone.px);
    Text.IntRoundTrip(zone.py);
    Text.IntRoundTrip(zone.z);
    Text.Join(parts, '.')
  }

  /** Reads a zone file stem back into the zone it names. */
  function ParseZoneName(s: string): Option<ZoneId> {
    var parts := Text.Split(s, '.');
    if |parts| != 6 || parts[0] != "JoppaWorld" then None
    else
      match (Text.ParseInt(parts[1]), Text.ParseInt(parts[2]), Text.ParseInt(parts[3]),
             Text.ParseInt(parts[4]), Text.ParseInt(parts[5]))
      case (Some(wx), Some(wy), Some(px), Some(py), Some(z)) => Some(ZoneId(wx, wy, px, py, z))
      case _ => None
  }

  /** Only the stem of a zone parses to it, so ZoneName's round trip pins the exact stem. */
  lemma ParseZoneNameOnlyName(s: string)
    ensures ParseZoneName(s).Some? ==> s == ZoneName(ParseZoneName(s).value)
  {
    var parts := Text.Split(s, '.');
    if ParseZoneName(s).Some? {
      var zone := ParseZoneName(s).value;
      assert Text.ParseInt(parts[1]) == Some(zone.wx);
      assert Text.ParseInt(parts[2]) == Some(zone.wy);
      assert Text.ParseInt(parts[3]) == Some(zone.px);
      assert Text.ParseInt(parts[4]) == Some(zone.py);
      assert Text.ParseInt(parts[5]) == Some(zone.z);
      Text.ParseIntOnlyCanonical(parts[1]);
      Text.ParseIntOnlyCanonical(parts[2]);
      Text.ParseIntOnlyCanonical(parts[3]);
      Text.ParseIntOnlyCanonical(parts[4]);
      Text.ParseIntOnlyCanonical(parts[5]);
      Text.JoinSplit(s, '.');
      var expected := ["JoppaWorld", Text.IntToDecimal(zone.wx), Text.IntToDecimal(zone.wy),
                       Text.IntToDecimal(zone.px), Text.IntToDecimal(zone.py),
                       Text.IntToDecimal(zone.z)];
      assert parts == expected;
    }
  }

  /** Distinct zones never share an image file. */
  lemma ZoneNameInjective(a: ZoneId, b: ZoneId)
    ensures ZoneName(a) == ZoneName(b) <==> a == b
  {
  }
}
