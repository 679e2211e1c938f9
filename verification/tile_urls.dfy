/** The viewer's two tile layers: each asks for tile (x, y) at zoom z and
    answers with the URL of a tile pre-rendered at the layer's native zoom.
    Above the native zoom one native tile covers 2^(z - native) requested
    tiles in each direction; rows are shifted by a fixed offset. */
module TileUrls {
  import opened Wrappers
  import Text
  import TileGeometry

  /** Zoom level at which the world map overlay gives way to the coarse (L1) tiles. */
  const TileZoomThresholdL1: int := 3
  /** Zoom level at which the coarse tiles give way to the fine (L0) tiles. */
  const TileZoomThresholdL0: int := TileZoomThresholdL1 + 2

  const TiledMapWidthL1: int := 128
  const TiledMapHeightL1: int := 19
  const TiledMapWidthL0: int := 512
  const TiledMapHeightL0: int := 75

  /** The viewer's clamp, where either bound may be null; the upper bound is compared first. */
  function JsClamp(num: int, min: Option<int>, max: Option<int>): (r: int)
    ensures min.Some? && (max.None? || min.value <= max.value) ==> min.value <= r
    ensures max.Some? && (min.None? || min.value <= max.value) ==> r <= max.value
    ensures (min.None? || min.value <= num) && (max.None? || num <= max.value) ==> r == num
    ensures r == num || (min.Some? && r == min.value) || (max.Some? && r == max.value)
    ensures max.Some? && num > max.value ==> r == max.value
    ensures (max.None? || num <= max.value) && min.Some? && num < min.value ==> r == min.value
  {
    if max.Some? && num > max.value then max.value
    else if min.Some? && num < min.value then min.value
    else num
  }

  /** With a null upper bound the clamp is the larger of the number and the lower bound. */
  lemma JsClampNullMax(num: int, min: int)
    ensures JsClamp(num, Some(min), None) == if num < min then min else num
    ensures JsClamp(num, Some(min), None) >= min
  {
  }

  /** On a non-empty range the viewer's clamp and the cutter's clamp agree. */
  lemma ClampsAgree(num: int, lo: int, hi: int)
    requires lo <= hi
    ensures JsClamp(num, Some(lo), Some(hi)) == TileGeometry.Clamp(num, lo, hi)
  {
  }

  /** On an empty range they disagree exactly for numbers strictly between the
      bounds: there the viewer's answers the upper bound, the cutter's the lower. */
  lemma ClampsDisagreeOnEmptyRange(num: int, lo: int, hi: int)
    requires hi < lo
    ensures JsClamp(num, Some(lo), Some(hi)) != TileGeometry.Clamp(num, lo, hi) <==> hi < num < lo
    ensures hi < num < lo ==> JsClamp(num, Some(lo), Some(hi)) == hi && TileGeometry.Clamp(num, lo, hi) == lo
  {
  }

  function Pow2(n: nat): (r: int)
    ensures r >= 1
  {
    if n == 0 then 1 else 2 * Pow2(n - 1)
  }

  lemma {:induction false} Pow2Add(a: nat, b: nat)
    ensures Pow2(a + b) == Pow2(a) * Pow2(b)
    decreases b
  {
    if b > 0 {
      Pow2Add(a, b - 1);
      assert Pow2(a + b) == 2 * Pow2(a + (b - 1));
    }
  }

  /** `Math.floor(a / d)` on JavaScript numbers: real division, then floor. */
  function FloorOfQuotient(a: int, d: int): int
    requires d > 0
  {
    (a as real / d as real).Floor
  }

  /** The floor of the real quotient is the integer quotient rounded down. */
  lemma FloorOfQuotientIsDiv(a: int, d: int)
    requires d > 0
    ensures FloorOfQuotient(a, d) == a / d
  {
    var q := a / d;
    var r := a % d;
    assert a == q * d + r && 0 <= r < d;
    assert (q * d) as real == q as real * d as real;
    assert ((q + 1) * d) as real == (q + 1) as real * d as real;
    assert q as real * d as real <= a as real < (q + 1) as real * d as real;
    assert q as real <= a as real / d as real < (q + 1) as real;
  }

  /** A tile layer: the resolution level in its URLs, its native zoom and its row offset. */
  datatype TileLayer = TileLayer(level: int, nativeZoom: int, rowOffset: int)

  const Qud1: TileLayer := TileLayer(1, TileZoomThresholdL1, TiledMapHeightL1)
  const Qud0: TileLayer := TileLayer(0, TileZoomThresholdL0, TiledMapHeightL0)

  /** Leaflet's tile coordinates. */
  datatype TileCoords = TileCoords(x: int, y: int, z: int)

  /** The native tile a request resolves to. */
  datatype TileAddress = TileAddress(level: int, x: int, y: int)

  /** How many zoom levels above native zoom a request is; zero at or below it. */
  function ZoomExcess(layer: TileLayer, z: int): nat {
    if z > layer.nativeZoom then z - layer.nativeZoom else 0
  }

  /** getTileUrl's arithmetic: clamp the zoom excess at zero, divide both
      coordinates by 2 to that power rounding down, shift the row. */
  function Address(layer: TileLayer, c: TileCoords): (a: TileAddress)
    ensures a.level == layer.level
    ensures var m := Pow2(ZoomExcess(layer, c.z));
      a.x * m <= c.x < a.x * m + m
      && (a.y - layer.rowOffset) * m <= c.y < (a.y - layer.rowOffset) * m + m
  {
    var z := JsClamp(c.z - layer.nativeZoom, Some(0), None);
    var normalization := Pow2(z);
    FloorOfQuotientIsDiv(c.x, normalization);
    FloorOfQuotientIsDiv(c.y, normalization);
    TileAddress(layer.level, FloorOfQuotient(c.x, normalization),
                layer.rowOffset + FloorOfQuotient(c.y, normalization))
  }

  /** At or below native zoom the request is the native tile, rows shifted by the offset. */
  lemma AddressAtNativeZoom(layer: TileLayer, c: TileCoords)
    requires c.z <= layer.nativeZoom
    ensures Address(layer, c) == TileAddress(layer.level, c.x, c.y + layer.rowOffset)
  {
    var a := Address(layer, c);
    DivIsOne(c.x, a.x);
    DivIsOne(c.y, a.y - layer.rowOffset);
  }

  lemma DivIsOne(v: int, q: int)
    requires q * 1 <= v < q * 1 + 1
    ensures q == v
  {
  }

  /** The rounded-down quotient of q by m >= 1 lies between q and zero. */
  lemma DivTowardZero(q: int, m: int)
    requires m >= 1
    ensures q >= 0 ==> 0 <= q / m <= q
    ensures q < 0 ==> q <= q / m < 0
  {
    var d := q / m;
    var r := q % m;
    assert q == d * m + r && 0 <= r < m;
    if q >= 0 {
      if d < 0 {
        TileGeometry.MulMonotone(m, d, -1);
        assert false;
      }
      if d > q {
        TileGeometry.MulMonotone(d, 1, m);
        assert false;
      }
    } else {
      if d >= 0 {
        TileGeometry.MulMonotone(m, 0, d);
        assert false;
      }
      if d < q {
        TileGeometry.MulMonotone(m, d, q - 1);
        TileGeometry.MulMonotone(-q, 1, m);
        assert false;
      }
    }
  }

  /** Zooming further in never moves the native tile away from the origin:
      for a non-negative coordinate a larger z gives a column no larger, for a
      negative one no smaller. */
  lemma AddressMonotone(layer: TileLayer, x: int, y: int, z1: int, z2: int)
    requires z1 <= z2
    ensures var a1 := Address(layer, TileCoords(x, y, z1));
            var a2 := Address(layer, TileCoords(x, y, z2));
      && (x >= 0 ==> 0 <= a2.x <= a1.x)
      && (x < 0 ==> a1.x <= a2.x < 0)
  {
    var k1 := ZoomExcess(layer, z1);
    var k2 := ZoomExcess(layer, z2);
    var a1 := Address(layer, TileCoords(x, y, z1));
    var a2 := Address(layer, TileCoords(x, y, z2));
    Pow2Add(k1, k2 - k1);
    TileGeometry.DivIsUnique(x, Pow2(k1), a1.x);
    TileGeometry.DivIsUnique(x, Pow2(k2), a2.x);
    TileGeometry.DivOfDiv(x, Pow2(k1), Pow2(k2 - k1));
    DivTowardZero(a1.x, Pow2(k2 - k1));
    DivTowardZero(x, Pow2(k1));
  }

  /** A rounded-down quotient lands in [lo, hi) exactly when the dividend lies in [lo * m, hi * m). */
  lemma QuotientInRange(v: int, m: int, q: int, lo: int, hi: int)
    requires m >= 1
    requires q * m <= v < q * m + m
    ensures lo <= q < hi <==> lo * m <= v < hi * m
  {
    if lo <= q {
      TileGeometry.MulMonotone(m, lo, q);
    } else {
      TileGeometry.MulMonotone(m, q + 1, lo);
    }
    if q < hi {
      TileGeometry.MulMonotone(m, q + 1, hi);
    } else {
      TileGeometry.MulMonotone(m, hi, q);
    }
  }

  /** The fine layer asks only for tiles the cutter produced: the address is
      inside the cutter's 512 x 75 grid exactly when the requested column lies
      in [0, 512 * 2^k) and the requested row in [-75 * 2^k, 0), the rows Leaflet
      numbers above the map's origin. */
  lemma Qud0AddressInCutGrid(c: TileCoords)
    ensures var a := Address(Qud0, c);
            var m := Pow2(ZoomExcess(Qud0, c.z));
      (0 <= a.x < TileGeometry.MapWidthPx / TileGeometry.TileLength
       && 0 <= a.y < TileGeometry.MapHeightPx / TileGeometry.TileLength)
      <==> (0 <= c.x < TiledMapWidthL0 * m && -TiledMapHeightL0 * m <= c.y < 0)
  {
    var a := Address(Qud0, c);
    var m := Pow2(ZoomExcess(Qud0, c.z));
    QuotientInRange(c.x, m, a.x, 0, TiledMapWidthL0);
    QuotientInRange(c.y, m, a.y - TiledMapHeightL0, -TiledMapHeightL0, 0);
  }

  /** The same for the coarse layer and its 128 x 19 grid. */
  lemma Qud1AddressInGrid(c: TileCoords)
    ensures var a := Address(Qud1, c);
            var m := Pow2(ZoomExcess(Qud1, c.z));
      (0 <= a.x < TiledMapWidthL1 && 0 <= a.y < TiledMapHeightL1)
      <==> (0 <= c.x < TiledMapWidthL1 * m && -TiledMapHeightL1 * m <= c.y < 0)
  {
    var a := Address(Qud1, c);
    var m := Pow2(ZoomExcess(Qud1, c.z));
    QuotientInRange(c.x, m, a.x, 0, TiledMapWidthL1);
    QuotientInRange(c.y, m, a.y - TiledMapHeightL1, -TiledMapHeightL1, 0);
  }

  /** `/tiles/tile_{level}_{x}_{y}.webp`; it reads back to its native tile, so distinct
      tiles are never fetched from the same URL. */
  function Url(a: TileAddress): (url: string)
    ensures ParseUrl(url) == Some(a)
  {
    UrlParts(a);
    "/tiles/tile_" + Text.IntToDecimal(a.level) + "_" + Text.IntToDecimal(a.x) + "_"
      + Text.IntToDecimal(a.y) + ".webp"
  }

  /** The URL is the `_`-join of its four fields, and the join parses back. */
  lemma UrlParts(a: TileAddress)
    ensures var url := "/tiles/tile_" + Text.IntToDecimal(a.level) + "_" + Text.IntToDecimal(a.x) + "_"
      + Text.IntToDecimal(a.y) + ".webp";
      ParseUrl(url) == Some(a)
  {
    var l := Text.IntToDecimal(a.level);
    var x := Text.IntToDecimal(a.x);
    var y := Text.IntToDecimal(a.y);
    var last := y + ".webp";
    var parts := ["/tiles/tile", l, x, last];
    assert parts[1..] == [l, x, last] && parts[1..][1..] == [x, last] && parts[1..][1..][1..] == [last];
    assert Text.Join(parts[1..][1..], '_') == x + "_" + last;
    assert Text.Join(parts[1..], '_') == l + "_" + x + "_" + last;
    assert "/tiles/tile_" + l + "_" + x + "_" + y + ".webp" == Text.Join(parts, '_');
    assert '_' !in "/tiles/tile" && '_' !in ".webp";
    assert '_' !in last;
    Text.SplitJoin(parts, '_');
    assert last[..|last| - 5] == y;
    assert last[|last| - 5..] == ".webp";
    Text.IntRoundTrip(a.level);
    Text.IntRoundTrip(a.x);
    Text.IntRoundTrip(a.y);
  }

  /** getTileUrl of a layer: the URL names exactly the native tile the request resolves to. */
  function GetTileUrl(layer: TileLayer, c: TileCoords): (url: string)
    ensures ParseUrl(url) == Some(Address(layer, c))
  {
    Url(Address(layer, c))
  }

  /** Reads a tile URL back into the native tile it names. */
  function ParseUrl(s: string): Option<TileAddress> {
    var parts := Text.Split(s, '_');
    if |parts| != 4 || parts[0] != "/tiles/tile" || |parts[3]| < 5
       || parts[3][|parts[3]| - 5..] != ".webp" then None
    else
      match (Text.ParseInt(parts[1]), Text.ParseInt(parts[2]), Text.ParseInt(parts[3][..|parts[3]| - 5]))
      case (Some(level), Some(x), Some(y)) => Some(TileAddress(level, x, y))
      case _ => None
  }

  /** Only the URL of a tile parses to it: a padded or otherwise re-spelt URL
      names no tile, so Url's round trip pins the exact string requested. */
  lemma ParseUrlOnlyUrl(s: string)
    ensures ParseUrl(s).Some? ==> s == Url(ParseUrl(s).value)
  {
    var parts := Text.Split(s, '_');
    if ParseUrl(s).Some? {
      var a := ParseUrl(s).value;
      var last := parts[3];
      var y := last[..|last| - 5];
      assert Text.ParseInt(parts[1]) == Some(a.level);
      assert Text.ParseInt(parts[2]) == Some(a.x);
      assert Text.ParseInt(y) == Some(a.y);
      Text.ParseIntOnlyCanonical(parts[1]);
      Text.ParseIntOnlyCanonical(parts[2]);
      Text.ParseIntOnlyCanonical(y);
      assert last == y + ".webp";
      Text.JoinSplit(s, '_');
      var p1, p2, p3 := parts[1..], parts[1..][1..], parts[1..][1..][1..];
      assert p1[0] == parts[1] && p2[0] == parts[2] && p3 == [last];
      assert Text.Join(p3, '_') == last;
      assert Text.Join(p2, '_') == parts[2] + "_" + last;
      assert Text.Join(p1, '_') == parts[1] + "_" + parts[2] + "_" + last;
      assert Text.Join(parts, '_') == parts[0] + "_" + parts[1] + "_" + parts[2] + "_" + last;
    }
  }

  /** The worked example: fine layer, tile (10, 40) at zoom 7 is native tile (2, 85). */
  lemma Qud0Example()
    ensures Address(Qud0, TileCoords(10, 40, 7)) == TileAddress(0, 2, 85)
  {
    assert Pow2(2) == 4;
  }

  /** The worked example as a request: the fine layer asks for `/tiles/tile_0_2_85.webp`. */
  lemma Qud0UrlExample()
    ensures GetTileUrl(Qud0, TileCoords(10, 40, 7)) == "/tiles/tile_0_2_85.webp"
  {
    Qud0Example();
    var a := TileAddress(0, 2, 85);
    assert GetTileUrl(Qud0, TileCoords(10, 40, 7)) == Url(a);
    ExampleDigits();
    assert Url(a) == "/tiles/tile_" + "0" + "_" + "2" + "_" + "85" + ".webp";
    assert "/tiles/tile_" + "0" + "_" + "2" + "_" + "85" + ".webp" == "/tiles/tile_0_2_85.webp";
  }

  lemma ExampleDigits()
    ensures Text.IntToDecimal(0) == "0" && Text.IntToDecimal(2) == "2" && Text.IntToDecimal(85) == "85"
  {
    assert Text.NatToDecimal(85) == Text.NatToDecimal(8) + [Text.DigitChar(5)];
  }
}
