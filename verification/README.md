# Qud world map viewer: tile cutting and zoom handling in Dafny

The Caves of Qud world-map viewer has two parts that contain plain arithmetic.
This project models both.

- **The tile cutter** (`create_tiles.py`). The game exports one 1280 x 600 px
  image per zone. The world has 80 x 25 parasangs of 3 x 3 zones each, so the
  map is 307200 x 45000 px. The cutter cuts it into 600 px square tiles, a
  512 x 75 grid. It builds each tile with `fetch_rectangle`, which walks the
  tile's rectangle in chunks that never cross a zone boundary. For each chunk
  it crops the zone image and pastes the result at the chunk's offset in the
  tile.
- **The viewer** (`script.js`). It is a Leaflet map. Below zoom 3 it shows a
  single world-map overlay (1280 x 600). From zoom 3 it shows coarse tiles
  (L1, 128 x 19 tiles of 32 px, i.e. 4096 x 608). From zoom 5 it shows the
  fine tiles (L0, 512 x 75) made by the cutter. The model covers:
  - turning a Leaflet tile request into a tile URL;
  - on `zoomend`, panning between the overlay's coordinates and the tiles'
    coordinates;
  - correcting the row offset between L1 and L0;
  - toggling nearest-neighbour ("pixel-perfect") rendering.

Modules:

- `Wrappers` (`wrappers.dfy`): `Option` and `Result`.
- `Text` (`text.dfy`): decimal rendering of integers, as f-strings and
  template literals produce it, and `Split`/`Join`. Their round trips show
  that file names and URLs identify their zone or tile.
- `TileGeometry` (`tile_geometry.dfy`): the cutter's constants, its
  divisibility checks, `clamp`, `get_zone_for_pixel` and zone file names.
- `Striding` (`striding.dfy`): the one-dimensional walk of `fetch_rectangle`.
  Each step ends at the next zone boundary or at the rectangle's edge.
- `FetchRectangle` (`fetch_rectangle.dfy`): the two nested loops as methods
  with invariants. They produce crop boxes and paste offsets. The module also
  has the paste result and `fetch_rectangle` as a whole, including its error
  paths.
- `TileGrid` (`tile_grid.dfy`): the loop over all tiles and the saved file
  names.
- `TileUrls` (`tile_urls.dfy`): the viewer's `clamp` and the `getTileUrl` of
  the two tile layers.
- `Viewer` (`viewer.dfy`): the `zoomstart`/`zoomend` handlers as a pure
  transition on an explicit state record. The record holds the center, the
  zoom, whether the overlay is present, the pixel-perfect class, and the
  center and zoom captured at `zoomstart`.

Python's `//` and `%` round toward negative infinity. With a positive divisor,
which is the only kind the cutter uses, so do Dafny's `/` and `%`. JavaScript's
`Math.floor(x / 2**z)` is modelled as the floor of a real quotient.
`FloorOfQuotientIsDiv` proves that this equals integer division.

The viewer behaves as follows (the model follows the code):

- `zoomend` reprojects the center that Leaflet reports when the zoom ends. It
  does not use the center captured at `zoomstart`; that value is stored but
  never read (`ZoomEndIgnoresStartCenter`).
- Only the row correction depends on the zoom the gesture started from.
- The two row corrections are asymmetric: 608/75 on entering L0 and
  608/76 = 8 on leaving it. So each L1 -> L0 -> L1 round trip moves the center
  down by 8/75 (`L0RoundTripDrift`). Crossing the overlay threshold and back
  returns to the same center exactly (`OverlayRoundTripNoDrift`).

## Model

| member | source | states |
|---|---|---|
| TileGeometry.CheckTileLength | create_tiles.py:20-27 | a tile length is accepted exactly when it divides both map dimensions (height checked first, so a length that divides the height but not the width reports the width), and then the grid times the tile length is the map size |
| TileGeometry.TileGridDimensions | create_tiles.py:13-27 | the configured 600 px tile passes both checks and gives a 512 x 75 grid of a 307200 x 45000 px map |
| TileGeometry.Clamp | create_tiles.py:29-34 | on a non-empty range the result lies in [min, max] and is x itself when x is in range; below min it is min, and otherwise above max it is max (min is compared first); it is always one of x, min, max |
| TileGeometry.ZoneOf | create_tiles.py:36-43 | the parasang indices px, py are in 0..2 for every pixel, z is 10, and non-negative pixels give non-negative world cells |
| TileGeometry.ZoneOfCharacterization | create_tiles.py:36-43 | a pixel maps to zone Z exactly when Z is a valid zone and the pixel lies inside Z's 1280 x 600 image |
| TileGeometry.ZoneOriginOfPixel | create_tiles.py:38-41 | the corner of a pixel's zone is the pixel minus its in-zone offsets x % 1280, y % 600 |
| TileGeometry.MapPixelsInWorld | create_tiles.py:15-18 | every pixel of the map lies in a zone of the 80 x 25 world grid |
| TileGeometry.ZoneName | create_tiles.py:43 | the zone file stem `JoppaWorld.{wx}.{wy}.{px}.{py}.10` parses back to its zone |
| TileGeometry.ParseZoneNameOnlyName | create_tiles.py:43 | the only string that parses to a zone is that zone's stem, with plain decimal fields (no padding, no `-0`) |
| TileGeometry.ZoneNameInjective | create_tiles.py:43 | two zones share a file stem only if they are the same zone |
| Striding.Strides | create_tiles.py:55-58 | the walk from x to the edge visits at least one step exactly when x is before the edge; StridesShape states the steps themselves |
| Striding.NextBoundary | create_tiles.py:56-58 | inside the walk, the next boundary lies strictly after x and at most at the edge, never beyond the end of x's zone cell, and it is that cell's end unless the edge comes first |
| Striding.StridesShape | create_tiles.py:54-58 | the steps of the walk are non-empty, strictly ordered, each within one zone cell, start at the low edge and end at the high edge |
| Striding.StridesConsecutive | create_tiles.py:89-91 | each step starts where the previous one ended, so the chunk ranges are consecutive [x, x_max) |
| Striding.StridesCover | create_tiles.py:54-91 | every coordinate between the edges lies in some step |
| Striding.StepWithinCell | create_tiles.py:54-58 | every coordinate of a step lies in the same zone column (row) as the step's start |
| FetchRectangle.MakeChunk | create_tiles.py:64-87 | the chunk's zone holds its top-left pixel, its paste offset is its position relative to the tile corner, and when it stays in one zone cell its crop box is the chunk in that zone image's coordinates, non-empty and inside the image |
| FetchRectangle.MakeChunkFits | create_tiles.py:64-87 | a chunk built from one column step and one row step has a non-empty crop box inside the zone image, equal to the chunk in zone coordinates, and a paste offset that keeps it inside the tile |
| FetchRectangle.PlanChunksFit | create_tiles.py:67-87 | every chunk the loops visit satisfies the crop and paste conditions above (the cutter's own asserts included) |
| FetchRectangle.PlanCovers | create_tiles.py:53-91 | every pixel of the rectangle lies in some visited chunk |
| FetchRectangle.PlanDisjoint | create_tiles.py:53-91 | no two visited chunks overlap |
| FetchRectangle.StrideChunks | create_tiles.py:53-91 | the outer loop visits the column strides in order; its chunks all fit and are pairwise disjoint |
| FetchRectangle.StrideColumn | create_tiles.py:60-89 | the inner loop visits the row strides of one column in order, with x_max >= x, y_max >= y and non-empty crop boxes |
| FetchRectangle.PixelSourceOfFittingChunks | create_tiles.py:81-87 | after pasting chunks that fit, a tile pixel covered by some chunk shows the map pixel at the same offset from the rectangle's corner, and an uncovered one stays background |
| FetchRectangle.Fetch | create_tiles.py:45-94 | with every zone image assumed present, fetching succeeds exactly when bottom <= top componentwise; the assertion fails exactly when the corners are not lexicographically ordered; on success the tile has size top - bottom, every tile pixel is the map pixel at its offset, and the pasted chunks do not overlap |
| FetchRectangle.LexGuardAdmitsInvertedRectangle | create_tiles.py:49-51 | the tuple comparison accepts corners (0, 600) and (600, 0), whose height is negative |
| FetchRectangle.PlanNonEmptyIff | create_tiles.py:49-91 | the loops visit at least one chunk exactly when the rectangle is non-empty in both directions |
| TileGrid.NumTilesIsGridSize | create_tiles.py:96 | the progress bar's total equals the number of loop iterations, 512 x 75 |
| TileGrid.EnumerateTiles | create_tiles.py:101-109 | the loops visit 38400 tiles column-major (iteration k is column k / 75, row k % 75), each a 600 x 600 square inside the map, and every map pixel lies in exactly one of them, the one at index (x / 600) * 75 + y / 600 |
| TileGrid.EnumerateColumn | create_tiles.py:102-107 | the inner loop yields the 75 tiles of one column, row y at index y |
| TileGrid.JobContainsIff | create_tiles.py:103-107 | the tile at column c, row r holds exactly the pixels with x / 600 = c and y / 600 = r |
| TileGrid.TilesPartitionMap | create_tiles.py:101-107 | for any list laid out as the loops lay it out, every map pixel is in exactly one tile, the one at index (x / 600) * 75 + y / 600 |
| TileGrid.TileZonesInWorld | create_tiles.py:101-109 | every zone the chunks of an enumerated tile name lies in the 80 x 25 world grid |
| TileGrid.TileFileName | create_tiles.py:110 | the saved name `tile_{x}_{y}.webp` parses back to its column and row |
| TileGrid.ParseTileFileNameOnlyName | create_tiles.py:110 | the only string that parses to a tile is that tile's saved name, so the names are exactly the f-string's |
| TileUrls.JsClamp | script.js:29-35 | with compatible bounds the result respects each non-null bound, is num when num is in range, is max whenever num exceeds a non-null max (compared first), and otherwise min when num is below a non-null min; it is always num or one of the bounds |
| TileUrls.JsClampNullMax | script.js:29-35 | with a null upper bound the clamp is max(num, min) and never below min |
| TileUrls.ClampsAgree | script.js:29-35 | on a non-empty range the viewer's clamp equals the cutter's |
| TileUrls.ClampsDisagreeOnEmptyRange | script.js:29-35 | on an empty range (max < min) the two differ exactly for numbers strictly between max and min, where the viewer answers max and the cutter min, because they compare the bounds in opposite orders |
| TileUrls.FloorOfQuotientIsDiv | script.js:143-145 | Math.floor of the real quotient by a positive normalization is the integer quotient rounded down |
| TileUrls.Address | script.js:138-146 | with k = max(0, z - native), the address column satisfies x' * 2^k <= x < (x' + 1) * 2^k, and the row minus the offset satisfies the same for y |
| TileUrls.AddressAtNativeZoom | script.js:141-145 | at or below native zoom the address is (x, y + rowOffset) |
| TileUrls.AddressMonotone | script.js:141-145 | a larger z never moves the column away from zero: for x >= 0 it never grows and stays >= 0 |
| TileUrls.Qud0AddressInCutGrid | script.js:171-178 | the fine layer's address lies in the cutter's 512 x 75 grid exactly when the request lies in [0, 512 * 2^k) x [-75 * 2^k, 0) |
| TileUrls.Qud1AddressInGrid | script.js:138-146 | the coarse layer's address lies in its 128 x 19 grid exactly when the request lies in [0, 128 * 2^k) x [-19 * 2^k, 0) |
| TileUrls.GetTileUrl | script.js:171-181 | (Qud1 at lines 138-147 is the same code with its own constants) the URL a layer requests parses back to exactly the native tile its zoom resolves the coordinates to |
| TileUrls.Url | script.js:147 | a URL `/tiles/tile_{level}_{x}_{y}.webp` parses back to its level and native tile |
| TileUrls.ParseUrlOnlyUrl | script.js:147 | the only string that parses to a native tile is that tile's URL, so together with Url the requested string is fixed exactly |
| TileUrls.Qud0Example | script.js:171-181 | request (10, 40) at zoom 7 on the fine layer resolves to native tile (2, 85) |
| TileUrls.Qud0UrlExample | script.js:171-181 | that request fetches exactly `/tiles/tile_0_2_85.webp` |
| Viewer.Reproject | script.js:61-66 | reprojection preserves the fractions lng / width and lat / height |
| Viewer.ReprojectRoundTrip | script.js:61-82 | world -> tiled -> world (for any two spaces of positive size) is the identity |
| Viewer.Init | script.js:37-50 | the initial view shows the overlay, centred on the world map, at the zoom fitBounds chose and with the class the page set, and the start values equal the current ones |
| Viewer.ZoomStart | script.js:52-55 | the captured start center and zoom become the current ones, and the view itself does not change |
| Viewer.ZoomStartIdempotent | script.js:52-55 | a second zoomstart before any zoomend captures the same values again |
| Viewer.SwitchLayers | script.js:58-89 | afterwards the overlay is shown exactly when zoom < 3; the center moves only when the overlay changes, reprojected from the world map to the tiled map on leaving it and back on returning; zoom, class and start values are kept |
| Viewer.CorrectRow | script.js:91-107 | only the latitude moves, by the row correction (-608/75 entering L0, +8 leaving it, 0 otherwise); every other field is kept |
| Viewer.UpdatePixelated | script.js:113-118 | afterwards the class is set exactly when zoom >= 6 or zoom < 3, and nothing else changes |
| Viewer.ZoomEnd | script.js:57-119 | after zoomend the overlay is present exactly when zoom < 3, the class is set exactly when zoom >= 6 or zoom < 3, and zoom and captured start values are unchanged |
| Viewer.OverlaySwitches | script.js:58-89 | the overlay is removed only when zoom >= 3 and it was present, added only when zoom < 3 and it was absent, and the result is settled |
| Viewer.PixelatedConditionsComplementary | script.js:113-118 | exactly one of the add and remove conditions holds at every zoom |
| Viewer.RowShift | script.js:91-107 | the row correction is -608/75 when entering L0 from below, +8 when leaving L0, and 0 when the gesture does not cross zoom 5 |
| Viewer.ZoomEndCenter | script.js:57-107 | zoomend's center is the layer switch's reprojection with only the latitude then moved by the row correction |
| Viewer.ZoomEndIgnoresStartCenter | script.js:52-61 | the center captured at zoomstart does not influence zoomend |
| Viewer.GestureAtSameZoomIsStable | script.js:52-119 | a gesture ending at the zoom it started from changes a settled view only in its captured start values |
| Viewer.OverlayRoundTripNoDrift | script.js:57-89 | zooming from the overlay into L1 pans to the reprojected center, and zooming back out restores the original center exactly |
| Viewer.L0RoundTripDrift | script.js:91-107 | zooming from L1 into L0 pans 608/75 down, and zooming back to L1 leaves the center 8/75 below where it started |
| Viewer.L0ToWorldPansInWorldSpace | script.js:74-107 | one gesture from L0 straight to the overlay reprojects to world coordinates and then still pans 8 up there |
| Viewer.FirstZoomIntoTilesExample | script.js:37-70 | zooming the initial view from 2 to 3 centres the tiled map at (304, 2048) |

## Left out

- Image I/O in the cutter is left out: `Image.open`, `crop`, `paste`, `save`,
  the tqdm progress bar and the output directory. The model keeps the
  coordinates passed to `crop` and `paste`, and the paste order. `Fetch`
  assumes PIL's `Image.new` refuses a negative width or height, which is PIL
  behaviour and not part of this model.
- The zone file stem and the tile names are modelled as strings. Opening
  `worldmap/{zone}.webp` is not.
- `WorldMap/Wishes.cs` (the in-game export) and `WorldMap/Patches.cs` (the
  message-suppressing runtime patch) are left out. They depend on game-engine
  types and Unity textures that are not visible here.
- Leaflet internals are left out: map construction, how `fitBounds` picks the
  initial zoom (a parameter of `Viewer.Init`), tile fetching and caching, the
  `minZoom`/`maxZoom`/native-zoom options that decide which layer Leaflet
  draws, attributions, and the commented-out debug grid layer.
- How Leaflet moves the center while zooming is left out. It is a parameter of
  `Viewer.Gesture`.
- `Qud0AddressInCutGrid` and `Qud1AddressInGrid` state their range in
  Leaflet's tile numbering for `CRS.Simple`, where rows above the origin are
  negative. That numbering belongs to Leaflet and is taken as given.
- The cutter saves `tile_{x}_{y}.webp`. The viewer requests
  `tile_0_{x}_{y}.webp` and `tile_1_{x}_{y}.webp`. Renaming the files and
  producing the L1 tiles happen outside this code.
- Floating-point rounding of map coordinates is left out. Centers are exact
  reals, so reprojection round trips and the row-correction drift are exact
  statements.
- Viewer.Reproject: requires both spaces to have positive size. The viewer
  only ever uses its two constant spaces, and it has no no-op path for an
  empty space.
