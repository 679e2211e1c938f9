/** The viewer's zoom handling as an explicit state transition. Leaflet's map
    becomes a record: the center (`getCenter`/`panTo`), the zoom (`getZoom`),
    whether the world map overlay is on the map (`hasLayer`/`addLayer`/
    `removeLayer`), whether the map element carries the `pixel-perfect` class,
    and the center and zoom captured when the last zoom gesture started.
    Coordinates are exact reals; Leaflet works in floating point. */
module Viewer {
  import opened TileUrls

  /** Zoom level from which tiles are drawn with nearest-neighbour scaling. */
  const PixelatedZoomThreshold: int := 6

  const WorldMapPixelWidth: int := 80 * 16
  const WorldMapPixelHeight: int := 25 * 24
  const TiledMapPixelWidthL1: int := TiledMapWidthL1 * 32
  const TiledMapPixelHeightL1: int := TiledMapHeightL1 * 32

  /** A map position: `lat` is the vertical, `lng` the horizontal pixel coordinate. */
  datatype LatLng = LatLng(lat: real, lng: real)

  /** The pixel size of one representation of the map. */
  datatype Space = Space(width: real, height: real)

  const World: Space := Space(WorldMapPixelWidth as real, WorldMapPixelHeight as real)
  const TiledL1: Space := Space(TiledMapPixelWidthL1 as real, TiledMapPixelHeightL1 as real)

  predicate ValidSpace(s: Space) {
    s.width > 0.0 && s.height > 0.0
  }

  /** The position in `to` at the same fraction of the width and height as c is in `from`. */
  function Reproject(c: LatLng, from: Space, to: Space): (r: LatLng)
    requires ValidSpace(from) && ValidSpace(to)
    ensures r.lng / to.width == c.lng / from.width
    ensures r.lat / to.height == c.lat / from.height
  {
    var fracX := c.lng / from.width;
    var fracY := c.lat / from.height;
    LatLng(fracY * to.height, fracX * to.width)
  }

  /** Reprojecting there and back is the identity. */
  lemma ReprojectRoundTrip(c: LatLng, a: Space, b: Space)
    requires ValidSpace(a) && ValidSpace(b)
    ensures Reproject(Reproject(c, a, b), b, a) == c
  {
  }

  datatype ViewerState = ViewerState(
    center: LatLng,
    zoom: real,
    overlay: bool,
    pixelated: bool,
    startCenter: LatLng,
    startZoom: real)

  /** The map after construction: centred on the world map with the overlay
      added; the zoom fitBounds picks depends on the window, and whether the
      element starts with the pixel-perfect class depends on the page. */
  function Init(fitZoom: real, pixelated: bool): (s: ViewerState)
    ensures s.overlay
    ensures s.zoom == fitZoom && s.pixelated == pixelated
    ensures s.center.lat * 2.0 == World.height && s.center.lng * 2.0 == World.width
    ensures s.startCenter == s.center && s.startZoom == s.zoom
  {
    var center := LatLng(WorldMapPixelHeight as real / 2.0, WorldMapPixelWidth as real / 2.0);
    ViewerState(center, fitZoom, true, pixelated, center, fitZoom)
  }

  /** The zoomstart handler: remember the center and zoom. */
  function ZoomStart(s: ViewerState): (r: ViewerState)
    ensures r.startCenter == s.center && r.startZoom == s.zoom
    ensures r.center == s.center && r.zoom == s.zoom
    ensures r.overlay == s.overlay && r.pixelated == s.pixelated
  {
    s.(startCenter := s.center, startZoom := s.zoom)
  }

  /** A second zoomstart before any zoomend captures the same values again. */
  lemma ZoomStartIdempotent(s: ViewerState)
    ensures ZoomStart(ZoomStart(s)) == ZoomStart(s)
  {
  }

  /** The first two branches of zoomend: leave the world map overlay at the
      L1 threshold, or return to it below, panning to the same fraction of the map. */
  function SwitchLayers(s: ViewerState): (r: ViewerState)
    ensures r.overlay <==> s.zoom < TileZoomThresholdL1 as real
    ensures r.overlay == s.overlay ==> r.center == s.center
    ensures s.overlay && !r.overlay ==> r.center == Reproject(s.center, World, TiledL1)
    ensures !s.overlay && r.overlay ==> r.center == Reproject(s.center, TiledL1, World)
    ensures r.zoom == s.zoom && r.pixelated == s.pixelated
    ensures r.startCenter == s.startCenter && r.startZoom == s.startZoom
  {
    var s1 :=
      if s.zoom >= TileZoomThresholdL1 as real && s.overlay then
        s.(center := Reproject(s.center, World, TiledL1), overlay := false)
      else s;
    if s1.zoom < TileZoomThresholdL1 as real && !s1.overlay then
      s1.(center := Reproject(s1.center, TiledL1, World), overlay := true)
    else s1
  }

  /** The pan applied when a gesture crosses into L0. */
  const EnterL0Shift: real := TiledMapPixelHeightL1 as real * (1.0 / 75.0)
  /** The pan applied when a gesture crosses out of L0. */
  const LeaveL0Shift: real := TiledMapPixelHeightL1 as real * (1.0 / 76.0)

  /** The row correction of zoomend, keyed on the zoom the gesture started from. */
  function CorrectRow(s: ViewerState): (r: ViewerState)
    ensures r.center == LatLng(s.center.lat + RowShift(s.zoom, s.startZoom), s.center.lng)
    ensures r == s.(center := r.center)
  {
    var s1 :=
      if s.zoom >= TileZoomThresholdL0 as real && s.startZoom < TileZoomThresholdL0 as real then
        s.(center := LatLng(s.center.lat - EnterL0Shift, s.center.lng))
      else s;
    if s1.zoom < TileZoomThresholdL0 as real && s1.startZoom >= TileZoomThresholdL0 as real then
      s1.(center := LatLng(s1.center.lat + LeaveL0Shift, s1.center.lng))
    else s1
  }

  /** The last part of zoomend: add or remove the pixel-perfect class. */
  function UpdatePixelated(s: ViewerState): (r: ViewerState)
    ensures r.pixelated <==> s.zoom >= PixelatedZoomThreshold as real || s.zoom < TileZoomThresholdL1 as real
    ensures r == s.(pixelated := r.pixelated)
  {
    var s1 :=
      if s.zoom >= PixelatedZoomThreshold as real || s.zoom < TileZoomThresholdL1 as real then
        s.(pixelated := true)
      else s;
    if s1.zoom < PixelatedZoomThreshold as real && s1.zoom >= TileZoomThresholdL1 as real then
      s1.(pixelated := false)
    else s1
  }

  /** The zoomend handler. */
  function ZoomEnd(s: ViewerState): (r: ViewerState)
    ensures r.overlay <==> s.zoom < TileZoomThresholdL1 as real
    ensures r.pixelated <==> s.zoom >= PixelatedZoomThreshold as real || s.zoom < TileZoomThresholdL1 as real
    ensures r.zoom == s.zoom && r.startZoom == s.startZoom && r.startCenter == s.startCenter
  {
    UpdatePixelated(CorrectRow(SwitchLayers(s)))
  }

  /** A state the viewer settles in after zoomend: overlay and class agree with the zoom. */
  predicate Settled(s: ViewerState) {
    && (s.overlay <==> s.zoom < TileZoomThresholdL1 as real)
    && (s.pixelated <==> s.zoom >= PixelatedZoomThreshold as real || s.zoom < TileZoomThresholdL1 as real)
  }

  /** The overlay is removed only when the zoom reaches the L1 threshold while it is
      shown, and added only when the zoom drops below it while it is hidden. */
  lemma OverlaySwitches(s: ViewerState)
    ensures s.overlay && !ZoomEnd(s).overlay <==> s.zoom >= TileZoomThresholdL1 as real && s.overlay
    ensures !s.overlay && ZoomEnd(s).overlay <==> s.zoom < TileZoomThresholdL1 as real && !s.overlay
    ensures Settled(ZoomEnd(s))
  {
  }

  /** The add and remove conditions of the pixel-perfect class are complementary. */
  lemma PixelatedConditionsComplementary(zoom: real)
    ensures (zoom >= PixelatedZoomThreshold as real || zoom < TileZoomThresholdL1 as real)
      != (zoom < PixelatedZoomThreshold as real && zoom >= TileZoomThresholdL1 as real)
  {
  }

  /** The net vertical pan of the row correction. */
  function RowShift(zoom: real, startZoom: real): (d: real)
    ensures zoom >= TileZoomThresholdL0 as real && startZoom < TileZoomThresholdL0 as real
      ==> d == -608.0 / 75.0
    ensures zoom < TileZoomThresholdL0 as real && startZoom >= TileZoomThresholdL0 as real
      ==> d == 8.0
    ensures (zoom >= TileZoomThresholdL0 as real) == (startZoom >= TileZoomThresholdL0 as real)
      ==> d == 0.0
  {
    if zoom >= TileZoomThresholdL0 as real && startZoom < TileZoomThresholdL0 as real then -EnterL0Shift
    else if zoom < TileZoomThresholdL0 as real && startZoom >= TileZoomThresholdL0 as real then LeaveL0Shift
    else 0.0
  }

  /** The center after the layer switch alone. */
  function SwitchedCenter(s: ViewerState): LatLng {
    if s.zoom >= TileZoomThresholdL1 as real && s.overlay then Reproject(s.center, World, TiledL1)
    else if s.zoom < TileZoomThresholdL1 as real && !s.overlay then Reproject(s.center, TiledL1, World)
    else s.center
  }

  /** zoomend's pan: the layer switch's reprojection, then at most one of the two
      row corrections, which moves only the latitude. */
  lemma ZoomEndCenter(s: ViewerState)
    ensures ZoomEnd(s).center.lng == SwitchedCenter(s).lng
    ensures ZoomEnd(s).center.lat == SwitchedCenter(s).lat + RowShift(s.zoom, s.startZoom)
  {
  }

  /** The center reprojection reads the center at zoomend; the captured start center is never used. */
  lemma ZoomEndIgnoresStartCenter(s: ViewerState, c: LatLng)
    ensures ZoomEnd(s.(startCenter := c)) == ZoomEnd(s).(startCenter := c)
  {
  }

  /** One zoom gesture: zoomstart, then Leaflet moves to zoom z and center c, then zoomend. */
  function Gesture(s: ViewerState, z: real, c: LatLng): ViewerState {
    ZoomEnd(ZoomStart(s).(zoom := z, center := c))
  }

  /** A gesture that ends at the zoom it started from leaves a settled state as it was,
      apart from the captured start values: no second pan, no layer flicker. */
  lemma GestureAtSameZoomIsStable(s: ViewerState)
    requires Settled(s)
    ensures Gesture(s, s.zoom, s.center) == ZoomStart(s)
  {
  }

  /** Crossing the L1 threshold and back, with Leaflet keeping the center, returns to the same center. */
  lemma OverlayRoundTripNoDrift(s: ViewerState, zIn: real, zOut: real)
    requires Settled(s) && s.zoom < TileZoomThresholdL1 as real
    requires TileZoomThresholdL1 as real <= zIn < TileZoomThresholdL0 as real
    requires zOut < TileZoomThresholdL1 as real
    ensures var t := Gesture(s, zIn, s.center);
      && t.center == Reproject(s.center, World, TiledL1)
      && Gesture(t, zOut, t.center).center == s.center
  {
    ReprojectRoundTrip(s.center, World, TiledL1);
  }

  /** Crossing the L0 threshold and back does drift: the pans are 608/75 down and
      608/76 up, so the center ends 8/75 lower than it started. */
  lemma L0RoundTripDrift(s: ViewerState, zIn: real, zOut: real)
    requires Settled(s)
    requires TileZoomThresholdL1 as real <= s.zoom < TileZoomThresholdL0 as real
    requires zIn >= TileZoomThresholdL0 as real
    requires TileZoomThresholdL1 as real <= zOut < TileZoomThresholdL0 as real
    ensures var t := Gesture(s, zIn, s.center);
      && t.center == LatLng(s.center.lat - 608.0 / 75.0, s.center.lng)
      && Gesture(t, zOut, t.center).center == LatLng(s.center.lat - 8.0 / 75.0, s.center.lng)
  {
  }

  /** A single gesture from L0 straight down to the world view reprojects into
      world coordinates first and then still applies the L0 exit pan of 8 there. */
  lemma L0ToWorldPansInWorldSpace(s: ViewerState, z: real)
    requires Settled(s) && s.zoom >= TileZoomThresholdL0 as real
    requires z < TileZoomThresholdL1 as real
    ensures Gesture(s, z, s.center).center
      == LatLng(Reproject(s.center, TiledL1, World).lat + 8.0, Reproject(s.center, TiledL1, World).lng)
  {
  }

  /** Zooming the initial view to 3 shows the tiled map's middle: (304, 2048). */
  lemma FirstZoomIntoTilesExample(pixelated: bool)
    ensures Gesture(Init(2.0, pixelated), 3.0, Init(2.0, pixelated).center).center == LatLng(304.0, 2048.0)
  {
  }
}
