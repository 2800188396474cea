/**
 * The construction of the options object handed to the map library at the
 * start of the map initialization routine (src/script/map.ts, lines 17-29):
 * the tile style, and either a fixed centre and zoom or a rectangle to fit.
 */
module MapSetup {
  import opened Wrappers

  /** Tile style used for the dark theme. */
  const DarkStyle := "https://tiles.openfreemap.org/styles/dark"
  /** Tile style used otherwise. */
  const PositronStyle := "https://tiles.openfreemap.org/styles/positron"
  /** Padding, in pixels, around a fitted rectangle. */
  const FitPadding := 50

  datatype LngLat = LngLat(lng: real, lat: real)
  datatype Bounds = Bounds(west: real, south: real, east: real, north: real)
  datatype FitBoundsOptions = FitBoundsOptions(padding: int)

  /**
   * The page parameters the routine reads from its sibling modules; `None`
   * is an `undefined` parameter.
   */
  datatype PageSettings = PageSettings(
    style: Option<string>,
    theme: string,
    center: Option<LngLat>,
    zoom: Option<real>,
    bbox: Option<Bounds>,
    bounds: Option<Bounds>)

  /** The options object; `None` is a field that was never assigned. */
  datatype MapOptions = MapOptions(
    container: string,
    hash: bool,
    style: string,
    center: Option<LngLat>,
    zoom: Option<real>,
    bounds: Option<Bounds>,
    fitBoundsOptions: Option<FitBoundsOptions>)

  /**
   * Builds the options object the way the source does: a literal with the
   * container, hash and style, then one of two conditional field groups.
   */
  method BuildOptions(s: PageSettings) returns (options: MapOptions)
    ensures options.container == "map" && options.hash
    // style: the explicit one, else chosen by theme
    ensures s.style.Some? ==> options.style == s.style.value
    ensures s.style.None? && s.theme == "dark" ==> options.style == DarkStyle
    ensures s.style.None? && s.theme != "dark" ==> options.style == PositronStyle
    // centre and zoom are set exactly when both are given
    ensures options.center.Some? <==> s.center.Some? && s.zoom.Some?
    ensures options.zoom.Some? <==> s.center.Some? && s.zoom.Some?
    ensures options.center.Some? ==> options.center == s.center && options.zoom == s.zoom
    // the two branches never both apply
    ensures options.fitBoundsOptions.Some? <==> options.center.None?
    ensures options.center.Some? ==> options.bounds.None?
    // fitting: bbox wins over bounds, with the fixed padding
    ensures options.center.None? ==> options.fitBoundsOptions == Some(FitBoundsOptions(50))
    ensures options.center.None? && s.bbox.Some? ==> options.bounds == s.bbox
    ensures options.center.None? && s.bbox.None? ==> options.bounds == s.bounds
  {
    var style := if s.style.Some? then s.style.value
                 else if s.theme == "dark" then DarkStyle
                 else PositronStyle;
    options := MapOptions("map", true, style, None, None, None, None);
    if s.center.Some? && s.zoom.Some? {
      options := options.(center := s.center, zoom := s.zoom);
    } else {
      options := options.(bounds := if s.bbox.Some? then s.bbox else s.bounds,
                          fitBoundsOptions := Some(FitBoundsOptions(FitPadding)));
    }
  }
}
