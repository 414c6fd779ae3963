/** The page's decision between its three displays, from the origin and
    destination inputs, and the layers of the route display (app.py, the
    `if orig == "{Current Location}"` chain). Geolocation, geocoding, the
    graph download, nearest-node search, shortest path and view fitting
    are services whose answers arrive as values in a `World`. */
module Dispatch {
  import opened Wrappers
  import opened Strings
  import opened Graph
  import opened Accidents

  /** The origin input's default text, meaning "where I am". */
  const CurrentLocation: string := "{Current Location}"

  /** Zoom of a display centred on a single point. */
  const StreetZoom: real := 17.0

  /** Height, in pixels, of every map the page draws. */
  const MapHeight: int := 720

  datatype Coord = Coord(lat: real, lng: real)

  datatype Viewport = Viewport(latitude: real, longitude: real, zoom: real, height: int)

  /** The origin marker is blue, the destination marker red. */
  datatype Pin = BluePin | RedPin

  datatype Icon = Icon(lat: real, lng: real, pin: Pin)

  datatype Layer =
    | IconLayer(icons: seq<Icon>)
    | PathLayer(name: string, path: seq<seq<real>>)
    | ScatterLayer(rows: seq<DisplayRow>)

  /** What the page draws: nothing, or one map. */
  datatype Page = Blank | Map(view: Viewport, layers: seq<Layer>)

  /** The answers of the outside world for one request: the device's
      location, the geocoder, the nodes table of the graph merged from
      both addresses, the shortest route through it, the view fitted to a
      list of `[x, y]` points, and the loaded accident table. */
  datatype World = World(
    here: Coord,
    geocode: string -> Coord,
    nodes: seq<Node>,
    route: seq<int>,
    fitView: seq<seq<real>> -> Viewport,
    accidents: seq<Accident>)

  /** A shortest path is never empty and runs through the graph's nodes;
      the node table has one row per node id (osmnx indexes it by id). */
  predicate RouteFound(w: World)
  {
    |w.route| > 0 && OnGraph(w.nodes, w.route) && UniqueIds(w.nodes)
  }

  datatype Mode = NoInput | CurrentSpot | SingleAddress | TwoAddresses

  /** Which branch the inputs select. An origin that is missing or empty
      (and so not the current-location text) selects none. */
  function ModeOf(orig: Option<string>, dest: Option<string>): Mode
  {
    if orig == Some(CurrentLocation) then CurrentSpot
    else if orig.Some? && orig.value != "" then
      if dest.None? || dest.value == "" then SingleAddress else TwoAddresses
    else NoInput
  }

  /** The route branch runs exactly when both inputs are non-empty and the
      origin is not the current-location text; the single-address branch
      exactly when the origin is such a text and the destination is
      missing or empty. */
  lemma ModeCases(orig: Option<string>, dest: Option<string>)
    ensures ModeOf(orig, dest) == TwoAddresses <==>
              && orig.Some? && orig.value != "" && orig.value != CurrentLocation
              && dest.Some? && dest.value != ""
    ensures ModeOf(orig, dest) == SingleAddress <==>
              && orig.Some? && orig.value != "" && orig.value != CurrentLocation
              && (dest.None? || dest.value == "")
    ensures ModeOf(orig, dest) == NoInput <==> orig.None? || orig.value == ""
  {
  }

  /** `s.split(",")[0]`: the text before the first comma, or all of it. */
  function FirstPart(s: string): (p: string)
    ensures p <= s
    ensures ',' !in p
    ensures p == s || s[|p|] == ','
  {
    var p := Split(s, ",")[0];
    FirstPartIsPrefix(s, ",", []);
    SplitPartsFree(s, ",");
    ContainsChar(p, ',');
    p
  }

  /** The name of the path: first part of the origin, " - ", first part of
      the destination. */
  function PathName(orig: string, dest: string): string
  {
    FirstPart(orig) + " - " + FirstPart(dest)
  }

  /** The route display: both markers, the path and the accidents. */
  function RoutePage(orig: string, dest: string, w: World): Page
    requires RouteFound(w)
  {
    var o, d := w.geocode(orig), w.geocode(dest);
    var path := Polyline(w.nodes, w.route);
    assert HasNode(w.nodes, w.route[0]);
    Map(w.fitView(path).(height := MapHeight),
        [ IconLayer([Icon(o.lat, o.lng, BluePin), Icon(d.lat, d.lng, RedPin)]),
          PathLayer(PathName(orig, dest), path),
          ScatterLayer(ShownAccidents(w.nodes, w.accidents)) ])
  }

  /** The page drawn for the inputs. */
  function Dispatch(orig: Option<string>, dest: Option<string>, w: World): (page: Page)
    requires ModeOf(orig, dest) == TwoAddresses ==> RouteFound(w)
    ensures page.Blank? <==> ModeOf(orig, dest) == NoInput
    ensures page.Map? ==> page.view.height == MapHeight
    ensures ModeOf(orig, dest) == CurrentSpot ==>
              page == Map(Viewport(w.here.lat, w.here.lng, StreetZoom, MapHeight), [])
    ensures ModeOf(orig, dest) == SingleAddress ==>
              var g := w.geocode(orig.value);
              page == Map(Viewport(g.lat, g.lng, StreetZoom, MapHeight), [IconLayer([Icon(g.lat, g.lng, BluePin)])])
    ensures ModeOf(orig, dest) == TwoAddresses ==>
              page == RoutePage(orig.value, dest.value, w)
  {
    match ModeOf(orig, dest)
    case CurrentSpot =>
      Map(Viewport(w.here.lat, w.here.lng, StreetZoom, MapHeight), [])
    case SingleAddress =>
      var g := w.geocode(orig.value);
      Map(Viewport(g.lat, g.lng, StreetZoom, MapHeight), [IconLayer([Icon(g.lat, g.lng, BluePin)])])
    case TwoAddresses =>
      RoutePage(orig.value, dest.value, w)
    case NoInput =>
      Blank
  }

  /** What the route display shows: the origin marker then the destination
      marker, at the geocoded addresses; a path with one `[x, y]` point per
      route node in route order, named after the parts of both addresses
      before their first comma; and the accidents of the graph's box. Every
      point of the path lies in the box the accidents are chosen from. */
  lemma RoutePageContents(orig: string, dest: string, w: World)
    requires RouteFound(w)
    ensures var page := RoutePage(orig, dest, w);
            var o, d := w.geocode(orig), w.geocode(dest);
            var b := BoundingBox(w.nodes);
            && page.Map?
            && page.view == w.fitView(Polyline(w.nodes, w.route)).(height := MapHeight)
            && page.view.height == MapHeight
            && |page.layers| == 3
            && page.layers[0] == IconLayer([Icon(o.lat, o.lng, BluePin), Icon(d.lat, d.lng, RedPin)])
            && page.layers[1].PathLayer?
            && page.layers[2] == ScatterLayer(ShownAccidents(w.nodes, w.accidents))
            && var name, path := page.layers[1].name, page.layers[1].path;
               && name == FirstPart(orig) + " - " + FirstPart(dest)
               && |path| == |w.route|
               && (forall k :: 0 <= k < |path| ==>
                    |path[k]| == 2 && Inside(b, path[k][1], path[k][0]))
               && forall k, i :: 0 <= k < |path| && 0 <= i < |w.nodes| && w.nodes[i].id == w.route[k] ==>
                    path[k] == Position(w.nodes[i])
  {
    assert HasNode(w.nodes, w.route[0]);
    var b := BoundingBox(w.nodes);
    var path := Polyline(w.nodes, w.route);
    forall k | 0 <= k < |path|
      ensures |path[k]| == 2 && Inside(b, path[k][1], path[k][0])
    {
      var i :| 0 <= i < |w.nodes| && w.nodes[i].id == w.route[k] && path[k] == Position(w.nodes[i]);
    }
    PolylineRows(w.nodes, w.route);
  }
}
