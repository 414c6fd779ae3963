/** Choosing and preparing the accident records shown along a route
    (app.py, the block after "Reducing query size of accident data"). */
module Accidents {
  import opened Wrappers
  import opened Graph

  /** One row of the accident table, restricted to the columns the page
      reads. `None` is a missing (NaN) cell. */
  datatype Accident = Accident(
    id: Option<string>,
    severity: Option<int>,
    startTime: Option<string>,
    weather: Option<string>,
    visibility: Option<real>,
    temperature: Option<real>,
    startLat: Option<real>,
    startLng: Option<real>)

  // ---------------------------------------------------------------------
  // bounding box of the graph
  // ---------------------------------------------------------------------

  /** `min(column)` */
  function Min(s: seq<real>): (m: real)
    requires |s| > 0
    ensures m in s
    ensures forall k :: 0 <= k < |s| ==> m <= s[k]
  {
    if |s| == 1 then s[0]
    else
      var rest := Min(s[1..]);
      assert forall k :: 1 <= k < |s| ==> s[k] == s[1..][k - 1];
      if s[0] <= rest then s[0] else rest
  }

  /** `max(column)` */
  function Max(s: seq<real>): (m: real)
    requires |s| > 0
    ensures m in s
    ensures forall k :: 0 <= k < |s| ==> s[k] <= m
  {
    if |s| == 1 then s[0]
    else
      var rest := Max(s[1..]);
      assert forall k :: 1 <= k < |s| ==> s[k] == s[1..][k - 1];
      if rest <= s[0] then s[0] else rest
  }

  /** The `y` column of the nodes table. */
  function Ys(nodes: seq<Node>): seq<real>
  {
    seq(|nodes|, i requires 0 <= i < |nodes| => nodes[i].y)
  }

  /** The `x` column of the nodes table. */
  function Xs(nodes: seq<Node>): seq<real>
  {
    seq(|nodes|, i requires 0 <= i < |nodes| => nodes[i].x)
  }

  /** Latitude bounds `minY..maxY`, longitude bounds `minX..maxX`. */
  datatype Box = Box(minY: real, maxY: real, minX: real, maxX: real)

  /** The point (lat, lng) lies in the box, bounds included. */
  predicate Inside(b: Box, lat: real, lng: real)
  {
    b.minY <= lat <= b.maxY && b.minX <= lng <= b.maxX
  }

  /** `min_y, max_y, min_x, max_x` over ALL nodes of the merged graph (not
      only the route's): the smallest box holding every node, each bound
      reached by some node. */
  function BoundingBox(nodes: seq<Node>): (b: Box)
    requires |nodes| > 0
    ensures forall i :: 0 <= i < |nodes| ==> Inside(b, nodes[i].y, nodes[i].x)
    ensures exists i :: 0 <= i < |nodes| && nodes[i].y == b.minY
    ensures exists i :: 0 <= i < |nodes| && nodes[i].y == b.maxY
    ensures exists i :: 0 <= i < |nodes| && nodes[i].x == b.minX
    ensures exists i :: 0 <= i < |nodes| && nodes[i].x == b.maxX
  {
    var ys, xs := Ys(nodes), Xs(nodes);
    var b := Box(Min(ys), Max(ys), Min(xs), Max(xs));
    assert forall i :: 0 <= i < |nodes| ==> ys[i] == nodes[i].y && xs[i] == nodes[i].x;
    b
  }

  // ---------------------------------------------------------------------
  // selection: mask and .loc
  // ---------------------------------------------------------------------

  /** One entry of the mask. A missing coordinate compares false against
      every bound, so such a record is never inside. */
  predicate InBox(b: Box, a: Accident)
  {
    a.startLat.Some? && a.startLng.Some? && Inside(b, a.startLat.value, a.startLng.value)
  }

  /** The boolean mask `(Start_Lat >= min_y) & (Start_Lat <= max_y) &
      (Start_Lng >= min_x) & (Start_Lng <= max_x)`. */
  function Mask(b: Box, ds: seq<Accident>): (mask: seq<bool>)
    ensures |mask| == |ds|
  {
    seq(|ds|, i requires 0 <= i < |ds| => InBox(b, ds[i]))
  }

  /** `ds.loc[mask]`: the rows whose mask entry is true, in table order. */
  function Loc(ds: seq<Accident>, mask: seq<bool>): (r: seq<Accident>)
    requires |mask| == |ds|
    ensures |r| <= |ds|
    ensures forall k :: 0 <= k < |r| ==> r[k] in ds
  {
    if ds == [] then []
    else (if mask[0] then [ds[0]] else []) + Loc(ds[1..], mask[1..])
  }

  /** The accidents kept for a box: `df_acc.loc[mask]`. */
  function Select(b: Box, ds: seq<Accident>): seq<Accident>
  {
    Loc(ds, Mask(b, ds))
  }

  lemma SelectCons(b: Box, ds: seq<Accident>)
    requires |ds| > 0
    ensures Select(b, ds) == (if InBox(b, ds[0]) then [ds[0]] else []) + Select(b, ds[1..])
  {
    assert Mask(b, ds)[1..] == Mask(b, ds[1..]);
  }

  /** A record is kept iff it is in the table and inside the box. */
  lemma {:induction false} SelectMembers(b: Box, ds: seq<Accident>, a: Accident)
    ensures a in Select(b, ds) <==> a in ds && InBox(b, a)
  {
    if ds != [] {
      SelectCons(b, ds);
      SelectMembers(b, ds[1..], a);
      assert ds == [ds[0]] + ds[1..];
    }
  }

  /** Selection keeps table order: selecting from two tables one after the
      other is selecting from each and putting the results one after the
      other. With `SelectMembers` this pins the result down as the
      order-preserving subsequence of the records inside the box. */
  lemma {:induction false} SelectAppend(b: Box, xs: seq<Accident>, ys: seq<Accident>)
    ensures Select(b, xs + ys) == Select(b, xs) + Select(b, ys)
  {
    if xs == [] {
      assert xs + ys == ys;
    } else {
      SelectCons(b, xs);
      SelectCons(b, xs + ys);
      assert (xs + ys)[0] == xs[0];
      assert (xs + ys)[1..] == xs[1..] + ys;
      SelectAppend(b, xs[1..], ys);
    }
  }

  /** Filtering twice with the same box changes nothing. */
  lemma {:induction false} SelectIdempotent(b: Box, ds: seq<Accident>)
    ensures Select(b, Select(b, ds)) == Select(b, ds)
  {
    if ds != [] {
      SelectCons(b, ds);
      SelectIdempotent(b, ds[1..]);
      var rest := Select(b, ds[1..]);
      if InBox(b, ds[0]) {
        var kept := [ds[0]] + rest;
        SelectCons(b, kept);
        assert kept[0] == ds[0] && kept[1..] == rest;
        assert Select(b, kept) == [ds[0]] + Select(b, rest);
      } else {
        assert Select(b, ds) == [] + rest == rest;
      }
    }
  }

  /** Every kept record has both coordinates, inside the box. */
  lemma SelectInside(b: Box, ds: seq<Accident>)
    ensures forall k :: 0 <= k < |Select(b, ds)| ==> InBox(b, Select(b, ds)[k])
  {
    forall k | 0 <= k < |Select(b, ds)|
      ensures InBox(b, Select(b, ds)[k])
    {
      SelectMembers(b, ds, Select(b, ds)[k]);
    }
  }

  /** The worked example: box latitude 34.0..34.1, longitude -118.3..-118.2;
      of a record at (34.05, -118.25) and one at (35.0, -119.0) only the
      first is kept. */
  lemma SelectExample(near: Accident, far: Accident)
    requires near.startLat == Some(34.05) && near.startLng == Some(-118.25)
    requires far.startLat == Some(35.0) && far.startLng == Some(-119.0)
    ensures Select(Box(34.0, 34.1, -118.3, -118.2), [near, far]) == [near]
  {
    var b := Box(34.0, 34.1, -118.3, -118.2);
    SelectCons(b, [near, far]);
    SelectCons(b, [far]);
    assert [near, far][1..] == [far];
    assert [far][1..] == [];
  }

  // ---------------------------------------------------------------------
  // the Coordinates column
  // ---------------------------------------------------------------------

  /** Both coordinates present, as every selected record has them. */
  predicate Located(a: Accident)
  {
    a.startLat.Some? && a.startLng.Some?
  }

  /** The `Coordinates` value of a record: longitude first, then latitude. */
  function CoordinatesOf(a: Accident): seq<real>
    requires Located(a)
  {
    [a.startLng.value, a.startLat.value]
  }

  /** The loop that fills the `Coordinates` column: every row starts with
      an empty list, then gets its longitude and its latitude appended. */
  method AttachCoordinates(rel: seq<Accident>) returns (coords: seq<seq<real>>)
    requires forall k :: 0 <= k < |rel| ==> Located(rel[k])
    ensures |coords| == |rel|
    ensures forall k :: 0 <= k < |rel| ==> coords[k] == CoordinatesOf(rel[k])
  {
    var column := new seq<real>[|rel|](_ => []);
    for i := 0 to |rel|
      invariant forall k :: 0 <= k < i ==> column[k] == CoordinatesOf(rel[k])
      invariant forall k :: i <= k < |rel| ==> column[k] == []
    {
      column[i] := column[i] + [rel[i].startLng.value];
      column[i] := column[i] + [rel[i].startLat.value];
    }
    coords := column[..];
  }

  // ---------------------------------------------------------------------
  // the seven display columns, NaN replaced
  // ---------------------------------------------------------------------

  /** What `replace(np.nan, "Not Available")` writes into a missing cell. */
  const NotAvailable: string := "Not Available"

  /** A cell of a numeric column after the replacement: the number, or the
      text that replaced a missing value. */
  datatype Cell<T> = Number(value: T) | Text(text: string)

  /** A text cell after the replacement. */
  function FillText(o: Option<string>): (s: string)
    ensures o.Some? ==> s == o.value
    ensures o.None? ==> s == NotAvailable
  {
    match o
    case Some(v) => v
    case None => NotAvailable
  }

  /** A numeric cell after the replacement. */
  function FillNumber<T>(o: Option<T>): (c: Cell<T>)
    ensures o.Some? ==> c == Number(o.value)
    ensures o.None? ==> c == Text(NotAvailable)
  {
    match o
    case Some(v) => Number(v)
    case None => Text(NotAvailable)
  }

  /** A row of `df_rel_acc[rel_cols]`: ID, Severity, Start_Time,
      Weather_Condition, Visibility(mi), Temperature(F), Coordinates. */
  datatype DisplayRow = DisplayRow(
    id: string,
    severity: Cell<int>,
    startTime: string,
    weather: string,
    visibility: Cell<real>,
    temperature: Cell<real>,
    coordinates: seq<real>)

  /** Projection onto the seven columns, then the replacement of missing
      values. */
  function Display(a: Accident, coordinates: seq<real>): DisplayRow
  {
    DisplayRow(FillText(a.id), FillNumber(a.severity), FillText(a.startTime), FillText(a.weather),
               FillNumber(a.visibility), FillNumber(a.temperature), coordinates)
  }

  /** The rows the accident layer shows for a graph. */
  function ShownAccidents(nodes: seq<Node>, ds: seq<Accident>): seq<DisplayRow>
    requires |nodes| > 0
  {
    var rel := Select(BoundingBox(nodes), ds);
    SelectInside(BoundingBox(nodes), ds);
    seq(|rel|, k requires 0 <= k < |rel| => Display(rel[k], CoordinatesOf(rel[k])))
  }

  /** The shown rows, one per selected record and in table order: each
      carries `[Start_Lng, Start_Lat]` of its record, lying in the graph's
      box, and every other column is the record's value, or
      "Not Available" exactly where the record's value is missing. */
  lemma ShownRows(nodes: seq<Node>, ds: seq<Accident>)
    requires |nodes| > 0
    ensures var b := BoundingBox(nodes);
            var rel := Select(b, ds);
            var rows := ShownAccidents(nodes, ds);
            && |rows| == |rel|
            && forall k :: 0 <= k < |rows| ==>
                 && rel[k] in ds
                 && InBox(b, rel[k])
                 && rows[k].coordinates == [rel[k].startLng.value, rel[k].startLat.value]
                 && Inside(b, rows[k].coordinates[1], rows[k].coordinates[0])
                 && rows[k].id == FillText(rel[k].id)
                 && (rows[k].severity == Text(NotAvailable) <==> rel[k].severity.None?)
                 && (rows[k].visibility == Text(NotAvailable) <==> rel[k].visibility.None?)
                 && (rows[k].temperature == Text(NotAvailable) <==> rel[k].temperature.None?)
                 && (rel[k].severity.Some? ==> rows[k].severity == Number(rel[k].severity.value))
                 && (rel[k].visibility.Some? ==> rows[k].visibility == Number(rel[k].visibility.value))
                 && (rel[k].temperature.Some? ==> rows[k].temperature == Number(rel[k].temperature.value))
                 && rows[k].startTime == FillText(rel[k].startTime)
                 && rows[k].weather == FillText(rel[k].weather)
  {
    SelectInside(BoundingBox(nodes), ds);
  }

  /** The accident step of the route page as the code runs it: box, mask,
      the Coordinates loop, projection and replacement. */
  method RelevantAccidents(nodes: seq<Node>, ds: seq<Accident>) returns (rows: seq<DisplayRow>)
    requires |nodes| > 0
    ensures rows == ShownAccidents(nodes, ds)
  {
    var b := BoundingBox(nodes);
    var rel := Select(b, ds);
    SelectInside(b, ds);
    var coords := AttachCoordinates(rel);
    rows := seq(|rel|, k requires 0 <= k < |rel| => Display(rel[k], coords[k]));
  }
}
