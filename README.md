# routr — a verified model of the route-risk page

routr is a Streamlit page. It takes an origin and a destination address. It
draws the driving route between them on a map, together with the historical
road accidents near that route. Most of `app.py` hands work to other
libraries: Google geolocation and geocoding over HTTP, osmnx and networkx for
the street graph and the shortest path, pydeck for drawing, and pandas for the
accident table. This project models the deterministic logic that sits between
those calls. Each piece is proved against a statement of what it means.

- **Wi-Fi scan parser** (`get_mac_aps`, module `WifiScan`). It reads
  (BSSID, signal strength) pairs from the text of an `airport -s` scan. The
  text is `str(bytes)`, so it is cut on the two characters `\` `n`. The first
  and last pieces are dropped. Each line is split on single spaces and empty
  tokens are discarded. The first token holding a colon is the BSSID, and the
  token after it is read with Python's `int()`. `GetMacAps` is the loop
  itself. It is proved to return one access point per line, in line order, or
  the error of the first line that cannot be read. The Python operations it
  relies on (`str.split`, `int()`) are modelled in `Strings`. Both come with
  partners: `split` with `join`, and `int()` with decimal printing.
- **Dispatch** (module `Dispatch`). From the `orig` and `dest` inputs the page
  draws one of four things. With `"{Current Location}"` it draws the device
  location at zoom 17 with no layers. With one address it draws that address
  at zoom 17 with one blue marker. With two addresses it draws the route
  display. With a missing or empty origin it draws nothing. The route display
  has the two markers (origin first), the path (one `[x, y]` point per route
  node, named `orig.split(",")[0] + " - " + dest.split(",")[0]`) and the
  accident layer. Every map is 720 pixels high. The outside services are the
  fields of a `World` value: the device location, the geocoder, the merged
  graph's nodes table, the shortest route, pydeck's view fitting and the
  loaded accident table.
- **Accident selector** (module `Accidents`). The box is the min/max of `y`
  and `x` over all nodes of the merged graph. The box is not built from the
  route's nodes alone. The boolean mask keeps, in table order, the records
  whose `(Start_Lat, Start_Lng)` lies in the box, bounds included. A record
  with a missing coordinate compares false and is never kept. The
  `Coordinates` column is filled by the loop `AttachCoordinates` as
  `[Start_Lng, Start_Lat]`. The rows are then projected onto the seven
  display columns, and missing values become `"Not Available"`.
- **Geocoding query** (module `Geocoding`). The address is encoded by
  `address.replace(" ", "+")` and placed in the request URL.

A few behaviours of the code are worth stating, and the model keeps them:

- The accident box is taken over all nodes of the merged graph, not over the
  route's nodes.
- A missing route (networkx raises) is not recovered from. The model requires
  a route (`RouteFound`) instead of drawing the markers alone.
- No zoom adjustment is applied to the fitted view.
- The code has no named error kinds and no caching policy beyond `st.cache`.

## Model

| member | source | states |
|---|---|---|
| `Strings.Split` | app.py:43 | `s.split(sep)` always has at least one piece; the pieces are pinned down, for any separator, by `SplitLeftmost` and `SplitNoMatch` |
| `Strings.SplitLeftmost` | app.py:43 | `s.split(sep)` cuts at the leftmost occurrence of `sep`, at `i`: the first piece is `s[:i]`, the rest are the pieces of the text after that occurrence |
| `Strings.SplitNoMatch` | app.py:43 | a text without `sep` splits into itself alone |
| `Strings.SplitJoin` | app.py:43 | joining the pieces of `s.split(sep)` with `sep` gives back `s` |
| `Strings.SplitPartsFree` | app.py:43 | no piece of `s.split(sep)` contains `sep` |
| `Strings.ParseInt` | app.py:47 | `int(token)` in base 10, `None` where Python raises `ValueError`; fully characterised by `ParseIntForms` (which tokens are accepted and their value) and `ParseIntAccepted` (no other token is) |
| `Strings.ParseIntForms` | app.py:47 | white space, an optional `+` or `-`, digits with single underscores between them, white space: `int()` reads such a token as the digits' signed value |
| `Strings.ParseIntAccepted` | app.py:47 | every token `int()` accepts is of that shape: leading white space, an optional sign, a digit group, trailing white space |
| `Strings.ParseIntAcceptsExamples` | app.py:47 | `int()` reads `"+5"` as 5, `"007"` as 7 and `"1_0"` as 10 |
| `Strings.ParseIntRefusesExamples` | app.py:47 | `int()` raises on `"5-"`, `"--5"`, `"-"`, `"1__0"` and `"1_"`, though it allows each of their characters |
| `Strings.SplitFromAppend` | app.py:43-45 | splitting on a one-character separator works piece by piece: the pieces of `a + c + b` are those of `a`, then those of `b` |
| `Strings.ParseIntRoundTrip` | app.py:47 | `int(str(n)) == n` for every integer `n`, negative ones included |
| `Strings.ParseIntPadded` | app.py:47 | `int()` reads `str(n)` surrounded by any run of space, tab, line feed, vertical tab, form feed and carriage return as `n` |
| `Strings.SeparatorRefused` | app.py:47 | a token holding one of the characters U+001C to U+001F anywhere makes `int()` raise (`None`): they are not white space to it |
| `Strings.ParseIntRefuses` | app.py:47 | `int()` raises (`None`) on a token with a character that is not a digit, sign, underscore or white space, such as a colon |
| `WifiScan.ScanLines` | app.py:43 | the lines are the pieces strictly between the first and the last `\n` piece, in order; none if there are fewer than two pieces |
| `WifiScan.ScanLinesHaveNoBreak` | app.py:43 | no scan line contains the `\n` pair |
| `WifiScan.Tokens` | app.py:45 | the non-empty pieces of `line.split(" ")`; characterised by `TokensAppend`, `WordTokens`, `TokensAreWords` and `TokensCoverLine` |
| `WifiScan.TokensAppend` | app.py:45 | a space separates tokens: the tokens of `a + " " + b` are those of `a`, then those of `b` |
| `WifiScan.WordTokens` | app.py:45 | a run without spaces is exactly one token, or none when empty; with `TokensAppend` every token is a whole maximal run of non-space characters |
| `WifiScan.TokensAreWords` | app.py:45 | every token of a line is non-empty and free of spaces |
| `WifiScan.TokensCoverLine` | app.py:45 | the tokens, one after another, are exactly the non-space characters of the line |
| `WifiScan.ParseLine` | app.py:45-48 | one scan line read as an access point, or the error Python raises; characterised by `ParseLineWithoutBssid` and `ParseLineAt` |
| `WifiScan.ColonWord` | app.py:46 | a line holds a colon exactly when some token is its first token with a colon |
| `WifiScan.ParseLineWithoutBssid` | app.py:46 | a line fails with `NoBssid` (IndexError) exactly when none of its tokens contains `:` |
| `WifiScan.ParseLineAt` | app.py:46-47 | when token `k` is the first with a colon, the line reads as that token and `int()` of token `k + 1`; it fails with `NoStrength` if there is no token `k + 1` and with `NotAnInteger` if `int()` refuses it |
| `WifiScan.GetMacAps` | app.py:42-50 | success gives one access point per scan line, in order, each what its line reads as; failure carries the error of the first line that does not read, all earlier lines reading |
| `WifiScan.ScanRow` | app.py:43-48 | a row `SSID BSSID RSSI ...` reads as that BSSID and RSSI whenever the SSID column has no colon; the SSID may be empty, padded or hold spaces; the BSSID is one word with a colon |
| `WifiScan.ScanRowColonInSsid` | app.py:46-47 | when SSID word `k` is the first with a colon, that word is read as the BSSID; if it is the SSID's last word the line fails with `NotAnInteger` on the real BSSID, otherwise the next SSID word is given to `int()`, so the line fails on it or reads a wrong access point |
| `Graph.NodeAt` | app.py:187 | `nodes.loc[id]` is a row of the table carrying `id` |
| `Graph.NodeAtIsTheRow` | app.py:187 | with unique ids, `nodes.loc[id]` is the one row carrying `id` |
| `Graph.Polyline` | app.py:187 | the path has one point per route node, in route order, each the `[x, y]` of a row carrying that node's id |
| `Graph.PolylineRows` | app.py:187 | with one row per node id, each point of the path is the `[x, y]` of exactly the row whose id is that route node |
| `Accidents.Min` | app.py:204 | `min` is an element of the column and no larger than any element |
| `Accidents.Max` | app.py:205 | `max` is an element of the column and no smaller than any element |
| `Accidents.BoundingBox` | app.py:204-207 | every node of the graph lies in the box, and each of the four bounds is reached by some node |
| `Accidents.Mask` | app.py:209-210 | one flag per record; which records are flagged is stated by `SelectMembers` |
| `Accidents.Loc` | app.py:212 | `.loc[mask]` keeps only records of the table, never more than it has; `SelectMembers` and `SelectAppend` state which and in what order |
| `Accidents.Select` | app.py:209-212 | the mask and `.loc` together; characterised by `SelectMembers`, `SelectAppend`, `SelectIdempotent` and `SelectInside` |
| `Accidents.SelectMembers` | app.py:209-212 | a record is kept iff it is in the table and both its coordinates are present and within the box, bounds included |
| `Accidents.SelectAppend` | app.py:209-212 | selection keeps table order: selecting from `xs + ys` is selecting from `xs`, then from `ys` |
| `Accidents.SelectIdempotent` | app.py:209-212 | applying the filter again with the same box changes nothing |
| `Accidents.SelectInside` | app.py:209-212 | every kept record has both coordinates, inside the box |
| `Accidents.SelectExample` | app.py:209-212 | with box 34.0..34.1 by -118.3..-118.2, a record at (34.05, -118.25) is kept and one at (35.0, -119.0) is dropped |
| `Accidents.AttachCoordinates` | app.py:214-217 | the loop gives each selected row the list `[Start_Lng, Start_Lat]`, in that order |
| `Accidents.ShownRows` | app.py:203-221 | one displayed row per selected record, in table order; its `Coordinates` is `[Start_Lng, Start_Lat]` inside the box; every other column is the record's value, or `"Not Available"` exactly where the value is missing |
| `Accidents.Display` | app.py:219-221 | one record projected onto the seven shown columns with missing values replaced; stated per row by `ShownRows` |
| `Accidents.ShownAccidents` | app.py:203-221 | the accident table as the route page shows it; characterised by `ShownRows` |
| `Accidents.RelevantAccidents` | app.py:203-221 | the steps as the code runs them (box, mask, the Coordinates loop, projection, replacement) give the rows of `ShownAccidents` |
| `Geocoding.Replace` | app.py:79 | `s.replace(c, d)` for one character: same length, each `c` becomes `d` and every other character is unchanged |
| `Geocoding.PlusEncode` | app.py:79 | the result has the address's length; each space becomes `+` and every other character is unchanged |
| `Geocoding.PlusEncodeClean` | app.py:79 | the encoded address holds no space, and encoding it again changes nothing |
| `Geocoding.GeocodeUrl` | app.py:79-80 | the URL is the geocode endpoint, then exactly the `+`-encoded address (no spaces left), then `&key=` and the key |
| `Geocoding.PlusRoundTrip` | app.py:79 | reading each `+` back as a space gives the address again exactly when the address has no `+` of its own |
| `Dispatch.ModeOf` | app.py:120-156 | which branch of the `if`/`elif` chain runs; characterised by `ModeCases` |
| `Dispatch.ModeCases` | app.py:120-156 | the route branch runs iff both inputs are non-empty and the origin is not `"{Current Location}"`; the single-address branch iff the origin is such a text and the destination is missing or empty; nothing is drawn iff the origin is missing or empty |
| `Dispatch.FirstPart` | app.py:188 | `s.split(",")[0]` is a prefix of `s` without commas, either all of `s` or followed in `s` by a comma |
| `Dispatch.PathName` | app.py:188 | the path's name, `FirstPart(orig) + " - " + FirstPart(dest)`; each part is stated by `FirstPart` |
| `Dispatch.RoutePage` | app.py:157-201 | the route display; characterised by `RoutePageContents` |
| `Dispatch.Dispatch` | app.py:120-156 | nothing is drawn exactly for a missing or empty origin; current location gives the device position at zoom 17, height 720, no layers; one address gives its geocoded position at zoom 17, height 720, one blue marker there; two addresses give the route display |
| `Dispatch.RoutePageContents` | app.py:157-201 | the route display's view is the view fitted to the route's `[x, y]` points with only the height set to 720; it has three layers: blue origin marker then red destination marker at the geocoded addresses; a path of one `[x, y]` point per route node, named after both addresses' first comma parts, every point inside the accident box and equal to the `[x, y]` of the node row whose id is that route node; the selected accidents |

## Left out

- The `airport -s` process call and the `platform.platform()` check (app.py:40-41, 61) are process and OS I/O. Only the text parsing is modelled.
- `get_current_location` and `get_location_coordinates` (app.py:54-83) are left out apart from the address encoding and URL. The JSON request body, the HTTP calls, the JSON decoding and the `LOCATION_KEY` lookup are network and environment I/O. Their results enter as `World.here` and `World.geocode`.
- `load_accidents_data` (`pd.read_csv`, app.py:86-88) is file I/O. The table enters as `World.accidents`. Only the eight columns the page reads are modelled.
- `st.cache`, the page layout and widgets, and `create_map` with the pydeck layer styling (app.py:30-36, 93-118, 145-152, 178-185, 192-201, 223-244) are the drawing layer. This covers pin images and sizes, colours, widths, radii and the tooltip text. Layers are kept only as their data.
- `ox.graph_from_address`, `nx.compose`, `ox.graph_to_gdfs`, `ox.get_nearest_node` and `nx.shortest_path` (app.py:157-169) are library algorithms over a downloaded graph. Their results enter as `World.nodes` and `World.route`.
- `Dispatch.Dispatch`: networkx raising when no path exists is not modelled. In the route branch the model requires a non-empty route through the graph's nodes, and a node table with one row per id (`RouteFound`).
- `pdk.data_utils.compute_view` (app.py:171) is a library zoom derivation on floats. It enters as `World.fitView`, applied to the route's `[x, y]` points. Only the height is then set by the code.
- Coordinates are `real`. Floating-point rounding is not modelled, and neither is NaN in graph node coordinates. A missing accident cell, NaN coordinates included, is `None`.
- `Strings.ParseInt`: only ASCII characters are modelled: the six ASCII white-space characters are skipped and the ASCII digits read. The Unicode white space and digits `int()` also accepts are not modelled, since the text of `str(bytes)` is ASCII. The maximum digit count of newer Python versions is not modelled.
- `Accidents.AttachCoordinates` requires both coordinates of every row. That holds for every row the mask keeps, and those are the only rows the loop runs over.
- In pandas a `Severity` column with missing values is stored as floats. The model keeps it as an integer column.
- `orig` and `dest` are `Option<string>`, because the code tests them against `None`. The text widgets always return strings.
