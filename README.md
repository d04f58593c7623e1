# HDB MOP data pipeline — Dafny model of the `utils.py` logic

The pipeline downloads Singapore HDB property information from the data.gov.sg
dataset API, keeps residential blocks with flats sold, decodes town codes from
the dataset metadata, geocodes each block's address through the OneMap search
API, and tags each block with the name of the building-complex polygon that
contains it. This project models the self-contained decision logic of
`utils.py`, with every HTTP answer, file-existence test and polygon-containment
test taken as an input:

- `Common` — `Option`, `Result` and the three exceptions the code lets
  propagate (`HTTPError` with status code and body, `IndexError`, `KeyError`).
- `Text` — Python's `str.split(sep)` and `str.rsplit(" ", 1)`, each with its
  join-back property.
- `Http` — `check_response`.
- `Geocoder` — the result selection of `get_latlon`.
- `NameLookup` — `find_name_for_point`, with containment as a parameter.
- `DatasetPoller` — the initiate request and the wait-until-ready poll loop of
  `download_hdb_property_info`, over a scripted sequence of poll answers.
- `PropertyInfo` — the residency / units-sold row filter and the derived address.
- `TownCodes` — the town-key lookup in the metadata and the town-code
  description parser.
- `CacheGate` — the per-file skip logic of `download_data`.

The imperative parts of the source (the poll loop, the `town_pairs` append
loop, the early-return scan of `find_name_for_point`) are methods with loops
proved against declarative contracts; the expression-level parts are functions.

The town-code parser follows the code: the first segment of the split
description must itself contain a space, because the code of pair 0 is the
last word of segment 0. A description such as `Area1 - T1 Area2 - T2 Area3`
(one-word first segment) therefore ends in an `IndexError`, not in the pairs
`(T1, Area2), (T2, Area3)`. The description text itself does not appear in
the code; the code only succeeds on descriptions whose first segment contains
a space, its last word being the first code.

## Model

| member | source | states |
|---|---|---|
| Text.Split | utils.py:203 | `split(" - ")` yields at least one segment, joining the segments with the separator gives back the input, no segment contains the separator, each cut is at the leftmost remaining occurrence (no piece followed by its separator holds an earlier, possibly overlapping, occurrence), and the input itself is the only segment exactly when it has no separator |
| Text.RSplitSpace | utils.py:205 | `rsplit(" ", 1)` yields the whole string exactly when it has no space; otherwise two parts, the second without a space, that rejoin with one space into the input |
| Http.CheckResponse | utils.py:25-30 | succeeds exactly on status 200 with the parsed payload; otherwise fails with an HTTP error carrying the status code and the body text |
| Geocoder.GetLatLon | utils.py:71-81 | an HTTP failure propagates; `found == 0` gives `(None, None)`; otherwise the top hit's latitude then longitude; `found != 0` with no hits fails with an index error; the two coordinates are both present or both absent |
| NameLookup.FirstContaining | utils.py:84-93 | answers `None` exactly when no geometry contains the point; an answer is the name of an entry whose geometry contains the point with no earlier entry containing it |
| NameLookup.FindNameForPoint | utils.py:84-93 | the in-order scan with early return computes the first-containing name of the point `(lon, lat)` |
| NameLookup.FirstContainingAt | utils.py:90-93 | conversely, the first entry whose geometry contains the point is the one whose name is returned |
| NameLookup.ExclusiveContainment | utils.py:90-93 | when exactly one geometry contains the point, its name is returned whatever the mapping order |
| NameLookup.SinglePolygon | utils.py:89-93 | with one polygon, its name is returned exactly when it contains the point |
| DatasetPoller.AwaitDownloadUrl | utils.py:126-165 | one initiate request then only poll requests, all projecting the same ten columns and filtering on `year_completed == year - 5` (utils.py:116, 148); the URL returned is that of the first answer with status `DOWNLOAD_SUCCESS`, after exactly that many polls; no URL exactly when no answer succeeds |
| PropertyInfo.FilterRows | utils.py:175-183 | the result is an order-preserving subsequence of the input, so no longer than it, and every row in it is residential `"Y"` with a positive 2-, 3-, 4- or 5-room sold count |
| PropertyInfo.FilterContents | utils.py:175-183 | a row is in the result exactly when it is in the input and the mask accepts it, and each accepted row keeps its multiplicity |
| PropertyInfo.FilterIdempotent | utils.py:175-183 | filtering an already filtered table changes nothing |
| PropertyInfo.FilterAppend | utils.py:175-183 | the mask is row-wise: filtering a concatenation is the concatenation of the filtered parts |
| PropertyInfo.AddressRoundTrip | utils.py:212 | the address built by `Address` as `blk_no + " " + street` splits back at its first space into block number and street when the block number has no space |
| TownCodes.FindTownKey | utils.py:194-196 | the first key, in mapping order, labelled `bldg_contract_town`; `None` exactly when no key has that label |
| TownCodes.TownDescription | utils.py:193-200 | an HTTP failure propagates; it succeeds exactly when the status is 200, a town key exists and both subscripts `metaMapping[key]` and `["description"]` exist, and then yields that description; every other 200 response (no town key, or a missing subscript) gives a key error |
| TownCodes.PairSegments | utils.py:202-205 | one pair per segment but the last; pair `i` holds the last word of segment `i` (space-free) and segment `i + 1` without its last word; fails with an index error exactly when some non-final segment has no space |
| TownCodes.ParseTownPairs | utils.py:202-205 | on the `" - "` split of the description: `len(segments) - 1` pairs as above, an index error exactly when a non-final segment has no space, and no pairs when the description has no `" - "` |
| CacheGate.DownloadPlan | utils.py:250-264 | each download runs exactly when its file is absent, property info before name info, nothing when both exist |
| CacheGate.GateIdempotent | utils.py:256-264 | after a run both files exist and a second run downloads nothing |

## Left out

- HTTP traffic (`requests.get/post`), the bearer-token header and URL building: responses are inputs.
- `get_token` (utils.py:33-53): environment and `.env` loading plus one HTTP request; no logic of its own beyond `check_response`.
- `time.sleep(2)` and every `print`: timing and console output.
- The initiate response's `message` field: it is only printed.
- Polygon containment (shapely `Point` / `Polygon.contains`): floating-point geometry in a foreign library, modelled as an arbitrary containment test.
- pandas: `read_csv`, the `astype(int)` coercion of the sold counts (rows carry integers already), the left join of town pairs onto rows, the per-row geocoding `apply`, `to_csv`.
- JSON parsing: `response.json()` failing on a non-JSON body, and `KeyError`s on the nested JSON paths other than the town-key and description lookups; payloads are typed records.
- `download_hdb_name_info` (utils.py:223-247): two HTTP requests (the poll at line 231 and the feature download at line 238), a dictionary comprehension over the features, a JSON file write and `exit(1)` on a non-zero code.
- main.py is not part of this model: argument parsing, file loading, polygon building and the per-row name resolution over I/O.
- File names and `Path.exists`: the cache gate takes the two existence tests as booleans.
- DatasetPoller.AwaitDownloadUrl: the source polls forever when no answer succeeds; the model stops with `None` once the scripted answers are used up, so divergence appears only as "no URL exactly when no answer succeeds".
- CacheGate.DownloadPlan: assumes the property-info acquisition returns; an exception raised inside `download_hdb_property_info` (utils.py:259) ends `download_data` before the name-info gate runs, so the name-info download then does not happen even when its file is absent.
