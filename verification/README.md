# EEG map: markers, coordinate search and municipality shares

The EEG map is a single-page React application (`src/App.jsx`). The user
places wind-turbine markers on a map of Germany, each with a radius. For the
active marker, the page draws a circle of that radius and intersects it with
every municipality (Gemeinde) of a GeoJSON file. It then lists, for each
municipality the circle touches, the overlap area, the municipality's total
area and its share of the summed overlap in percent.

This project models three parts of that file in Dafny and proves properties
about them:

- **`Coordinates`** (`coordinates.dfy`) models the coordinate recogniser of
  the search box. This is the unanchored pattern
  `\s*(-?\d+(\.\d+)?)\s*,\s*(-?\d+(\.\d+)?)` that `handleSuche` runs before
  it falls back to the address search. The pattern is modelled as a greedy
  attempt at every start position, taken from the left. It is proved equal
  to the declarative reading: the leftmost match, and at that start the
  longest one. The two capture groups are modelled as exact decimal
  literals, and a group's characters are exactly the ones its literal
  covers.
- **`Markers`** (`markers.dfy`) models the page state: `points`, `radius`,
  `suchbegriff`, `activeIndex` and `analyse`. It also models its handlers
  as transitions: map click, search, `removeMarker`, `updateMarkerCoords`,
  `updateMarkerName`, `handleMarkerClick`, and the radius and search inputs.
  The proofs cover what each handler changes and leaves alone, how the
  active index follows a removal, and that every sequence of events the
  page can raise keeps the active index unset or pointing at a marker.
- **`Analysis`** (`analysis.dfy`) models `startAnalyse`. The circle around
  the point, the per-municipality `try`/`catch` loop and the share
  computation are modelled. The geometry library is left abstract: the
  model is given what intersecting with the circle yields for each
  municipality and the area of each municipality. Areas and shares are
  exact reals. With a non-zero summed overlap, the shares add up to exactly
  100, the figure the table's total row prints. The shares are proportional
  to the overlap areas, and each share lies between 0 and 100.

`Wrappers` (`wrappers.dfy`) holds `Option`, and `Points` (`points.dfy`)
holds the marker record `{ latlng, radius, name }`.

In these cases the code does something a reader might not expect, and the
model follows the code:

- **No re-analysis on adding a marker.** A new marker becomes active on a
  map click or a search, but the table is not recomputed: it keeps showing
  the previous analysis until the marker is clicked or moved.
- **Radius changes.** The radius input only sets the radius of markers
  added later. No existing marker is resized, and no analysis runs.
- **Zero overlap.** Nothing guards against a zero summed overlap, so every
  share is then a division by zero (`Share.Undefined`). The table is not
  emptied.
- **No municipalities.** Without municipalities, `startAnalyse` returns
  early and the previous table stays.
- **No radius check.** Any radius is passed on to the geometry library.

## Model

| member | source | states |
|---|---|---|
| Coordinates.ClassesApart | src/App.jsx:85 | `\d` is exactly the ten ASCII digits, and no character of ECMAScript's `\s` is a digit, a comma, a minus or a point |
| Coordinates.Run | src/App.jsx:85 | a greedy `\d+` or `\s*` consumes only characters of its class and stops at the end or at the first character outside it |
| Coordinates.RunMaximal | src/App.jsx:85 | no run of class characters at a position is longer than the greedy one |
| Coordinates.RunExact | src/App.jsx:85 | a run of class characters followed by the end or a non-class character is exactly the greedy run |
| Coordinates.Number | src/App.jsx:85 | the greedy `-?\d+(\.\d+)?` succeeds exactly when digits follow the optional minus sign, and what it reads is a literal of the pattern |
| Coordinates.NumberGreedy | src/App.jsx:85 | the greedy literal is at least as wide as any literal at that position, and is that literal when it ends at a boundary or has the same width |
| Coordinates.LiteralStart | src/App.jsx:85 | a literal starts with `-` exactly when it is negative, and otherwise with a digit |
| Coordinates.MatchAt | src/App.jsx:85 | the greedy attempt at a position, when it succeeds, is a match of the pattern starting there |
| Coordinates.MatchAfter | src/App.jsx:85 | the rest of an attempt, when it succeeds, spells gap, comma, padding and second literal and keeps the start, lead and first literal |
| Coordinates.MatchAtComplete | src/App.jsx:85 | every match at a start is found by the greedy attempt there, with the same first literal and at least the same extent, and is that attempt when the extents agree |
| Coordinates.FindFrom | src/App.jsx:85 | the search from a position returns only matches of the pattern that start at or after it |
| Coordinates.FindLeftmost | src/App.jsx:85 | the search finds a match whenever one exists, and none starts before it or at its start reaches further |
| Coordinates.FindBefore | src/App.jsx:85 | the search from further left succeeds whenever a search further right does, and either starts strictly before it or returns the same match |
| Coordinates.FindFromStep | src/App.jsx:85 | the search either succeeds at its starting position or is the search from the next position |
| Coordinates.Value | src/App.jsx:87-88 | the value of a literal has its sign, and its magnitude lies between the integer digits' value and that value plus one |
| Coordinates.DigitsBound | src/App.jsx:87-88 | helper for `Value`: `n` decimal digits denote a number below `10^n` |
| Coordinates.NoFraction | src/App.jsx:87-88 | a literal without fraction digits has the value of its integer digits, with its sign |
| Coordinates.SignNegates | src/App.jsx:87-88 | a leading minus negates the value of the digits after it |
| Coordinates.FractionDigit | src/App.jsx:87-88 | each further fraction digit `c` in place `k` adds `c / 10^k` to the magnitude, so with `NoFraction` the value of every literal is fixed digit by digit |
| Coordinates.RatioDigit | src/App.jsx:87-88 | helper for `FractionDigit`: appending a digit to the numerator of the fraction part, with the denominator scaled by ten, adds that digit's tenths of the old unit |
| Coordinates.TrailingZero | src/App.jsx:87-88 | a zero appended to the fraction digits leaves the value `parseFloat` reads unchanged (`1.50` and `1.5` are one number) |
| Coordinates.RatioScale | src/App.jsx:87-88 | helper for `TrailingZero`: scaling numerator and denominator of the fraction part by ten keeps its value |
| Coordinates.Capture | src/App.jsx:87-88 | a capture group is a well-formed decimal with the literal's sign and digit counts |
| Coordinates.Captures | src/App.jsx:85-88 | groups 1 and 3 of a match are well-formed decimals whose text is exactly the query characters of the first and the second literal |
| Coordinates.CaptureText | src/App.jsx:87-88 | a capture group's text is exactly the characters of the query its literal covers |
| Coordinates.Recognise | src/App.jsx:85-88 | both coordinates read from a recognised query are well-formed decimal literals |
| Coordinates.RecogniseIffMatch | src/App.jsx:85-86 | a query is read as coordinates exactly when some part of it matches the pattern |
| Coordinates.RecogniseFirstMatch | src/App.jsx:85-88 | the coordinates read are the capture groups of the leftmost, longest match |
| Coordinates.RecogniseHasFirstMatch | src/App.jsx:85-88 | whatever is recognised comes from a first match of the pattern |
| Coordinates.RecogniseEmbedded | src/App.jsx:85-86 | text around a recognised query never stops it being recognised |
| Coordinates.MatchShift | src/App.jsx:85 | a match inside a text is a match, shifted, inside any text around it |
| Analysis.CircleAround | src/App.jsx:119-123 | the circle is centred on the point, in longitude-first order, with the radius converted from metres to kilometres and 64 steps |
| Analysis.DisplayName | src/App.jsx:132 | for a feature whose `properties` are not `null`, the row name is `GEN` when it is present and non-empty, and `name` otherwise |
| Analysis.Entry | src/App.jsx:126-140 | a municipality contributes one entry exactly when its intersection is a region and its `properties` are not `null`, with its name, the overlap area and its total area; none when the intersection throws or is empty, or the name read throws |
| Analysis.Collect | src/App.jsx:125-141 | the loop yields at most one entry per municipality |
| Analysis.CollectAppend | src/App.jsx:125-141 | the entries of consecutive municipalities are the entries of each, in file order |
| Analysis.CollectSkips | src/App.jsx:126-140 | a municipality whose intersection throws or is empty, or whose name read throws, leaves the other entries unchanged |
| Analysis.CollectMembers | src/App.jsx:125-141 | an entry is in the list exactly when some municipality's intersection is a region, its `properties` are not `null`, and the entry carries that municipality's name and areas |
| Analysis.CollectLoop | src/App.jsx:124-141 | the `forEach` loop with its `try`/`catch` pushes exactly the entries of the recursive definition |
| Analysis.ShareOf | src/App.jsx:147 | a share is undefined exactly when the total is zero, and otherwise times the total gives the part times 100 |
| Analysis.Scale | src/App.jsx:143-148 | the `map` gives one row per entry; `ScaleRow` states what each row holds |
| Analysis.Finalize | src/App.jsx:142-148 | the table has one row per entry |
| Analysis.ScaleRow | src/App.jsx:143-148 | row `k` keeps entry `k`'s name and areas and holds entry `k`'s share of the total |
| Analysis.ScaleSum | src/App.jsx:142-148 | with a non-zero total, the shares times the total add up to the summed parts times 100 |
| Analysis.SharesSumTo100 | src/App.jsx:142-148 | with a non-zero summed overlap, the shares add up to exactly 100 |
| Analysis.SharesUndefined | src/App.jsx:142-147 | with a zero summed overlap, every share is a division by zero |
| Analysis.SharesProportional | src/App.jsx:147 | any two rows' shares stand in the ratio of their overlap areas |
| Analysis.TotalBounds | src/App.jsx:142 | with non-negative overlap areas, the summed overlap is non-negative and at least each part |
| Analysis.ShareBounds | src/App.jsx:142-147 | with non-negative areas and a non-zero sum, every share lies between 0 and 100 |
| Analysis.StartAnalyse | src/App.jsx:117-149 | the analysis does nothing exactly when there are no municipalities or no point, and otherwise yields at most one row per municipality |
| Analysis.Reanalyse | src/App.jsx:117-149 | when the analysis does nothing, the table stays as it was |
| Analysis.AnalyseRows | src/App.jsx:117-149 | a row is in the new table exactly when the circle overlaps some municipality whose `properties` are not `null`, with that municipality's name, overlap area, total area and share of the summed overlap |
| Markers.Initial | src/App.jsx:29-34 | the page starts with no markers, a radius of 2500 m and no active marker |
| Markers.PointAt | src/App.jsx:80 | `points[index]` is a marker exactly when the index is in range |
| Markers.AddPoint | src/App.jsx:44-47 | a new marker with the current radius and no name is appended and made active, and nothing else changes |
| Markers.MapClick | src/App.jsx:44-47 | a map click appends exactly one marker, at the clicked position with the current radius and an empty name, keeps every earlier marker, the table, the radius and the query, and makes the new marker the active one |
| Markers.Search | src/App.jsx:83-112 | an empty query changes nothing, and any other query adds at most one marker and leaves the table alone |
| Markers.SearchPrefersCoordinates | src/App.jsx:85-96 | a query with coordinates in it adds a marker whatever the address search would return |
| Markers.SearchReadsFirstMatch | src/App.jsx:85-91 | the added marker is at the values of the first match's two capture groups |
| Markers.KeepFrom | src/App.jsx:50 | the `filter` from position `i` on keeps at most the points from `i` on; `KeepFromDrops` states which |
| Markers.KeepFromDrops | src/App.jsx:50 | the filter drops exactly the point at the index, when there is one, and keeps the others in order |
| Markers.RemoveMarker | src/App.jsx:49-58 | removing the active marker clears the active index and the table, removing another keeps the table, and with no active marker none becomes active |
| Markers.RemoveDeletes | src/App.jsx:50-51 | removing an index in range deletes exactly that marker |
| Markers.RemoveOutside | src/App.jsx:50-51 | removing an index outside the list keeps every marker |
| Markers.RemoveKeepsActive | src/App.jsx:52-57 | after removing another marker, the active index moves down by one exactly when it was above the removed index and is otherwise unchanged, so it still designates the same marker |
| Markers.RemoveValid | src/App.jsx:49-58 | removing at a non-negative index keeps the active index unset or in range |
| Markers.RemoveNegativeBreaksActive | src/App.jsx:55-56 | a negative index moves an active first marker to -1, which designates nothing |
| Markers.AddThenRemove | src/App.jsx:44-58 | removing the marker just added restores the markers and leaves no active marker and no table |
| Markers.UpdateCoords | src/App.jsx:65-70 | only the moved marker's position changes; the table is kept unless that marker is active, and for the active marker it is kept while no municipalities are loaded and otherwise becomes the analysis of the new position |
| Markers.MoveActiveReanalyses | src/App.jsx:69 | moving the active marker replaces the table with the analysis of its new position |
| Markers.UpdateName | src/App.jsx:72-76 | only that marker's name changes, and no analysis runs |
| Markers.RenameLastWins | src/App.jsx:72-76 | renaming twice is renaming once to the last name, and renaming to the current name changes nothing |
| Markers.MoveRenameCommute | src/App.jsx:65-76 | moving and renaming a marker commute, whether it is active or not |
| Markers.MarkerClick | src/App.jsx:78-81 | the clicked index becomes active, and the table becomes the analysis of that marker when there is one and municipalities are loaded |
| Markers.SetRadius | src/App.jsx:180 | the radius input changes the radius and nothing else |
| Markers.RadiusAppliesToNewMarkers | src/App.jsx:45 | a marker added after a radius change has the new radius, and the earlier markers are unchanged |
| Markers.SetQuery | src/App.jsx:186 | the search input changes the query and nothing else |
| Markers.Step | src/App.jsx:44-81 | renaming, moving, clicking and typing keep the number of markers |
| Markers.StepValid | src/App.jsx:44-81 | every handler keeps the active index unset or designating a marker |
| Markers.ReplayValid | src/App.jsx:214-273 | after any sequence of events the page can raise, the active index is unset or designates a marker |

## Left out

- The geometry of `turf.circle`, `turf.intersect` and `turf.area` is not modelled. Each is a parameter. `turf.area` of a municipality is assumed not to throw, because the model only sees one outcome of the geometry per municipality. A feature whose `properties` are `null` is modelled: the name read throws inside the `try` and the municipality is skipped.
- Floating point is not modelled. Areas and shares are exact reals.
- `parseFloat` of the capture groups is not modelled. The model reads the exact decimal value, not the nearest double.
- `Math.round` of the areas, `toFixed(2)` of the share, and `toLocaleString` in the table are not modelled, because they only format the figures.
- The total row's overlap sum (`summeSchnitt`, a sum of rounded areas) is not modelled, for the same reason.
- Loading the GeoJSON file with `fetch` is not modelled. The municipalities are a parameter.
- The address lookup on nominatim.openstreetmap.org is not modelled. Its first result is a parameter of `Markers.Search`.
- Recentring the map with `setTimeout` and `setView` is not modelled, because it does not touch the page state.
- `handlePDF` is not modelled.
- Rendering, `formatNumber` and the marker tooltips are not modelled.
- `handleMarkerDrag` is only read as a caller of `updateMarkerCoords`.
- React's asynchronous, batched state updates are not modelled. Each handler is one atomic transition that reads the state it was rendered with, and `handleSuche`'s awaited lookup is taken as completing before any other event.
- The aliasing created by the shallow copy in `updateMarkerCoords` and `updateMarkerName` is not modelled. They write through `updated[index]` into the same point object the old array holds. The model uses immutable values, which give the same new state.
- Markers.UpdateCoords and Markers.UpdateName require the index to designate a marker. For any other index, the property assignment through `updated[index]` throws a `TypeError`, and the page only passes indices of existing markers.
