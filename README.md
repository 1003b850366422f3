# metra-led-map: the position-to-LED engine

This project models the part of `led-view.js` that turns the reported
positions of Metra trains into LEDs to light on a physical strip map of the
UP-NW line, and proves properties of that model in Dafny.

- **Geometry builder** (`Geometry`): each spur of a line is a list of surveyed
  waypoints. Every consecutive pair of waypoints becomes one segment holding
  `numLEDs` LEDs. The first LED is the previous waypoint plus an offset
  delta. Every later LED is the LED before it plus a per-LED delta. Each LED
  carries its geohash and the geohashes of its 8 neighbouring cells.
- **Spur position** (`SpurPosition`): `getSpurLedCount` turns (spur, segment,
  LED) into a 1-based position along the whole spur.
- **Matcher** (`Matcher`):
  - An LED is a candidate when the train's geohash is the LED's cell or one of
    its 8 neighbours (the "nine-box").
  - A single exact-cell candidate is returned at once.
  - Otherwise the closest candidate wins, and ties go to the first one found.
    With no exact match every candidate is ranked; with two or more, only the
    exact matches are.
  - `processFetchedLineData` applies this to every train of a line, in feed order.
- **Output builders** (`Display`): the `{position, color}` list posted to the
  LED controller, and the two text rows of the strip simulation.

Modelling choices:

- Coordinates are whole micro-degrees (`int`), so LED coordinates accumulate exactly.
- The geohash library's `encode` (at the fixed configured precision) and
  `neighbours`, and `geolib.getDistance`, are function-valued parameters. The
  distance is in whole metres (`nat`).
- The module-level `linesObject` is passed in as a value (`Line`, a sequence
  of spurs). `ledsToLight` is the returned list.
- `null`/`undefined` results and train lists are `Option.None`.
- The loops of the source are `while` loops in methods. Each method is proved
  equal to a recursive specification function that follows its loop, or to a
  closed-form description of its result. The properties the source relies on
  are lemmas about those functions.

The model follows the code as written, in particular:

- With two or more exact-cell matches, the code ranks only those exact
  matches by distance, not all nine-box candidates (`led-view.js:421-426`).
- Spur positions are 1-based (`led-view.js:476`).
- A waypoint with a missing or non-numeric LED count is not rejected. The
  `ledIndex < numLEDs` loop simply never runs, so it yields a segment with no
  LEDs (`Geometry.LedCount`).

## Model

| member | source | states |
|---|---|---|
| `Geometry.SegmentLeds` | led-view.js:199-216 | the LED list of a segment built LED by LED has exactly the requested length |
| `Geometry.SegmentLedsClosedForm` | led-view.js:199-214 | LED i of a segment lies at previous waypoint + offset delta + i × per-LED delta, and its geohash and neighbours are those of that coordinate |
| `Geometry.BuiltSegmentShape` | led-view.js:195-221 | waypoint k ≥ 1 yields segment k-1, with the waypoint's segment id, exactly its LED count and the closed-form coordinates; n waypoints give n-1 segments |
| `Geometry.BuildSpur` | led-view.js:193-222 | the builder's loop produces, for every waypoint after the first, the segment that waypoint and its predecessor define; waypoint 0 yields none |
| `Geometry.BuildLine` | led-view.js:190-228 | one built spur per waypoint list, in order, each built as `BuildSpur` states |
| `SpurPosition.GetSpurLedCount` | led-view.js:469-478 | the loop's result is the number of LEDs in the segments before `segment`, plus `led + 1`, and is at least 1 |
| `SpurPosition.LedsBeforeMonotone` | led-view.js:473-475 | counting the LEDs of more leading segments never gives fewer |
| `SpurPosition.SpurLedIncreasing` | led-view.js:469-478 | spur positions strictly increase in segment-then-LED traversal order |
| `SpurPosition.SpurLedInRange` | led-view.js:469-478 | every LED of a spur has a position between 1 and the spur's LED count |
| `SpurPosition.EmptySegmentsAddNothing` | led-view.js:473-475 | segments with no LEDs leave the running LED count unchanged |
| `SpurPosition.LastLedIsTotal` | led-view.js:469-478 | the last LED of the last segment that has LEDs sits at the spur's total LED count, whatever empty segments follow it |
| `SpurPosition.BuiltSpurTotal` | led-view.js:196-219 | the LEDs of a built spur's first k segments are the LED counts of waypoints 1..k |
| `SpurPosition.TwoWaypointSpur` | led-view.js:469-478 | a spur of two waypoints asking for 3 LEDs has one segment of 3 LEDs, and its last LED is at position 3 |
| `Matcher.IsInLedNineBox` | led-view.js:453-466 | true iff the train's cell is the LED's own cell or equals one of its 8 neighbour cells |
| `Matcher.PossibleMatches` | led-view.js:380-397 | the spur → segment → LED walk yields exactly the candidate list `Candidates` |
| `Matcher.CandidatesExactly` | led-view.js:381-397 | an LED is a candidate iff its nine-box holds the train's cell; each candidate carries its LED, indices and spur position; candidates are in spur, segment, LED order |
| `Matcher.ExactMatchesExactly` | led-view.js:415-420 | the pruned list holds exactly the candidates whose own cell is the train's, in the candidates' order |
| `Matcher.Closest` | led-view.js:427-448 | the ranking loop's best index so far is one of the indices already seen |
| `Matcher.ClosestIsFirstMinimum` | led-view.js:427-449 | the ranking finds nothing iff the list is empty; otherwise no candidate is closer than the one found and every earlier one is strictly farther |
| `Matcher.PickExactMatch` | led-view.js:413-450 | the filter-then-rank loops compute `PickExact` |
| `Matcher.PickFastPath` | led-view.js:421-423 | with exactly one exact match, that candidate is returned, and the result does not depend on the distance function |
| `Matcher.PickFallback` | led-view.js:424-449 | with zero or several exact matches, the result is the first ranked candidate at the least distance; all candidates are ranked with zero exact matches, only the exact matches with several |
| `Matcher.PickNoneIffNoCandidates` | led-view.js:413-450 | nothing is picked iff there are no candidates; a pick is always one of the candidates |
| `Matcher.MatchLedWithTrain` | led-view.js:377-410 | collecting and picking gives `MatchLed`: the picked candidate's spur, segment, LED and spur position, or none |
| `Matcher.MatchNoneIffNoNineBox` | led-view.js:377-410 | a train is unmatched iff no LED of the line has the train's cell in its nine-box |
| `Matcher.MatchIsNineBoxLed` | led-view.js:386-405 | a match names an existing LED whose nine-box holds the train's cell, with that LED's spur position, which lies between 1 and the spur's LED count |
| `Matcher.MatchUniqueExact` | led-view.js:416-423 | if exactly one LED of the line has the train's cell as its own, that LED is matched, whatever the distances |
| `Matcher.MatchNearestWithoutExact` | led-view.js:424-449 | with no exact-cell LED, the match is at the least distance among all nine-box LEDs, and every nine-box LED visited before it is strictly farther |
| `Matcher.MatchNearestAmongExact` | led-view.js:421-449 | with two or more exact-cell LEDs, the match is one of them, at the least distance among them, and every exact-cell LED visited before it is strictly farther |
| `Matcher.ProcessFetchedLineData` | led-view.js:362-374 | one result per train, in feed order, each the train's `MatchLed`; a missing train list gives an empty list |
| `Display.Halve` | led-view.js:319 | `Math.floor(x/2)`: the result r satisfies 2r ≤ x < 2r + 2 |
| `Display.LedDisplayCommands` | led-view.js:298-327 | Ogilvie (0) and Palatine (39) come first in blue; then one entry per lit strand index, in order, at half that index, cyan iff the position is 0 or 39 and green otherwise |
| `Display.StrandIndicesConcat` | led-view.js:304-315 | the lit strand indices of concatenated result lists are the concatenation of theirs, so match order is kept |
| `Display.StrandIndicesExactly` | led-view.js:304-315 | a strand index is lit iff a main-spur match sits there or a McHenry-spur match sits 220 below it |
| `Display.OccupiedExactly` | led-view.js:244-253 | a position of a spur is occupied iff some match lies on that spur at that position |
| `Display.TextDisplayRows` | led-view.js:237-292 | main row of 183 cells for positions 182 down to 0: '%' iff occupied by spur 0, else 'O' at 0, 'P' at 78, 'H' at 182, '=' elsewhere; spur row of 37 spaces, then 22 cells for positions 21 down to 0: '%' iff occupied by spur 1, else 'M' at 21, ' ' at 0, '=' elsewhere |

## Left out

- Reading the survey CSV with `readline`/`fs` and the `parseInt`/`parseFloat` column extraction (led-view.js:155-188): file I/O. The model starts from parsed waypoint records, grouped by spur, with contiguous indices.
- A spur with no waypoints: the parser always opens a spur with its waypoint 0, so this cannot arise. The model would give it no segments, where the source would leave a hole in its spur array.
- `init`, `async.series` and the module-level `linesObject`/`ledsToLight` (led-view.js:129-152): start-up plumbing. The line geometry is a parameter and the results are returned.
- The survey files themselves (`RouteFiles/LineData-*.csv`) are not part of this model, so no statement is made about a concrete station, such as which LED Palatine's coordinates match.
- Looking up the `"UP-NW"` entry of `ledsToLight` in the two renderers (led-view.js:240, 298): they take that line's result list directly.
- `processFetchedData` (led-view.js:350-359): it only loops over the configured line names and hands the results to the two renderers.
- The `request.post` to the LED controller and its logging (led-view.js:329-346), and `console.log` of the text rows (led-view.js:293-294): I/O.
- The internals of the geohash library (`encode`, `neighbours`) and of `geolib.getDistance`: foreign code, modelled as function parameters. So the library's own guarantees are not proved, for example that a cell's 8 neighbours never include the cell itself.
- Floating-point coordinates: the source adds `double` deltas with rounding. The model uses exact integer micro-degrees.
- Logging through `bunyan`: no effect on results.
- index.js (timer, authenticated HTTPS fetch, grouping trains by route), http-led-server.py and the LED_driver_tests scripts: network and hardware I/O.
- Station LED constants (78, 182, 21, 37, 220) are taken as given, as in the source. Deriving them by matching station coordinates at start-up is not done by this code.
