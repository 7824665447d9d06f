# Timeline engine, modelled in Dafny

A model of the browser timeline engine in `draw.js`. The engine keeps one global
timeline: canvas margins, a zoom factor in pixels per day, a first year
(`offset`), a last year (`end`) and a list of point events (id, date, title,
description, colour). The user adds events, deletes them by id, exports the
timeline as a document, imports one back, and redraws. Every redraw sorts the
events by date. It then draws four things on a canvas:

- an axis bar;
- for every year from `offset` to `end + 1`, a full-height separator at its 1 January;
- for every year up to `end`, a year label and eleven month ticks (February to December);
- a marker for each event, whose vertical band cycles with the event's position.

The model is split into these modules:

- `Calendar` (calendar.dfy): dates are whole day numbers, with day 0 = 1 January 1970, proleptic Gregorian, UTC. `YearStart(y)` is the day of 1 January of `y`, and `DayOf(y, m, d)` is any calendar day.
- `Mapper` (mapper.dfy): `getPx` and `endPlus`. The pixel offset of a day is the floor of its whole days from the origin times the zoom, and the zoom is a `real`.
- `Events` (events.dfy):
  - the event record and the defaults of its constructor;
  - the whitespace test that `String.prototype.trim` implies;
  - the parsed document form that export writes and import reads.
- `Ordering` (ordering.dfy): the comparator as written, the comparator as intended, and the sort applied before every draw.
- `Deletion` (deletion.dfy): what the delete loop as written leaves, and what removing every match would leave.
- `Layout` (layout.dfy): the vertical band offset of the k-th event.
- `Render` (render.dfy): what one draw puts on the canvas, as a sequence of abstract primitives in drawing order. Each primitive is a filled rectangle or a text anchored at a point, tagged with the fill style in force when it is drawn. The year loop and the event loop are methods, proved against the plan functions `Blocks` and `EventsPlan`.
- `TimelineState` (timeline.dfy): the timeline as a class whose fields the operations update in place. Its methods are creation, deletion, export, import and draw.

Two details of the drawing code fix the details of the plan:

- The canvas keeps its fill style between calls, and the year loop resets it to black only at the start of each year. So the separator of a year that has month ticks is drawn in the ticks' grey. Only the separator of `end + 1`, which has no ticks, is black.
- Setting the fill style to a string the canvas cannot parse as a CSS colour is ignored. An event whose colour the canvas rejects is therefore drawn in the fill left in force: the colour of the last accepted event before it, or black. The canvas's colour test is a parameter of the draw.
- The band switch tests `(i + 1) % 4` against 1, 2, 3 and 4. A remainder is never 4, so every fourth event gets the default offset of -30: it is drawn above the top margin, not 90 px below it. `Layout.VOffset` states this, and the Findings table records it.

## Model

| member | source | states |
|---|---|---|
| Calendar.DayOf | draw.js:200 | the first of January of a year is that year's `YearStart` day |
| Calendar.YearStartStep | draw.js:189-191 | 1 January of y + 1 is exactly the length of year y (365 or 366 days, by the Gregorian leap rule) after 1 January of y |
| Calendar.YearStartMonotone | draw.js:189-191 | a later year never starts before an earlier one |
| Calendar.MonthStartInYear | draw.js:199-200 | the first day of every month of year y lies between 1 January of y and 1 January of y + 1, and later months start later |
| Calendar.EpochIsDayZero | draw.js:21 | day numbers count from 1 January 1970, the epoch of the millisecond difference `getPx` divides into days |
| Mapper.GetPxIsFloor | draw.js:18-25 | the pixel offset is the largest integer not above (days since 1 January of `offset`) × zoom |
| Mapper.OriginIsZero | draw.js:21-23 | 1 January of the start year maps to pixel 0 at every zoom |
| Mapper.GetPxMonotone | draw.js:21-23 | with a positive zoom a later date is never left of an earlier one |
| Mapper.GetPxAntitone | draw.js:21-23 | with a negative zoom the order of pixels is reversed |
| Mapper.BeforeOriginIsNegative | draw.js:21-24 | with a positive zoom a date before the origin gets a negative offset; nothing clamps it to 0 |
| Mapper.UnitZoomCountsDays | draw.js:22-23 | at zoom 1 the offset is the number of days since the origin |
| Mapper.EleventhOfJanuary2000 | draw.js:18-25 | start year 2000 and zoom 1 put 11 January 2000 at pixel 10 |
| Mapper.EndPlus | draw.js:27-30 | `endPlus(add)` is 1 January of year `end + add` |
| Mapper.EndPlusStep | draw.js:28-30 | successive `endPlus` days are one calendar year apart |
| Mapper.MonthTickBetweenYears | draw.js:199-202 | with a positive zoom each month tick of year y is drawn between the separators of y and y + 1 |
| Events.MakeEvent | draw.js:33-38 | id, date and title are stored as given; a missing description becomes "" and a missing colour "#990000"; given ones are kept |
| Events.TrimStart | draw.js:58 | the result is a suffix of the input that starts with a non-space, and everything cut off is whitespace |
| Events.TrimEnd | draw.js:58 | the result is a prefix of the input that ends with a non-space, and everything cut off is whitespace |
| Events.TrimEmptyIffBlank | draw.js:58-70 | the trimmed answer is shorter than 1 exactly when the answer is all whitespace, in both directions |
| Events.RecordOf | draw.js:105-106 | rebuilding an event from the record it is exported as gives back that event |
| Events.Rebuild | draw.js:137-140 | the import builds one event per record, in record order, each from its own record's fields |
| Events.Records | draw.js:105-106 | the export writes one record per event, in event order |
| Events.RebuildRecords | draw.js:137-140 | importing the records an export wrote gives back exactly the exported events |
| Ordering.CompareAsWritten | draw.js:97-102 | the comparator as written gives 1 exactly when the first date is later, and -1 exactly when it is the same or earlier; it never gives 0 |
| Ordering.SameDayComparesLessBothWays | draw.js:100 | for two events on the same day the comparator as written says each comes before the other |
| Ordering.CompareEvents | draw.js:97-102 | the intended comparator gives 0, 1 or -1 exactly when the first date is the same as, later than or earlier than the second |
| Ordering.CompareEventsIsConsistent | draw.js:97-102 | the intended comparator is antisymmetric and its "not after" relation is transitive |
| Ordering.ComparatorsAgreeOnOrder | draw.js:100-101 | both comparators agree on whether the first event may come first (`<= 0`); on a tie they disagree on whether it must come first (`< 0`) |
| Ordering.SortedAsWrittenIffStrict | draw.js:97-102 | the comparator as written accepts an order exactly when the dates strictly increase, so no order of two same-day events satisfies it and their order after the sort at line 161 is up to the sort's algorithm |
| Ordering.Insert | draw.js:161 | inserting into a date-sorted list keeps it sorted and adds exactly the one event |
| Ordering.SortByDate | draw.js:161 | the sorted events are in date order and are a permutation of the input |
| Ordering.SortSortedIsIdentity | draw.js:161 | for the model's stable sort with the intended comparator, events already in date order are left as they are; line 161 with the comparator as written does not promise this for same-day events |
| Ordering.SortIsIdempotent | draw.js:161 | for the model's stable sort with the intended comparator, sorting twice is sorting once; line 161 with the comparator as written does not promise this for same-day events |
| Ordering.SortIsStable | draw.js:161 | the model's stable sort with the intended comparator keeps the events of each day in their incoming order; line 161 with the comparator as written does not promise this |
| Deletion.CountId | draw.js:80-86 | the number of matching events is at most the number of events |
| Deletion.CountIdAppend | draw.js:80-86 | the number of matches in two stretches of events put together is the sum of their counts |
| Deletion.Without | draw.js:81-87 | the intended delete leaves no event with the id and removes exactly as many events as carried it |
| Deletion.SkipDeleteStep | draw.js:82-86 | one pass of the delete loop at index i, on a match or a non-match, leaves the loop's remaining result unchanged |
| Deletion.SkipDeleteRemovesOnlyMatches | draw.js:82-87 | the delete as written removes only events with the id, keeps every other event in order, and its length drop is the number of matches it removed |
| Deletion.SkipDeleteWithoutAdjacentMatches | draw.js:82-87 | when no two matching events are adjacent, the delete as written removes every match |
| Deletion.AdjacentMatchSurvives | draw.js:82-87 | of two adjacent matching events the delete as written removes the first, keeps the second, and counts 1 instead of 2 |
| Layout.VOffset | draw.js:212-230 | the band offset of event i is 0, 30 or 60 for i mod 4 = 0, 1 or 2, and -30 for i mod 4 = 3; it is never 90 |
| Layout.IntendedVOffset | draw.js:209-210 | the cycle the comment describes: event i is 30 × (i mod 4) px lower than the first |
| Layout.IntendedVOffsetCycle | draw.js:209-210 | the intended cycle starts at 0, steps 30 px lower three times and repeats every four events |
| Layout.VOffsetDiffersOnFourth | draw.js:209-230 | the switch as written and the intended cycle agree exactly on the events that are not fourth in their cycle; a fourth event is drawn 120 px higher than intended |
| Layout.VOffsetHasPeriodFour | draw.js:214-230 | the band offset depends only on the index modulo 4 |
| Render.RenderYears | draw.js:189-207 | the year loop runs from `offset` while the year is before end + 2, and draws each year's block in year order |
| Render.RenderYear | draw.js:190-206 | one year draws, if it is at most `end`, its label in black and the February to December ticks in grey; it then draws its 2 px separator in the fill style left over, grey after ticks and black otherwise |
| Render.BlockInBlocks | draw.js:189 | whatever one year of the loop draws is in what the loop draws |
| Render.InSomeBlock | draw.js:189 | whatever the loop draws was drawn by some year of its range |
| Render.CountBlocks | draw.js:189 | when every year draws n primitives of a kind, the loop draws n per year |
| Render.MonthTicksCounts | draw.js:199-203 | the month loop draws k - 2 ticks and no separator or year label |
| Render.YearBlockCounts | draw.js:190-206 | each year draws one separator; a year up to `end` also draws one label and 11 month ticks, and a later year draws neither |
| Render.YearsPlanCounts | draw.js:189-207 | the year loop draws end + 2 - offset separators, end + 1 - offset labels and 11 month ticks per labelled year (none when the range is empty) |
| Render.LabelOfBlock | draw.js:192-196 | the only year label in a year's block is that year's, and only years up to `end` have one |
| Render.SeparatorsLeftToRight | draw.js:189-206 | with a positive zoom the separators run left to right in year order |
| Render.SeparatorForEveryYear | draw.js:189-206 | every year from `offset` to end + 1 gets its separator at its 1 January |
| Render.LabelForYearsToEnd | draw.js:192-196 | every year from `offset` to `end` gets its label at its 1 January |
| Render.TicksForYearsToEnd | draw.js:199-203 | every year from `offset` to `end` gets a tick on the first of each month from February to December |
| Render.LabelsOnlyToEnd | draw.js:189-196 | every year label drawn belongs to a year from `offset` to `end` and sits at that year's 1 January |
| Render.RenderEvents | draw.js:212-236 | the event loop draws each event in list order with the band offset of its index, in the fill left by the colours set so far |
| Render.YearLoopEndsBlack | draw.js:185-207 | the last primitive of the year loop is the black separator of end + 1, so the event loop starts with a black fill |
| Render.FillBlackIffNoneAccepted | draw.js:45 | after a run of events the fill is still black exactly when the canvas accepted none of their colours |
| Render.FillIsLastAccepted | draw.js:45 | otherwise the fill is the colour of the last event of the run whose colour the canvas accepted |
| Render.AcceptedColourIsDrawn | draw.js:45-51 | an event whose colour the canvas accepts has its marker, title and date drawn in that colour |
| Render.EventsPlanLength | draw.js:212-236 | the event loop draws three primitives per event |
| Render.EventsPlanAt | draw.js:212-236 | primitives 3k to 3k + 2 of the event loop are the marker, title and date of event k at band offset `VOffset(k)`, in the fill in force once event k has set its colour |
| Render.MarkerGeometry | draw.js:41-51 | the marker line is at the event's pixel plus the left margin, starts vOffset below the top margin and ends on the axis line; title and date sit on the same column above it, in the same fill |
| Render.PlanShape | draw.js:183-236 | a draw puts the axis bar first, then the year loop's primitives, then three primitives per event |
| Render.PlanEventAt | draw.js:183-236 | event k is drawn at positions 1 + (year loop's length) + 3k to that + 2 of the whole drawing, after every separator, label and tick, with its band and fill |
| TimelineState.Timeline.constructor | draw.js:2-8 | the initial timeline has margins 100/0/50/50, zoom 1, years 2000 to 2020 and no events |
| TimelineState.Timeline.NewEvent | draw.js:56-75 | a blank id or, after that, a blank date aborts with no change; otherwise exactly the one new event is appended and nothing else changes |
| TimelineState.Timeline.DeleteEvent | draw.js:78-94 | the loop as written leaves the delete-as-written result, reports the number of events it removed, and leaves the same non-matching events, in order, that removing every match would |
| TimelineState.Timeline.DeleteAllMatching | draw.js:80-87 | the intended delete leaves exactly the non-matching events in order and reports how many matched |
| TimelineState.Timeline.ExportDocument | draw.js:105-106 | the document carries the current settings, and its records rebuild into exactly the current events |
| TimelineState.Timeline.ImportEvents | draw.js:130-140 | the settings are replaced by the document's and the events by those rebuilt from its records, never appended to the old ones |
| TimelineState.Timeline.Draw | draw.js:159-236 | the events are sorted in place into date order, as a permutation; zoom and years come from the controls; the canvas width reaches 1 January of end + 2; the drawing is the axis, then the year loop, then the event loop, with event colours filtered by the canvas's colour test |
| TimelineState.DrawIsIdempotent | draw.js:161 | with the model's stable sort, redrawing with unchanged inputs draws the same picture, because the second sort finds the events already in order; line 161 with the comparator as written does not promise this for same-day events |

## Left out

- Page interaction is not modelled: prompts, alerts, `elem` lookups, the slider label, the file input and its listeners, and `init`. `NewEvent` receives the prompt answers as parameters. A prompt cancelled to `null`, which makes `trim` throw, is not modelled.
- Date parsing is not modelled (`new Date(text)`, and `new Date(record.date)` on import). `NewEvent` receives the day that the date text denotes, and records carry day numbers. An invalid date (NaN) is not modelled.
- Time zones are not modelled. Dates are UTC days, and `getFullYear` of `endPlus(k)` is taken to be `end + k`. In a time zone west of UTC, the local year of a UTC-midnight 1 January is the previous year, which would shift the loop bounds; that case is not modelled.
- The canvas API is reduced to abstract primitives:
  - fonts and `measureText` are dropped, so captions are anchored at the marker's column rather than centred by their measured width;
  - `clearRect` is dropped;
  - the canvas height computed from the window is a parameter of `Draw`.
- `toLocaleDateString` is not modelled: the date caption carries the day number.
- Floating-point rounding is not modelled. Day differences and zoom are exact: days are integers and the zoom is a `real`.
- JSON text is not modelled: `JSON.stringify` and `JSON.parse` are represented by the `Document` value. A parse error is not modelled; a missing `events` array stops the import, as it would throw there. FileReader's asynchronous read is left out too.
- The `draw()` that ends creation, deletion and import is not part of those methods: it is the separate `Draw` method.
- Ordering.SortByDate: the sort that `Array.prototype.sort` runs is the engine's own. The model uses a stable insertion sort with the intended comparator. With the comparator as written, ties answer -1 both ways, so no order of same-day events satisfies it (`Ordering.SortedAsWrittenIffStrict`), and their order is up to the engine's algorithm. The two comparators agree on `<= 0` but not on `< 0`, so an engine that asks `< 0` may order ties differently from the model.
- Ordering.SortSortedIsIdentity: holds for the model's stable sort only. With the comparator as written, line 161 may reorder same-day events that are already in date order.
- Ordering.SortIsIdempotent: holds for the model's stable sort only. With the comparator as written, line 161 may order same-day events differently on each call.
- Ordering.SortIsStable: holds for the model's stable sort only. With the comparator as written, line 161 gives no stability guarantee for same-day events.
- TimelineState.DrawIsIdempotent: holds for the model's stable sort only. With the comparator as written, same-day events, and so their bands, may swap on every redraw, including each window resize.
- The CSS colour grammar is not modelled: `Draw` receives the canvas's test of a colour string as the parameter `isColour`.
- TimelineState.Timeline.DeleteEvent: the two result alerts are not modelled; the method returns the count instead.
- The `draw` method of an event object (lines 41-51) is modelled as the function `Render.EventMarks`, not as a per-event closure.

## Findings

| source | as written | input that shows it | evidently intended | confidence | as-written member | corrected member |
|---|---|---|---|---|---|---|
| draw.js:82-87 | after `splice(i, 1)` the loop still increments `i`, so the event that slides into index `i` is never examined | two adjacent events with id "a", delete "a": one remains and the count is 1 | every event with the id is removed (the comment says "delete matching") | high; not executed | Deletion.AdjacentMatchSurvives | TimelineState.Timeline.DeleteAllMatching |
| draw.js:100 | `first.date == second.date` compares two Date objects by reference, so it is never true for distinct events and ties compare -1 both ways; no order of same-day events satisfies the comparator, so the sort at line 161 may leave them in any order and swap them between redraws | two events dated "2001-05-05": compareEvents(a, b) and compareEvents(b, a) are both -1 | 0 for equal dates, as the comment on line 99 says | high; not executed | Ordering.SameDayComparesLessBothWays | Ordering.CompareEventsIsConsistent |
| draw.js:214-230 | the switch tests `(i + 1) % 4`, which is never 4, so `case 4` is dead and every fourth event gets the default -30 | five events: the fourth (index 3) is drawn at -30, 30 px above the top margin | the fourth event 30 px below the third, at 90, as the comment at lines 209-210 says | high; not executed | Layout.VOffsetDiffersOnFourth | Layout.IntendedVOffsetCycle |
