# Satellite decay: registry, estimator and timelines

This project models the decay side of the satellite viewer in Dafny:

- the registry of confirmed decays that `js/decayPredictor.js` loads from `decayed.json`: parsing `MM/DD/YYYY` dates, normalising raw records, flattening the grouped feed with throttled warnings, and keeping the latest record per catalogue id;
- the per-satellite decision of `computeDecayEstimates`:
  - a registry hit;
  - a missing element set;
  - propagation that fails now;
  - a backward scan for a recent re-entry;
  - the coarse altitude limit;
  - a forward scan that gives a predicted window with a confidence score;
- the offline tool `buildDecayedDB.java`:
  - a quoted-CSV line parser;
  - the header index and the required columns;
  - the payload/decay-date row filter;
  - grouping by object name in a sorted map;
  - the hand-written JSON output;
- the data helpers of the two canvas timelines, `js/reentryTimeline.js` and `js/ganttTimelineLoader.js`:
  - building and sorting the items;
  - the mode filter;
  - the padded bounds;
  - the nearest tick interval;
  - day ticks;
  - the time/pixel mapping;
  - labels;
  - the overview histogram;
  - the clamped wheel zoom.

Modules, one per file:

| module | file | role |
|---|---|---|
| `Wrappers` | `wrappers.dfy` | `Option` |
| `Text` | `text.dfy` | JavaScript string primitives the code relies on: decimal text, `padStart`, `split`, `parseInt`, `trim`, the loosely typed `Value` |
| `Calendar` | `calendar.dfy` | ECMAScript day arithmetic (`Date.UTC`, `getUTC*`, the time range) and the ISO day text |
| `DecayRegistry` | `decay_registry.dfy` | `parseMdyDate` … `buildDecayMap` |
| `DecayEstimator` | `decay_estimator.dfy` | `findCrossing`, `confidenceForWindow`, the decision tree, and the `Satellite` objects whose `decay` field is written |
| `Csv` | `csv_line.dfy` | `parseDelimitedLine` |
| `JsonText` | `json_text.dfy` | `jsonEscape`, `toJsonObject`, `toJsonGrouped`, with a reader for the text they write |
| `DecayedDb` | `decayed_db.dfy` | `run` and its helpers |
| `TimelineMath` | `timeline_math.dfy` | what both timelines share: `timeToX`/`xToTime`, the zoom clamp, the nearest interval, day ticks, the stable sort |
| `ReentryTimeline` | `reentry_timeline.dfy` | the re-entry timeline's data helpers |
| `GanttTimeline` | `gantt_timeline.dfy` | the launch timeline's data helpers |

Outside effects are parameters:

- The satellite.js propagator is a function value `Propagator` from an element set and an instant to a height in km, or `None` when propagation throws or yields no finite height.
- The wall clock is a `clock` argument.
- JavaScript's `new Date(text)` parser is a `DateParser` argument.
- The CSV file is a sequence of lines.
- The JSON file is the returned text.

Instants are integer milliseconds. Chart coordinates and the confidence score are reals.

The estimator's day length is a parameter, `DecayEstimator.DayLength`. `js/decayPredictor.js:30` sets `MS_PER_DAY = 24 * MS_PER_MIN`, which is 24 minutes; the file's header (lines 11-18) describes windows of 60 and 180 days. `AsWritten` is the code's 24-minute day and models the code as written. `Intended` is the 24-hour day the header describes. Every decision, method and lemma of the estimator is stated for both, and "## Findings" records the difference.

Further places where the code departs from what its documentation suggests, and which the model follows:

- A satellite whose height is at or below the threshold all the time, and that is not in the registry, is confirmed at the first backward sample, `backtrackDays` "days" before `now`, with reason "dropped below". As written that sample lies 86 400 000 ms (one calendar day) before `now` (`DecayEstimator.ConstantlyLowAsWritten`); with the 24-hour day it lies 60 calendar days before (`DecayEstimator.ConstantlyLowIntended`). It is never confirmed at `now` with reason "current altitude below threshold": with the default options the backward window is a whole number of two-hour steps (12 as written, 720 with the 24-hour day), so its last sample is `now` itself and the "current altitude below" branch can never run (`DecayEstimator.DefaultsNeverCurrentBelow`).
- The confidence score lies in `[0.35, 1]`. The `Math.max(0.1, …)` floor never applies, because the base is already 0.35.
- `findCrossing`'s "crossed threshold" branch cannot be taken. Any sample that satisfies it has already been returned by the "dropped below" test just before it.
- `ganttTimelineLoader.js` sets `MS_DAY` to two days. The model keeps that value, so its label thresholds, zoom limits and interval lengths are twice what their names suggest.
- In both `generateTicks`, the "move back" loop never runs, because aligning to a day never moves forward.

## Model

| member | source | states |
|---|---|---|
| `DecayEstimator.AsWrittenDayIsMinutes` | js/decayPredictor.js:29-30 | As written, a "day" is 24 minutes: the 60-day backward window covers one calendar day and the 180-day horizon covers three |
| `DecayEstimator.DayMs` | js/decayPredictor.js:30 | Either day length is positive and even, so half a window of whole "days" is a whole number of milliseconds |
| `DecayEstimator.Effective` | js/decayPredictor.js:191-199 | `{ ...DEFAULTS, ...options }`: with no tuning option given, the effective options are the defaults |
| `DecayEstimator.NowOf` | js/decayPredictor.js:201 | `now` is the clock unless a non-zero `options.now` is given, which then wins; a zero `now` is falsy and reads the clock |
| `DecayEstimator.SatNoradId` | js/decayPredictor.js:205 | No id exactly for a null or undefined `norad_id`; otherwise the trimmed text, which trimming leaves unchanged. `DecayEstimator.RegistryPrecedence` uses it |
| `DecayEstimator.Scan` | js/decayPredictor.js:63-77 | A crossing found from `t` on lies in `[t, end]` and is never of the "crossed threshold" kind; `DecayEstimator.ScanNoneIff` and `DecayEstimator.ScanFirstHit` characterise it fully |
| `DecayEstimator.FirstCrossing` | js/decayPredictor.js:61-78 | `findCrossing` as a function: a crossing lies in `[start, end]` and is never of the "crossed threshold" kind; `DecayEstimator.FindCrossing` is proved equal to it |
| `DecayEstimator.ScanNoneIff` | js/decayPredictor.js:61-78 | `findCrossing` returns nothing if and only if every sample `start + k*step <= end` propagates to a height above the threshold |
| `DecayEstimator.ScanFirstHit` | js/decayPredictor.js:64-74 | A returned crossing is at a sample whose height is missing or not above the threshold, and every earlier sample is above it. The reason is "propagation failed" for a missing height, otherwise "dropped below", and never "crossed threshold" |
| `DecayEstimator.ScanPastStart` | js/decayPredictor.js:61-78 | When the start sample is above the threshold, a crossing lies at least one step after the start and not after the end |
| `DecayEstimator.ScanAgree` | js/decayPredictor.js:61-78 | The scan reads the propagator only at instants inside `[start, end]`: two propagators that agree there give the same result |
| `DecayEstimator.FindCrossing` | js/decayPredictor.js:61-78 | The sampling loop returns exactly the first crossing that the scan specification defines |
| `DecayEstimator.ConfidenceForWindow` | js/decayPredictor.js:80-86 | For either day length the confidence always lies between 0.35 and 1 |
| `DecayEstimator.ConfidenceSoonerNotLower` | js/decayPredictor.js:80-86 | An earlier crossing never gets a lower confidence |
| `DecayEstimator.ConfidenceDragNotLower` | js/decayPredictor.js:83-85 | A larger absolute B* drag term never lowers the confidence |
| `DecayEstimator.ConfidenceEndpoints` | js/decayPredictor.js:80-86 | With no drag, a crossing at `now` scores 0.85 and a crossing at the horizon's end (`horizonDays` "days" of the same length later) scores 0.35 |
| `DecayEstimator.PadDays` | js/decayPredictor.js:288 | The window width in days is between 1 and 10, and is the step in hours rounded up whenever that lies in range |
| `DecayEstimator.Classify` | js/decayPredictor.js:203-311 | For either day length every decision is well formed: a decay date exactly when CONFIRMED, a window exactly when PREDICTED, and the window non-empty with confidence in [0.35, 1] |
| `DecayEstimator.Assess` | js/decayPredictor.js:227-310 | The decision for a satellite with an element set and no registry entry is well formed |
| `DecayEstimator.Forecast` | js/decayPredictor.js:278-310 | The forward search never yields CONFIRMED and is well formed |
| `DecayEstimator.RegistryPrecedence` | js/decayPredictor.js:205-216 | A registry entry for the trimmed, non-empty id decides the outcome whatever the orbit does: CONFIRMED with the registry's ISO date |
| `DecayEstimator.ConfirmedInstant` | js/decayPredictor.js:227-266 | A confirmed instant is never after `now`. A confirmed crossing lies inside the backward window of `backtrackDays` "days" of the chosen length (line 239), at a sample not above the threshold. The converse, that such a sample always confirms, is `DecayEstimator.AssessConfirmedIff` |
| `DecayEstimator.AssessConfirmedIff` | js/decayPredictor.js:227-266 | The header's first rule (lines 11-13), both ways: CONFIRMED exactly when propagation fails now, the height now is at or below the threshold, or some sample of the backward window is not above it |
| `DecayEstimator.PredictedWindow` | js/decayPredictor.js:278-303 | A predicted window is `PadDays` "days" of the chosen length wide (lines 288-290). It is centred on a sample after `now` and within the horizon whose height is not above the threshold, and its confidence is the score for that crossing. The converse is `DecayEstimator.ForecastPredictedIff` |
| `DecayEstimator.ForecastPredictedIff` | js/decayPredictor.js:278-310 | For an orbit above the threshold now, the forecast is PREDICTED exactly when some forward sample within the horizon is not above the threshold, and otherwise UNKNOWN because it stays above |
| `DecayEstimator.AssessPredictedIff` | js/decayPredictor.js:227-310 | The decision for an element set is PREDICTED exactly when the orbit is above the threshold and not above the coarse limit now, no backward sample is at or below the threshold, and some forward sample within the horizon is |
| `DecayEstimator.ForwardCrossing` | js/decayPredictor.js:278-286 | The forward crossing lies after `now`, at or before the horizon end, and not above the threshold |
| `DecayEstimator.ForecastWindow` | js/decayPredictor.js:287-301 | The predicted decision carries the crossing's reason, and a window centred on the crossing with the crossing's confidence |
| `DecayEstimator.CoarseLimitIgnoresFuture` | js/decayPredictor.js:268-276 | An orbit above the coarse limit now is decided without looking at the future: propagators that agree up to `now` give the same decision. What that decision is, is `DecayEstimator.AssessAboveCoarseIff` |
| `DecayEstimator.AssessAboveCoarseIff` | js/decayPredictor.js:268-276 | UNKNOWN with the coarse-limit reason exactly when no backward sample is at or below the threshold and the height now is above both the threshold and the coarse limit |
| `DecayEstimator.CurrentBelowUnreachable` | js/decayPredictor.js:239-266 | When the backward window is a whole number of steps, the "current altitude below threshold" outcome never occurs |
| `DecayEstimator.DefaultsNeverCurrentBelow` | js/decayPredictor.js:31-38 | Under the default options, for either day length, no satellite is ever given the "current altitude below threshold" outcome |
| `DecayEstimator.ConstantlyLow` | js/decayPredictor.js:238-256 | A constantly low orbit not in the registry is CONFIRMED as "dropped below 120 km" at the first backward sample, 60 "days" before `now` |
| `DecayEstimator.ConstantlyLowAsWritten` | js/decayPredictor.js:238-256 | As written, that confirmed instant is `now - 86 400 000`: one calendar day back |
| `DecayEstimator.ConstantlyLowIntended` | js/decayPredictor.js:238-256 | With the 24-hour day it is 60 calendar days back |
| `DecayEstimator.FortyDayDecayAsWritten` | js/decayPredictor.js:278-310 | As written, an orbit at 500 km that is at 100 km from 40 calendar days on is UNKNOWN ("stays above threshold"): the default horizon ends three calendar days ahead |
| `DecayEstimator.FortyDayDecayIntended` | js/decayPredictor.js:278-310 | With the 24-hour day the same orbit is PREDICTED to drop below 120 km, in a one-day window centred 40 calendar days after `now` |
| `DecayEstimator.ClassifySatellite` | js/decayPredictor.js:204-225 | The per-satellite branches compute exactly the `Classify` decision |
| `DecayEstimator.AssessSatrec` | js/decayPredictor.js:227-276 | The propagation and backward scan compute exactly the `Assess` decision |
| `DecayEstimator.ForecastSatrec` | js/decayPredictor.js:278-310 | The forward scan computes exactly the `Forecast` decision |
| `DecayEstimator.Satellite.constructor` | js/decayPredictor.js:203-205 | A satellite starts with its id, its element set and no decay information |
| `DecayEstimator.FirstNonObject` | js/decayPredictor.js:203-225 | The position of the first element that is not an object, where the write to `sat.decay` throws; every element before it is an object |
| `DecayEstimator.ComputeDecayEstimates` | js/decayPredictor.js:190-314 | Every satellite before the first non-object element gets the decision for its own id and element set under the effective options and `now`. The call throws exactly when there is a non-object element, and a satellite that appears only after it keeps its old `decay`. Only `decay` fields of the listed satellites are written |
| `DecayRegistry.ParseMdyDate` | js/decayPredictor.js:88-101 | A parsed date comes only from a string and always lies inside the representable time range |
| `DecayRegistry.MdyOfNumbers` | js/decayPredictor.js:93-95 | A date built from the three numbers lies inside the time range |
| `DecayRegistry.DateOfDay` | js/decayPredictor.js:94-95 | A day number outside the time range gives no date |
| `DecayRegistry.ParseMdyRejects` | js/decayPredictor.js:89-93 | A non-string input, a text without exactly three `/`-separated parts, and a zero or unparsable part are all rejected |
| `DecayRegistry.ParseMdyOfParts` | js/decayPredictor.js:90-100 | Three non-zero parts whose day lies in range parse to that day's UTC midnight, with the ISO text of the decoded day |
| `DecayRegistry.MdyOfValidNumbers` | js/decayPredictor.js:93-94 | Non-zero numbers go on to `Date.UTC` with the year mapped as `Date.UTC` maps it |
| `DecayRegistry.DateOfValidDay` | js/decayPredictor.js:94-100 | A day in range gives its midnight and its ISO text |
| `DecayRegistry.DayRange` | js/decayPredictor.js:94-95 | Every calendar day of the years 100 to 9999 lies inside the time range |
| `DecayRegistry.MdySplit` | js/decayPredictor.js:90 | A canonical `MM/DD/YYYY` text splits into its three fields |
| `DecayRegistry.MdyFields` | js/decayPredictor.js:90 | Each canonical field reads back, through `parseInt`, as its number |
| `DecayRegistry.ParseMdyRoundTrip` | js/decayPredictor.js:88-101 | The canonical text of a valid date reads back as that day's UTC midnight and ISO text; a two-digit year is taken as 19xx |
| `DecayRegistry.FirstTruthy` | js/decayPredictor.js:124 | `a \|\| b \|\| null` yields a truthy one of the two, preferring the first, and nothing exactly when neither is truthy |
| `DecayRegistry.NoradIdOf` | js/decayPredictor.js:104-105 | The catalogue id taken from the first present alias is already trimmed |
| `DecayRegistry.TrimIdempotent` | js/decayPredictor.js:105 | Trimming twice is trimming once |
| `DecayRegistry.NormalizeDecayRecord` | js/decayPredictor.js:103-126 | An accepted record has a non-empty, trimmed catalogue id; `DecayRegistry.NormalizeAcceptance` states when a record is accepted and what it holds |
| `DecayRegistry.NormalizeAcceptance` | js/decayPredictor.js:103-126 | A record is accepted exactly when it has a non-empty id and a valid decay date. A missing id is reported before a bad date. An accepted record carries the trimmed id and the parsed decay date |
| `DecayRegistry.NormalizeDependsOnIdAndDecay` | js/decayPredictor.js:104-115 | Whether a record is accepted, and the warning it raises, depend only on its id and decay-date fields |
| `DecayRegistry.LaunchDateNonFatal` | js/decayPredictor.js:117-123 | A bad or missing launch date never rejects a record; only the optional launch ISO text changes |
| `DecayRegistry.AcceptedRecords` | js/decayPredictor.js:140-147 | There are never more records than entries |
| `DecayRegistry.Rejections` | js/decayPredictor.js:143-146 | There are never more warnings than entries |
| `DecayRegistry.KeptPlusSkipped` | js/decayPredictor.js:140-147 | Every entry is either kept or warned about, never both |
| `DecayRegistry.AcceptedFromEntries` | js/decayPredictor.js:143-146 | Every kept record is the normalisation of some entry of the feed |
| `DecayRegistry.FirstDistinct` | js/decayPredictor.js:130-138 | The distinct warning messages, each once, with the same set as all warnings |
| `DecayRegistry.Take` | js/decayPredictor.js:133 | At most `n` leading messages |
| `DecayRegistry.WarnStep` | js/decayPredictor.js:132-138 | One call of the throttled `warn` extends the log of the first five distinct messages by the new message |
| `DecayRegistry.LogProperties` | js/decayPredictor.js:132-138 | Logged messages are distinct, come from the rejections, and number at most five. Once five distinct messages exist, five are logged; below that every message is logged |
| `DecayRegistry.FlattenDecayData` | js/decayPredictor.js:128-149 | Flattening keeps exactly the accepted records, in feed order, and logs the first five distinct warnings; a non-object feed gives nothing |
| `DecayRegistry.FlattenArray` | js/decayPredictor.js:142-146 | Visiting one group's array extends the records and the log as the whole-feed specification says |
| `DecayRegistry.Visit` | js/decayPredictor.js:144-145 | Visiting one entry extends the records and the log as the whole-feed specification says |
| `DecayRegistry.BuildDecayMap` | js/decayPredictor.js:151-160 | Every record's id is in the map, mapped to a record with that id and a decay date at least as late. The kept record is the earliest of the latest for its id |
| `Calendar.MakeDay` | js/decayPredictor.js:94 | ECMAScript's MakeDay behind `Date.UTC`, months rolling over into years; `Calendar.DecodeMakeDay` proves that decoding it gives a valid date back, and `Calendar.DecodeDay` the converse |
| `Calendar.IsoDayString` | js/decayPredictor.js:96-99 | The `YYYY-MM-DD` text; `Calendar.ParseIsoDayString` proves that it parses back to that day's midnight |
| `Calendar.ParseIsoDate` | js/reentryTimeline.js:189-190 | A parsed text has four-digit, two-digit and two-digit fields forming a valid calendar date; `Calendar.ParseIsoDayString` is its round trip with `Calendar.IsoDayString` |
| `Calendar.YearOfDay` | js/decayPredictor.js:96 | The year found for a day number is the one whose first day is at or before it and whose successor's first day is after it |
| `Calendar.YearOfDayUnique` | js/decayPredictor.js:96 | Only one year contains a given day |
| `Calendar.DecodeDay` | js/decayPredictor.js:96-99 | `getUTCFullYear`/`getUTCMonth`/`getUTCDate` give a valid calendar date that `Date.UTC` maps back to the same day |
| `Calendar.DecodeMakeDay` | js/decayPredictor.js:94-99 | Decoding the day that `Date.UTC` builds from a valid date gives that date back |
| `Calendar.MonthOfDoyUnique` | js/decayPredictor.js:96 | The month found for a day of the year is the month that contains it |
| `Calendar.ParseIsoDayString` | js/reentryTimeline.js:189-190 | The ISO day text the estimator writes is parsed back to that day's midnight |
| `Text.Split` | js/decayPredictor.js:90 | `split` gives at least one part, no part contains the separator, and joining the parts restores the text |
| `Text.SplitJoin` | js/decayPredictor.js:90 | Splitting a join of separator-free parts gives the parts back |
| `Text.ParseInt` | js/decayPredictor.js:90 | JavaScript's `parseInt(s, 10)`: leading white space, a sign, the longest digit run, NaN as `None`; `Text.ParseIntOfDigits` and `Text.ParseIntOfPadded` prove that it reads decimal and zero-padded text back |
| `Text.PadStart` | js/decayPredictor.js:96-99 | `padStart(len, fill)` gives the longer of the text and `len`, with the text at the end and only `fill` before it |
| `Text.ParseIntOfDigits` | js/decayPredictor.js:90 | `parseInt` of a digit string is its decimal value |
| `Text.ParseIntOfPadded` | js/decayPredictor.js:96-99 | `parseInt` reads a zero-padded number back |
| `Text.TrimJs` | js/decayPredictor.js:105 | The trimmed text starts and ends with a non-space |
| `Csv.ParseDelimitedLine` | src/com/openbexi/satellites/buildDecayedDB.java:159-191 | The character loop computes exactly the recursive parse |
| `Csv.FieldCount` | src/com/openbexi/satellites/buildDecayedDB.java:159-191 | The number of fields is one more than the number of delimiters outside quotes |
| `Csv.ParseLineUnquoted` | src/com/openbexi/satellites/buildDecayedDB.java:178-189 | A line without quotes is split at every delimiter; without a delimiter it is one field |
| `Csv.ParseQuotedLine` | src/com/openbexi/satellites/buildDecayedDB.java:167-189 | A line of quoted fields, with inner quotes doubled, parses to those fields |
| `Csv.QuotedRoundTrip` | src/com/openbexi/satellites/buildDecayedDB.java:159-191 | Quoting any fields and joining them with the delimiter parses back to the same fields, delimiters and quotes inside included |
| `JsonText.JsonEscape` | src/com/openbexi/satellites/buildDecayedDB.java:227-246 | The loop computes the escape of each character in turn |
| `JsonText.Escape` | src/com/openbexi/satellites/buildDecayedDB.java:227-246 | The escape is never shorter than the text; `JsonText.ReadEscaped` and `JsonText.EscapeInjective` are its partners |
| `JsonText.EscapeNoControl` | src/com/openbexi/satellites/buildDecayedDB.java:232-243 | The escaped text contains no control character |
| `JsonText.EscapePlain` | src/com/openbexi/satellites/buildDecayedDB.java:240-242 | Text without quotes, backslashes or control characters is unchanged |
| `JsonText.ReadEscaped` | src/com/openbexi/satellites/buildDecayedDB.java:227-246 | A JSON string reader recovers the original text from its escape followed by a closing quote |
| `JsonText.EscapeInjective` | src/com/openbexi/satellites/buildDecayedDB.java:227-246 | Different texts have different escapes |
| `JsonText.ToJsonObject` | src/com/openbexi/satellites/buildDecayedDB.java:214-225 | The builder writes the members in order, `"key": "value"` separated by `, ` inside braces |
| `JsonText.ObjectText` | src/com/openbexi/satellites/buildDecayedDB.java:214-225 | The object text; `JsonText.ReadObjectText` proves that it reads back as the members and `JsonText.ToJsonObject` that the builder writes it |
| `JsonText.ReadObjectText` | src/com/openbexi/satellites/buildDecayedDB.java:214-225 | Reading the object text gives back the members, order included |
| `JsonText.ObjectTextInjective` | src/com/openbexi/satellites/buildDecayedDB.java:214-225 | Different member lists give different texts |
| `JsonText.ToJsonGrouped` | src/com/openbexi/satellites/buildDecayedDB.java:193-212 | The builder writes each group's key and its indented records in group order |
| `JsonText.GroupedText` | src/com/openbexi/satellites/buildDecayedDB.java:193-212 | The grouped text; `JsonText.GroupedRoundTrip` proves that it reads back as the groups and `JsonText.ToJsonGrouped` that the builder writes it |
| `JsonText.GroupedRoundTrip` | src/com/openbexi/satellites/buildDecayedDB.java:193-212 | Reading the grouped text gives back every group, key and record, with nothing left over |
| `DecayedDb.JavaTrim` | src/com/openbexi/satellites/buildDecayedDB.java:146-148 | `String.trim` leaves no character at or below U+0020 at either end |
| `DecayedDb.JavaTrimSlice` | src/com/openbexi/satellites/buildDecayedDB.java:146-148 | The trimmed text is a slice of the input, and everything cut off is white space |
| `DecayedDb.JavaTrimIdempotent` | src/com/openbexi/satellites/buildDecayedDB.java:146-148 | Trimming twice is trimming once |
| `DecayedDb.SafeTrim` | src/com/openbexi/satellites/buildDecayedDB.java:146-148 | A null text becomes the empty text; otherwise the text is trimmed |
| `DecayedDb.IsBlank` | src/com/openbexi/satellites/buildDecayedDB.java:150-152 | Blank means the safe trim is empty |
| `DecayedDb.BlankIffSpaces` | src/com/openbexi/satellites/buildDecayedDB.java:150-152 | A text is blank exactly when every character is white space |
| `DecayedDb.Get` | src/com/openbexi/satellites/buildDecayedDB.java:141-144 | An index outside the row gives the empty text; otherwise the trimmed cell, which trimming leaves unchanged |
| `DecayedDb.UpperRoot` | src/com/openbexi/satellites/buildDecayedDB.java:130 | `toUpperCase(Locale.ROOT)` keeps the length; `DecayedDb.IsPayIffUpper` and `DecayedDb.IndexOfLastWins` use it |
| `DecayedDb.IsPayIffUpper` | src/com/openbexi/satellites/buildDecayedDB.java:94 | `"PAY".equalsIgnoreCase(t)` holds exactly when the upper-case of `t` is `PAY` |
| `DecayedDb.IndexMap` | src/com/openbexi/satellites/buildDecayedDB.java:127-133 | The loop builds exactly the header index specification |
| `DecayedDb.IndexOfLastWins` | src/com/openbexi/satellites/buildDecayedDB.java:127-133 | Every trimmed, upper-cased header name is indexed, at a position holding that name. When names repeat, the last column wins |
| `DecayedDb.RequireColumn` | src/com/openbexi/satellites/buildDecayedDB.java:135-139 | A missing upper-cased name gives the missing-column error; `DecayedDb.RequireColumnOfHeader` states which columns pass |
| `DecayedDb.RequireColumnOfHeader` | src/com/openbexi/satellites/buildDecayedDB.java:135-139 | A column is accepted exactly when some header cell has its name, ignoring surrounding space and case |
| `DecayedDb.FirstMissing` | src/com/openbexi/satellites/buildDecayedDB.java:69-75 | No error exactly when all required columns are present; otherwise the error names the first missing column in checking order, every column before it being present |
| `DecayedDb.ColumnsPresent` | src/com/openbexi/satellites/buildDecayedDB.java:69-75 | Passing the seven checks puts all seven columns in the index |
| `DecayedDb.KeepRow` | src/com/openbexi/satellites/buildDecayedDB.java:89-103 | A kept record has a non-blank decay date and the payload object type; `DecayedDb.KeepRowIff` is the converse and `DecayedDb.KeptRecordFields` gives the fields |
| `DecayedDb.KeepRowIff` | src/com/openbexi/satellites/buildDecayedDB.java:89-94 | A row is kept exactly when its decay-date cell has a non-space character and its trimmed object type is `PAY` ignoring case |
| `DecayedDb.KeptRecordFields` | src/com/openbexi/satellites/buildDecayedDB.java:96-103 | A kept record has a non-empty trimmed decay date, the trimmed payload type and the trimmed object name |
| `DecayedDb.GroupKey` | src/com/openbexi/satellites/buildDecayedDB.java:105-106 | The group key is never empty: an empty name becomes the placeholder |
| `DecayedDb.Less` | src/com/openbexi/satellites/buildDecayedDB.java:77 | `String.compareTo` below zero; `DecayedDb.LessIrreflexive`, `DecayedDb.LessTransitive` and `DecayedDb.LessTotal` prove it a strict total order, the one the `TreeMap` keeps its keys in |
| `DecayedDb.LessIrreflexive` | src/com/openbexi/satellites/buildDecayedDB.java:77 | The `TreeMap` key order is irreflexive |
| `DecayedDb.LessTransitive` | src/com/openbexi/satellites/buildDecayedDB.java:77 | The key order is transitive |
| `DecayedDb.LessTotal` | src/com/openbexi/satellites/buildDecayedDB.java:77 | Any two distinct keys are ordered |
| `DecayedDb.AddToGroup` | src/com/openbexi/satellites/buildDecayedDB.java:108 | `computeIfAbsent(...).add(rec)` on the sorted entries; `DecayedDb.AddToGroupSpec` states its effect |
| `DecayedDb.GroupAll` | src/com/openbexi/satellites/buildDecayedDB.java:77-110 | The `TreeMap` after adding the kept records in order; `DecayedDb.GroupAllSpec` states its content |
| `DecayedDb.AddToGroupSpec` | src/com/openbexi/satellites/buildDecayedDB.java:108 | `computeIfAbsent(...).add(rec)` keeps the map sorted, adds the key, appends the record to that key's list only, and grows the total by one |
| `DecayedDb.GroupAllSpec` | src/com/openbexi/satellites/buildDecayedDB.java:77-110 | The grouped map is sorted with no empty group. Its keys are the records' keys, and each list holds that key's records in input order. Nothing is lost |
| `DecayedDb.KeptRecordsFiltered` | src/com/openbexi/satellites/buildDecayedDB.java:83-110 | Every kept record has a decay date and the payload type, and no more records are kept than non-blank rows are read |
| `DecayedDb.ProcessLine` | src/com/openbexi/satellites/buildDecayedDB.java:84-109 | One line updates the groups and both counters as the specification of that line says |
| `DecayedDb.ReadRows` | src/com/openbexi/satellites/buildDecayedDB.java:82-110 | The read loop yields the grouping of the kept records, the count of non-blank rows and the count of kept records |
| `DecayedDb.ReadRow` | src/com/openbexi/satellites/buildDecayedDB.java:83-110 | One more line extends the prefix result |
| `DecayedDb.RowsStep` | src/com/openbexi/satellites/buildDecayedDB.java:83-110 | The whole-prefix specification grows by one line at a time |
| `DecayedDb.Run` | src/com/openbexi/satellites/buildDecayedDB.java:51-125 | An empty or blank header line fails as an empty CSV, and a missing column fails with the first missing one in checking order. Otherwise the output holds the grouped kept records, both counts and their JSON text |
| `DecayedDb.KeptIsTotal` | src/com/openbexi/satellites/buildDecayedDB.java:77-110 | The groups hold every kept record exactly once, in key order |
| `DecayedDb.OutputReadsBack` | src/com/openbexi/satellites/buildDecayedDB.java:115 | The JSON written for the groups reads back as those groups |
| `TimelineMath.Clamp` | js/reentryTimeline.js:556 | `min(hi, max(lo, x))` lies in `[lo, hi]`, is `x` inside, and the nearer bound outside |
| `TimelineMath.TimeToX` | js/reentryTimeline.js:177-179 | The pixel is defined exactly when the range is not empty |
| `TimelineMath.XToTime` | js/reentryTimeline.js:181-183 | The time is defined exactly when the width is not zero |
| `TimelineMath.TimeRoundTrip` | js/reentryTimeline.js:177-183 | `xToTime(timeToX(t))` is `t` |
| `TimelineMath.TimeToXOrder` | js/ganttTimelineLoader.js:214-216 | The start maps to 0, the end to the width, and later times never map further left |
| `TimelineMath.ZoomAbout` | js/reentryTimeline.js:553-559 | A window exists exactly when the old range is not empty; `TimelineMath.ZoomSpec` bounds it |
| `TimelineMath.ZoomSpec` | js/reentryTimeline.js:553-559 | After a wheel zoom the range lies within the clamp, and the time under the mouse keeps its relative position |
| `TimelineMath.ChooseInterval` | js/reentryTimeline.js:104-125 | `chooseInterval` over a table: the first interval whose length is nearest to the target spacing; a zero width keeps the first. Each timeline passes its own table (`ReentryTimeline.INTERVALS`, and `GanttTimeline.INTERVALS` for js/ganttTimelineLoader.js:64-87) |
| `TimelineMath.NearestIndex` | js/reentryTimeline.js:115-124 | The loop finds the first interval whose length is nearest to the target |
| `TimelineMath.NearestUnique` | js/reentryTimeline.js:115-124 | There is only one such first nearest interval |
| `TimelineMath.DayFloor` | js/reentryTimeline.js:127-129 | `setUTCHours(0,0,0,0)` gives the midnight at or before the time |
| `TimelineMath.FirstTick` | js/reentryTimeline.js:151-159 | For a step of at least a day the first tick lies in `[start, start + step)`; `TimelineMath.FirstTickUnique` shows it is the only aligned tick there |
| `TimelineMath.TickSeq` | js/reentryTimeline.js:160-163 | Every tick lies between the first tick and the end; `TimelineMath.TickSeqSpec` adds the equal steps and the stop |
| `TimelineMath.FirstTickUnique` | js/reentryTimeline.js:151-159 | The first tick is the only aligned tick within one step at or after the start |
| `TimelineMath.GenerateDayTicks` | js/reentryTimeline.js:151-165 | The three loops of `generateTicks` for a day interval produce the tick sequence specification |
| `TimelineMath.TickSeqSpec` | js/reentryTimeline.js:160-163 | The ticks run from the first one in equal steps, all at or before the end, and the next step would pass the end |
| `TimelineMath.DayTicksSpec` | js/reentryTimeline.js:151-165 | Day ticks are UTC midnights, equally spaced, the first within one step of the start, the last within one step of the end |
| `TimelineMath.SortBy` | js/reentryTimeline.js:213-217 | `sort` by a numeric key, as repeated insertion; `TimelineMath.SortBySpec` proves it stable and a permutation |
| `TimelineMath.InsertSpec` | js/reentryTimeline.js:213-217 | Inserting into a stably sorted list keeps it sorted and adds exactly that item |
| `TimelineMath.SortBySpec` | js/reentryTimeline.js:213-217 | `sort` by key is stable (equal keys keep input order) and is a permutation |
| `TimelineMath.Collect` | js/reentryTimeline.js:186-212 | `map` then `filter(Boolean)` gives at most one item per input; `TimelineMath.CollectSound`, `TimelineMath.CollectOrdered` and `TimelineMath.CollectComplete` characterise it |
| `TimelineMath.CollectSound` | js/reentryTimeline.js:186-212 | Every item after `map` and `filter(Boolean)` comes from the satellite at its recorded index |
| `TimelineMath.CollectOrdered` | js/reentryTimeline.js:186-212 | Items keep the input order |
| `TimelineMath.CollectComplete` | js/reentryTimeline.js:186-212 | Every satellite that yields an item contributes it |
| `ReentryTimeline.ItemOf` | js/reentryTimeline.js:187-211 | An item records its satellite and input position; `ReentryTimeline.ItemOfSpec` states when there is one |
| `ReentryTimeline.BuildTimelineData` | js/reentryTimeline.js:185-218 | The sorted items; `ReentryTimeline.BuildTimelineDataSpec` states that they are sorted, stable, sound and complete |
| `ReentryTimeline.FilteredData` | js/reentryTimeline.js:238-246 | The filter keeps no more items than it is given, each from the data and shown under the mode; `ReentryTimeline.FilterSpec` adds the converse and the order |
| `ReentryTimeline.ItemOfSpec` | js/reentryTimeline.js:187-211 | Only a CONFIRMED decay with a valid date, or a PREDICTED one with a valid window, gives an item. The item records its input position, and a missing confidence becomes 0 |
| `ReentryTimeline.BuildTimelineDataSpec` | js/reentryTimeline.js:185-218 | The data is sorted by time (stable on ties), is a permutation of the built items, is sound with respect to the satellites and misses none |
| `ReentryTimeline.FilterSpec` | js/reentryTimeline.js:238-246 | An item is shown exactly when it is in the data, its satellite's mesh is not hidden and its type matches the mode (or the mode is ALL); sorted data stays sorted |
| `ReentryTimeline.TimelineBounds` | js/reentryTimeline.js:79-92 | No data gives no bounds; otherwise the earliest start and latest end, padded |
| `ReentryTimeline.MinMaxSpec` | js/reentryTimeline.js:83-88 | The minimum and maximum are attained and bound every item |
| `ReentryTimeline.BoundsSpec` | js/reentryTimeline.js:89-91 | The padding is at least a week and 5% of the span, so every item lies a week or more inside the bounds |
| `ReentryTimeline.DetailZoom` | js/reentryTimeline.js:548-559 | A detail window exists exactly when the range is not empty; `ReentryTimeline.DetailZoomSpec` bounds it |
| `ReentryTimeline.OverviewZoom` | js/reentryTimeline.js:667-670 | An overview window exists exactly when the range is not empty; `ReentryTimeline.OverviewZoomSpec` bounds it |
| `ReentryTimeline.DetailZoomSpec` | js/reentryTimeline.js:548-559 | The detail range stays within eight hours and a year, anchored at the mouse |
| `ReentryTimeline.OverviewZoomSpec` | js/reentryTimeline.js:667-670 | The overview range stays within one and three years, anchored at the mouse |
| `GanttTimeline.ParseLaunchDate` | js/ganttTimelineLoader.js:43-47 | A date comes only from a present value other than the empty text and `N/A`, and is what the date parser gives for it; `GanttTimeline.ItemsSpec` shows that the timeline holds exactly the satellites it gives a date for |
| `GanttTimeline.ParseLaunchDateSpec` | js/ganttTimelineLoader.js:43-47 | A missing or empty value, `N/A`, or an invalid date gives no date; any other value gives the parsed date |
| `GanttTimeline.ItemOf` | js/ganttTimelineLoader.js:154-157 | A satellite gives an item exactly when it has a launch date, and the item records the satellite and its position |
| `GanttTimeline.TimelineData` | js/ganttTimelineLoader.js:153-159 | The sorted items; `GanttTimeline.TimelineDataSpec` states that they are sorted, stable, sound and complete |
| `GanttTimeline.ItemsSpec` | js/ganttTimelineLoader.js:153-158 | The items come from the satellites at their recorded indexes with their launch times, in order, none missed |
| `GanttTimeline.TimelineDataSpec` | js/ganttTimelineLoader.js:153-159 | The data is sorted by launch time, stable on ties, sound and complete |
| `GanttTimeline.PadSpec` | js/ganttTimelineLoader.js:60-62 | `padStart(2, '0')` gives two digits below ten with a leading zero, and reads back as the number |
| `GanttTimeline.YearText` | js/ganttTimelineLoader.js:52-57 | The year text reads back and contains no dash |
| `GanttTimeline.UtcDaySpec` | js/ganttTimelineLoader.js:52-57 | The UTC calendar day of a time is a valid date whose midnight is at or before the time and less than a day earlier |
| `GanttTimeline.DayLabel` | js/ganttTimelineLoader.js:52 | The `DD-MM-YYYY` label splits into day, month and year, which read back |
| `GanttTimeline.MonthLabel` | js/ganttTimelineLoader.js:55 | The `MM-YYYY` label splits into month and year, which read back |
| `GanttTimeline.YearLabel` | js/ganttTimelineLoader.js:57 | The year label reads back as the year |
| `GanttTimeline.FormatLabel` | js/ganttTimelineLoader.js:49-58 | The label at the three zoom levels; `GanttTimeline.LabelReadsBack` proves that it names the day, month or year of the time and reads back |
| `GanttTimeline.LabelReadsBack` | js/ganttTimelineLoader.js:49-58 | At each zoom level the label names the UTC day, month or year containing the time, and reads back |
| `GanttTimeline.BucketCount` | js/ganttTimelineLoader.js:319 | Between 10 and 240 buckets, one per eight pixels in between |
| `GanttTimeline.BucketIndex` | js/ganttTimelineLoader.js:325 | The clamped bucket of a time always lies within the buckets |
| `GanttTimeline.BucketIndexRange` | js/ganttTimelineLoader.js:325 | The bucket index always lies within the buckets; the window start falls in the first bucket and the window end in the last |
| `GanttTimeline.BucketIndexMonotone` | js/ganttTimelineLoader.js:325 | A later time never falls in an earlier bucket |
| `GanttTimeline.Zeros` | js/ganttTimelineLoader.js:322 | `new Array(n).fill(0)` |
| `GanttTimeline.Histogram` | js/ganttTimelineLoader.js:322-327 | There is one count per bucket |
| `GanttTimeline.HistogramSpec` | js/ganttTimelineLoader.js:322-327 | Each bucket counts exactly the items in the window that fall into it, and the buckets together count every item in the window once |
| `GanttTimeline.OverviewBuckets` | js/ganttTimelineLoader.js:319-327 | The array loop computes the histogram specification in a fresh array |
| `GanttTimeline.DetailZoom` | js/ganttTimelineLoader.js:411-418 | A detail window exists exactly when the range is not empty; `GanttTimeline.DetailZoomSpec` bounds it |
| `GanttTimeline.OverviewZoom` | js/ganttTimelineLoader.js:491-496 | An overview window exists exactly when the range is not empty; `GanttTimeline.OverviewZoomSpec` bounds it |
| `GanttTimeline.DetailZoomSpec` | js/ganttTimelineLoader.js:411-418 | The detail range stays within half a `MS_DAY` and twenty `MS_YEAR`s, anchored at the mouse |
| `GanttTimeline.OverviewZoomSpec` | js/ganttTimelineLoader.js:491-496 | The overview range stays within 1.5 and 200 `MS_YEAR`s, anchored at the mouse |

## Left out

- `loadConfirmedDecays` (js/decayPredictor.js:162-188): the `fetch`, the promise, the two caches and the error log are not modelled. Its result is the `BuildDecayMap` of the `FlattenDecayData` of the feed, or no registry, and it is passed to `ComputeDecayEstimates` as `confirmedDecays`.
- `safePropagate` and satellite.js: orbit propagation is the `Propagator` parameter. Its try/catch and its finiteness check are folded into `None`.
- The clock (`new Date()`) is the `clock` argument of `ComputeDecayEstimates`.
- `console.warn` output: the warning log is returned as a sequence of warning values, and message texts are not modelled. Reason texts are datatype tags; `toFixed` formatting is not modelled.
- Floating point: heights, confidences, chart coordinates and zoom factors are exact reals. Rounding, NaN and infinities are not modelled, except that a zero divisor gives `None` in `TimelineMath.TimeToX` and `TimelineMath.XToTime`.
- `toISOString` on an instant outside the time range throws in JavaScript. The model keeps the instant (`DecayDate.Instant`) and does not model that exception.
- `DecayEstimator.Classify`, `DecayEstimator.Assess`, `DecayEstimator.Forecast`, `DecayEstimator.FirstCrossing` and `DecayEstimator.ComputeDecayEstimates` require positive step sizes (`StepsPositive`, and `stepMs > 0` for the scan). With a zero or negative step, `findCrossing`'s loop (js/decayPredictor.js:61-77) runs forever unless the window is empty (start after end), in which case it returns null at once, or a sample fails or is at or below the threshold, in which case it returns that sample: with `backtrackStepMinutes: 0` and a propagation that fails at the start of the backward window, for example, the source answers CONFIRMED. These terminating runs with a non-positive step are not modelled.
- `GanttTimeline.TimelineData`: the loader's `(satellites || [])` fallback for a `null` or `undefined` list (js/ganttTimelineLoader.js:153) is not modelled; the list is a sequence. The source turns an absent list into an empty timeline, which is what the model gives for the empty sequence.
- `DecayEstimator.ComputeDecayEstimates`: a `satellites` argument of `null` or `undefined` (`satellites || []`) is not modelled; the list is a sequence. Elements that are not objects are `None`, and the TypeError they raise is the `thrown` result; the exception object and its propagation to the caller are not modelled.
- `DecayEstimator.Options`: the four day and minute options are integers in the model. JavaScript accepts any number there, for example `stepMinutes: 7.5`, where `Math.ceil` in the window padding rounds a fraction up; non-integral, NaN and infinite values are not modelled. `options.now` is an instant in milliseconds; a `Date` object or a date text passed as `now` is not modelled.
- `DecayEstimator.Effective`: an option given as `undefined` replaces the default under JavaScript's object spread. The model treats a present key as a value and an absent key as the default.
- `String(value)` for objects and arrays, and JavaScript's number-to-text conversion for non-integers: `Text.ToJsString` covers strings, integers and booleans only.
- `new Date(text)` for arbitrary texts is the `DateParser` parameter of both timelines. Only the ISO day form is modelled concretely (`Calendar.ParseIsoDate`).
- Month and year ticks: `generateTicks` is modelled for day and week intervals (`TimelineMath.GenerateDayTicks`). Month and year stepping through `setUTCMonth`/`setUTCFullYear` is not modelled.
- `ReentryTimeline.ItemOf` and `GanttTimeline.ItemOf`: a `null` element in the decay-data or satellite array makes the property read throw in JavaScript. The timelines' inputs are sequences of records, so that element and the exception are not modelled; the estimator itself already stops at such an element (`DecayEstimator.ComputeDecayEstimates`).
- `formatDate`/`formatDateTime` in js/reentryTimeline.js are display helpers and are not modelled.
- Everything that draws: the canvas code, the DOM, the tooltip, the drag handlers, the resize handling and the animation scheduling of both timelines. Only the wheel handlers' arithmetic is modelled (`DetailZoom`, `OverviewZoom`).
- `GanttTimeline.Histogram`: the bucket loop is modelled for a non-empty overview window (`os < oe`). For an empty window the source's division gives NaN; that case is not modelled.
- `run`'s file handling: the existence check, the reader, directory creation, file writing and the summary lines on standard output. The CSV is a sequence of lines, and the output JSON is returned in `DecayedDb.Output`.
- `main`'s exception handler and `System.exit`: `DecayedDb.Run` returns the failure as a `DbError` value.
- `DecayedDb.UpperRoot`: `toUpperCase(Locale.ROOT)` and `equalsIgnoreCase` are modelled on ASCII letters only.
- `jsonEscape`'s `null` case: Java's null string is not part of the model, because every caller passes a non-null text.
- Strings are sequences of characters. UTF-16 surrogate pairs and the UTF-8 encoding of the files are not modelled.

## Findings

| source | as written | input that shows it | evidently intended | confidence | as-written member | corrected member |
|---|---|---|---|---|---|---|
| js/decayPredictor.js:30 | `MS_PER_DAY = 24 * MS_PER_MIN` is 24 minutes, not a day; lines 81, 239, 278 and 289-290 use it | under the defaults, a satellite constantly at 100 km is confirmed at `now - 86 400 000` (one calendar day back, not 60); an orbit at 500 km that reaches 100 km 40 calendar days ahead is UNKNOWN, because the 180-"day" horizon ends three calendar days ahead; a predicted window is `padDays * 1 440 000` ms wide | `24 * 60 * MS_PER_MIN`, one day | not executed | `DecayEstimator.ConstantlyLowAsWritten`, `DecayEstimator.FortyDayDecayAsWritten` | `DecayEstimator.ConstantlyLowIntended`, `DecayEstimator.FortyDayDecayIntended` |
