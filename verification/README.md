# Ultra-short-term weather lookup — verified model

A Dafny model of the deterministic core of a small script that asks the
Korea Meteorological Administration's "ultra-short-term observation" service
for the current temperature (category `T1H`) and precipitation type
(category `PTY`) at a grid point, then prints a weather-dependent advisory.

The model covers:

- **Time parameters** (`TimeParams`): the base date `YYYYMMDD` and the base
  time, which is always an `HH30` slot. Before minute 40 the slot is the
  previous hour's. At hour 0 it wraps to `"2330"`. The clock is passed in as
  a `Date` and as `hour`/`minute`.
- **Precipitation code table** (`WeatherCodes`): the closed table from codes
  `"0"`–`"7"` to labels. Code `"4"` is absent, and a lookup outside the table
  fails (`None`) instead of falling back to a default.
- **Forecast client after the request** (`Forecast`): the status check and
  the `response`/`body` shape check. Then the walk over the items, a method
  with a loop that keeps the last `T1H` and the last `PTY` value. Then the
  code translation. Every `KeyError` gives the absent pair `(None, None)`.
  The HTTP status is an integer input. The parsed XML is a record whose keys
  may be missing.
- **Advisory selection** (`Advisory`): an exact-match dispatch from the sky
  label, or `None`, to exactly one message.

`Digits` holds the zero-padded decimal rendering that `strftime` and the
`{:02d}` format use, together with its inverse.

`BaseTimeIsLatestPublishedSlot` speaks of the time of day only. Between 00:00
and 00:39 the script pairs today's date with `"2330"`: the date is not rolled
back to the previous day. The model does not combine the two parameters, so
the request as sent then names a slot about 23 hours ahead.

When no `T1H` item appears, `forecast` returns `(None, <label>)`, so
`ForecastOutcome`'s contract requires a sky label but no temperature. An item
key is either missing (a `KeyError`), present with the value `None` (an empty
element such as `<obsrValue/>`), or text; the model keeps the three apart.

## Model

| member | source | states |
|---|---|---|
| Digits.ParseZeroPad | 20211950.project.py:17 | reading a zero-padded rendering back yields the rendered number |
| Digits.ZeroPadParse | 20211950.project.py:17 | re-rendering a digit string's value on its own width gives the string back (the rendering is onto the digit strings) |
| TimeParams.CurrentDate | 20211950.project.py:13-17 | the base date is exactly 8 decimal digits |
| TimeParams.CurrentDateDecodes | 20211950.project.py:13-17 | the 8 digits are the zero-padded year, then month, then day: decoding them gives the date back |
| TimeParams.DecodedDateRenders | 20211950.project.py:13-17 | every 8-digit string that names a valid date is the base date of that date |
| TimeParams.ValidBaseTime | 20211950.project.py:23-33 | 4 digits ending in "30"; the hour part is below 24 and equals the current hour from minute 40 on, and the previous hour modulo 24 (so 00:xx gives "23") before minute 40 |
| TimeParams.BaseTimeIsLatestPublishedSlot | 20211950.project.py:27-32 | the chosen slot lies 10 to 69 minutes before the clock reading (counting across midnight), and it is the only HH30 slot in that window |
| TimeParams.BaseTimeExamples | 20211950.project.py:27-33 | 10:15 gives "0930", 10:45 gives "1030", 00:10 and 23:59 give "2330" |
| WeatherCodes.Lookup | 20211950.project.py:114 | translating a code succeeds exactly when a code is present and is one of "0","1","2","3","5","6","7"; a success is one of the seven labels |
| WeatherCodes.TableDomain | 20211950.project.py:39-47 | the table is defined exactly on the codes "0","1","2","3","5","6","7"; code "4" is missing and its lookup fails |
| WeatherCodes.TableOnto | 20211950.project.py:39-47 | a string is one of the seven labels exactly when some code of the table translates to it |
| WeatherCodes.TableInjective | 20211950.project.py:39-47 | different codes translate to different labels |
| Forecast.ScanItems | 20211950.project.py:96-110 | the walk finishes exactly when no item raises KeyError; it then holds the last T1H value and the last PTY value |
| Forecast.LastValueAt | 20211950.project.py:102-110 | when a category repeats, the value of its last occurrence is the one kept |
| Forecast.LastValueAbsent | 20211950.project.py:96-97 | a category that never occurs leaves its variable at None |
| Forecast.LastValueSkips | 20211950.project.py:104-110 | an item of another category, anywhere in the list, does not change the value kept for a category |
| Forecast.ForecastOutcome | 20211950.project.py:72-124 | a result either has a sky label from the code table (and the status was 200) or is exactly (None, None); no partial failure |
| Forecast.Forecast | 20211950.project.py:72-117 | the method returns what ForecastOutcome describes for the status and the parsed document |
| Forecast.FailsBeforeItems | 20211950.project.py:72-93 | a non-200 status, or a document without response or response.body, gives (None, None) whatever items follow |
| Forecast.SuccessIsLastValues | 20211950.project.py:96-117 | when the last PTY code is in the table, the result is (last T1H value or None if there is none, that code's label) |
| Forecast.FailsWithoutItemList | 20211950.project.py:102-124 | a body without the `items`/`item` keys raises KeyError at the loop head and gives (None, None) |
| Forecast.FailsOnUnreadableItem | 20211950.project.py:102-124 | a missing category, or a missing obsrValue on a T1H or PTY item, anywhere in the list gives (None, None) |
| Forecast.FailsOnUnknownCode | 20211950.project.py:114-124 | when the last PTY value is empty or any text outside the seven codes, the lookup raises KeyError and the result is (None, None), never a default label |
| Forecast.NoPrecipitationItemFails | 20211950.project.py:114-124 | with no PTY item the code stays None, the lookup raises KeyError and the result is (None, None) |
| Forecast.IgnoresOtherCategories | 20211950.project.py:102-110 | dropping an item whose category is neither T1H nor PTY does not change the result |
| Forecast.Examples | 20211950.project.py:72-124 | [T1H 15, PTY 1] gives ("15", "비"); PTY code 4 gives (None, None); status 404 gives (None, None); an empty T1H `<obsrValue/>` gives (None, "비"); an item with an empty `<category/>` is skipped; an item without a category key gives (None, None) |
| Advisory.Advice | 20211950.project.py:181-194 | each of the six precipitation labels selects its own fixed message; every other value, "맑음" and None included, selects "날씨가 좋네요!" |
| Advisory.PrecipitationAdviceCoversLabels | 20211950.project.py:181-192 | the labels with their own message are exactly the code table's labels except "맑음" |
| Advisory.AdviceDistinguishesLabels | 20211950.project.py:181-192 | different precipitation labels never share a message |
| Advisory.AbsentOrClearIsNiceWeather | 20211950.project.py:181-194 | a clear sky and a failed forecast both print the default message |

## Left out

- The HTTP GET (line 68) and printing of the failing status and body (lines 74-75) are network I/O. The status is an input integer.
- XML parsing (line 84) belongs to a foreign library. Its output is given as a `Document` record. The library turns a single `<item>` into a dict rather than a list; the model does not represent that.
- An empty `<response/>`, `<body/>` or `<items/>` element parses to `None`. Testing or indexing it raises `TypeError`, which the code does not catch. An empty `<item/>` in the list parses to `None` too, and `item['category']` (line 104) then raises an uncaught `TypeError`. A status-200 body that is not XML makes the parser (line 84) raise an uncaught `ExpatError`. The record model cannot express these documents, so those crashes are not modelled.
- Clock reads (lines 15, 24, 169-170) are parameters instead.
- CurrentDate: years below 1000 are zero-padded to four digits. Some platforms' `%Y` does not pad them. Clock dates never fall in that range.
- The prompts and reading of latitude/longitude (lines 129-133) are console I/O, as are the date/time header (169-173) and the temperature line (174).
- The embedded service key (line 140) is configuration. The request-parameter dictionary (lines 143-160) only passes values through to the HTTP call, so it is not modelled.
- The unreachable `return` at line 36 is dead code and refers to an undefined name.
- Diagnostic message text on the failure paths (lines 90-91, 121-122) is not modelled. Only the `(None, None)` outcome is.
