# radaresPT in Dafny

radaresPT scrapes a site that reports live speed controls in Portugal. It
turns every panel that has a location into a record: district, creation
date and location. It then appends to an SQLite table, in page order, the
records that come before the first one older than the newest stored
timestamp (all of them when the table is empty). This project models the core of
`radaresPT.go` and proves properties of that model:

- `sanitizeLocationString` (`Sanitizer`). It cuts the editorial notes the
  site appends to a location: a bracketed note, the "LOCALIZAÇÃO
  APROXIMADA" marker and the "Editado pela Administração…" disclaimer.
- `createdDatetimeToTimestamp` (`Timestamp`, on top of `Calendar`). This
  is `time.Parse` with the layout `02/01/2006 15:04:05`, followed by
  `Unix()`.
- The filtering loop of `fetch_last_speed_controls` (`SpeedControls`). It
  skips panels without a location and sanitises the others.
- The selection loop of `main` (`Sync`). It converts each record's date,
  stops at the first record older than the stored maximum, and gathers
  the placeholders and arguments of the INSERT.
- The Go library functions the core relies on (`GoStrings`):
  `strings.Index` and `strings.TrimSpace` with `unicode.IsSpace`.

A panic is modelled as a failure value: `None` in `Timestamp`, `Panic` in
`Sync`. SQL `NULL` for an empty table is `None`.

The selection is specified for any conversion `stamp` of records to
timestamps:

- `Sync.SelectPrefix` is the specification of the loop.
- `Sync.PlanInsert` is the loop itself.
- `Sync.SyncRun` passes the program's own conversion, `Sync.Stamp`, which
  is `TrimSpace` followed by `createdDatetimeToTimestamp`.

The properties of the selection hold whatever the conversion, so they
hold for `Stamp` as well. The filter is specified in the same way:
`SpeedControls.KeepLocatedBy` takes any normalisation of records, and
`SpeedControls.KeepLocated` passes the program's own, `Normalize`.

The code compares with `<` at radaresPT.go:126; `Sync.Outdated` is that
test, false for an empty table. A record whose timestamp
equals the stored maximum is therefore kept, even though it duplicates a
stored row. When the page lists its records newest first, a run right
after one that inserted rows does not panic and re-inserts its first row. The model follows
the code: `Sync.EqualToStoredIsKept` and `Sync.RerunSelectsNewestAgain`
state the consequence.

## Model

| member | source | states |
|---|---|---|
| GoStrings.IndexOf | radaresPT.go:34-35 | `strings.Index`: -1 exactly when the pattern does not occur; otherwise an occurrence with no earlier one |
| GoStrings.FirstOccurrence | radaresPT.go:34 | a one-character pattern is found at the first position where it appears |
| GoStrings.TrimSpace | radaresPT.go:122 | the result is the slice of the input between a leading and a trailing run of white space, and it neither starts nor ends with white space |
| GoStrings.TrimSpaceUnchanged | radaresPT.go:122 | a text that neither starts nor ends with white space is left unchanged |
| Sanitizer.StripNotes | radaresPT.go:34-40 | when both `[` and `]` occur, cut just before the first `[`, so no `[` is left; otherwise return the input |
| Sanitizer.StripMarker | radaresPT.go:42-50 | cut at the first occurrence of the marker, so the marker no longer occurs; unchanged when the marker is absent |
| Sanitizer.SanitizeLocationString | radaresPT.go:33-53 | the result is a prefix of the location, contains neither marker, and contains no `[` when the input held a bracketed note |
| Sanitizer.NothingToStrip | radaresPT.go:33-53 | a location with no bracketed note and neither marker comes back unchanged |
| Sanitizer.SanitizedHasNoNotes | radaresPT.go:33-53 | a sanitised location never holds both brackets |
| Sanitizer.SanitizeIdempotent | radaresPT.go:33-53 | sanitising a sanitised location changes nothing |
| Sanitizer.LoneBracketKept | radaresPT.go:37-40 | with neither marker, a location holding only `[` or only `]` comes back unchanged |
| Sanitizer.BracketExample | radaresPT.go:34-40 | "Lisboa [nota]" becomes "Lisboa " |
| Sanitizer.NoteOnlyExample | radaresPT.go:34-40 | "[x]" becomes the empty string |
| Calendar.UnixSeconds | radaresPT.go:30 | `Unix()` of a UTC instant: it lies within the 86400 seconds of its day, so days carry no leap seconds |
| Calendar.LeapYearsStep | radaresPT.go:30 | the closed-form leap-year count grows by one exactly after a Gregorian leap year |
| Calendar.DaysBeforeYearIsSum | radaresPT.go:30 | the closed-form day count before a year equals the sum of the lengths of all earlier years |
| Calendar.EpochIsZero | radaresPT.go:30 | 1970-01-01 00:00:00 is second 0 |
| Calendar.NextSecondAddsOne | radaresPT.go:30 | the next second of the civil calendar is valid and is exactly one Unix second later |
| Calendar.UnixSecondsMonotone | radaresPT.go:30 | Unix seconds preserve calendar order, so distinct instants get distinct timestamps |
| Calendar.DaysSinceEpochMonotone | radaresPT.go:30 | a later calendar day has a larger day number |
| Calendar.FourDigitYearRange | radaresPT.go:30 | every valid instant of years 0 to 9999 lies between -62167219200 and 253402300799 |
| Calendar.UnixSecondsExample | radaresPT.go:30 | 2024-03-15 08:30:00 UTC is second 1710491400 |
| Timestamp.GetNum | radaresPT.go:23-25 | a number is read exactly when a digit comes first and, for a fixed-width field (day, month, minute, second), a second digit follows; it takes a second digit whenever one is there, and the value is below 100 |
| Timestamp.GetYear | radaresPT.go:23-25 | a year is read exactly when four digits come first; it takes those four characters and is below 10000 |
| Timestamp.Parse | radaresPT.go:25-28 | a successful parse yields a valid date and time in years 0 to 9999 |
| Timestamp.CreatedDatetimeToTimestamp | radaresPT.go:22-31 | a timestamp exists exactly when the text parses, and it lies in the range of four-digit years, well inside `int64` |
| Timestamp.TimestampBounds | radaresPT.go:30 | the Unix seconds of a parsed instant lie between the first second of year 0 and the last second of year 9999 |
| Timestamp.ParseRender | radaresPT.go:23-25 | every spelling the layout admits parses back to the instant when it is valid, and fails when the date does not exist |
| Timestamp.ParseOnlyRendered | radaresPT.go:23-25 | whatever parses is the parsed instant written in the layout, with one of the admitted spellings |
| Timestamp.TimestampExample | radaresPT.go:22-31 | "15/03/2024 08:30:00" converts to 1710491400 |
| Timestamp.ConvertRendered | radaresPT.go:22-31 | every admitted spelling of a valid instant converts to that instant's Unix seconds, and the spelling of a date that does not exist panics |
| Timestamp.ImpossibleDateExample | radaresPT.go:25-28 | "31/02/2024 10:00:00" fails to parse, so the program would panic |
| SpeedControls.Normalize | radaresPT.go:84-88 | the record keeps the panel's district and date text; its location is a prefix of the panel's that holds no bracketed note and neither marker |
| SpeedControls.KeepLocatedBy | radaresPT.go:79-90 | for any normalisation, the filter never yields more records than there are panels |
| SpeedControls.KeepLocated | radaresPT.go:79-90 | the filter with the program's normalisation never yields more records than there are panels |
| SpeedControls.KeepLocatedAppend | radaresPT.go:71-92 | for any normalisation, filtering distributes over concatenation, so records stay in page order |
| SpeedControls.FetchLastSpeedControls | radaresPT.go:71-93 | the loop returns exactly the filtered and sanitised records |
| SpeedControls.KeptRecordSource | radaresPT.go:79-90 | each kept record is the normalised version of a panel whose location is not empty |
| SpeedControls.KeptIfLocated | radaresPT.go:80-88 | every panel whose raw location is not empty is kept, whatever its location normalises to |
| SpeedControls.KeptLocationsClean | radaresPT.go:84-88 | no kept location holds a bracketed note or either marker |
| SpeedControls.NoteOnlyLocationKept | radaresPT.go:80-87 | the emptiness test runs before sanitising, so a location "[x]" is kept as "" |
| Sync.Stamp | radaresPT.go:122 | a record's date converts exactly when its trimmed text parses, and the timestamp lies within four-digit years |
| Sync.SelectPrefix | radaresPT.go:121-134 | the selected rows are no more than the records, and none of them is outdated |
| Sync.SelectPrefixIsLongestPrefix | radaresPT.go:121-134 | the selection is the longest prefix of records that convert and are not outdated, stopped by an outdated record; it fails exactly when a date fails to convert before any outdated record |
| Sync.EmptyTableSelectsAll | radaresPT.go:110-128 | with an empty table every record is selected in order, unless a date fails to convert |
| Sync.StopsAtFirstOutdated | radaresPT.go:126-128 | records after the first outdated one are never examined, not even a date that would not parse |
| Sync.EqualToStoredIsKept | radaresPT.go:126 | a record the loop reaches whose timestamp equals the stored maximum is selected |
| Sync.RaisingMaxKeepsSuccess | radaresPT.go:121-128 | a selection that succeeds under one stored maximum also succeeds, without a panic, under any larger one |
| Sync.RerunSelectsNewestAgain | radaresPT.go:105-128 | when the first selected row's timestamp is the stored maximum, as it is after a run that inserted rows from a page listed newest first, a second run over the same records does not panic and selects that row again |
| Sync.SelectionExample | radaresPT.go:121-134 | timestamps 500, 400 and 300 against a stored 400 select the first two records |
| Sync.ShortCircuitExample | radaresPT.go:126-128 | timestamps 500, 300 and 600 against a stored 400 select only the first record |
| Sync.Args | radaresPT.go:130-133 | three arguments per row, in row order: district, timestamp, location |
| Sync.CollectOne | radaresPT.go:130-133 | a kept record adds its row, one placeholder and its three arguments, and the loop invariant is kept |
| Sync.CollectFails | radaresPT.go:122 | a record the loop reaches whose date does not convert makes the whole run fail |
| Sync.CollectedAll | radaresPT.go:126-134 | at the end of the records, or at an outdated record, the rows gathered so far are the whole selection |
| Sync.PlanInsert | radaresPT.go:110-143 | the loop panics exactly when the selection fails, and inserts nothing exactly when it is empty; otherwise it issues one INSERT with one placeholder per selected row and that row's three arguments |
| Sync.SelectedLocationsClean | radaresPT.go:116-133 | every location a run would insert is sanitised |
| Sync.SyncRun | radaresPT.go:96-143 | a run over the scraped panels panics exactly when the selection over the filtered records, with each date trimmed and converted, fails; it inserts nothing exactly when that selection is empty; otherwise it inserts the selected rows' placeholders and arguments |

## Left out

- Scraping (radaresPT.go:55-77). The headless browser, the selectors and the network are not modelled; the panels' three texts are an input.
- The database (radaresPT.go:100-108, 136-143). Opening the file, the `MAX` query and the `Exec` of the INSERT are not modelled. The stored maximum is an input, and the INSERT is returned as its placeholders and arguments.
- The SQL text built with `fmt.Sprintf` and `strings.Join` is not modelled; its placeholders are given as a sequence.
- Panics carry no error value or message; they are a failure outcome.
- Text as bytes. Go strings are UTF-8 bytes and `strings.Index` returns byte offsets, while the model works on Unicode characters. Every cut is made at the start of a whole marker, so both views cut at the same place; invalid UTF-8 is not modelled.
- Timestamp.Parse: only the layout "02/01/2006 15:04:05" is modelled, read as UTC as `time.Parse` does without a zone. Other layouts, time zones and Go's error messages are not modelled. A fractional second (`.` or `,` and digits) after the seconds is accepted and ignored, as in Go.
- Timestamp.CreatedDatetimeToTimestamp: the result is an unbounded integer. The `int64` width needs no wrap-around because `CreatedDatetimeToTimestamp` proves the result lies in the range of four-digit years.
