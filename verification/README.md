# Concert timeline loader, modelled in Dafny

The site's `script.js` loads a published spreadsheet of attended concerts and
shows it as a timeline. It rewrites the sheet's sharing URL into a workbook
export URL. Then it walks the rows of the first worksheet. Each data row with a
non-blank date becomes one event, with its date string, artist, event name,
location, seat and image reference. The events are sorted newest first. Each
one is then rendered as a timeline item. The location, the seat (revealed one
week after the event) and the picture appear only under their own
conditions. Separately, the profile avatar's cloud-storage link is rewritten
into a direct image URL.

The model has one module per stage:

- `Text` holds the JavaScript string primitives the script relies on:
  `includes`, first-occurrence `replace`, `trim` with the ECMAScript
  whitespace set, `String(n)` and `padStart(2, '0')`.
- `SheetUrl` is `getExportUrl`. The regex `/\/edit.*/` is modelled exactly:
  its `.` stops at a line terminator.
- `DriveLink` holds `convertDriveLink` and the avatar rewrite. The leftmost,
  greedy matches of `/\/file\/d\/([-\w]{25,})/` and `/[-\w]{25,}/` are
  modelled exactly.
- `Cells` holds worksheet cell values, `getCellValue` and the date-string
  builder.
- `Events` holds image path resolution, the `eachRow` callback (`RowStep`,
  as the code is written, and `RowStepIntended`, with the corrected date
  builder) and the row loop that fills `events`. The row loop is `Fold` as a
  function and `CollectEvents` as a method, both for any callback; `Collect`
  is the loop with `RowStep`, which is what the whole load runs.
- `Timeline` holds the sort comparator, the in-place sort, the display
  conditions, the `forEach` rendering loop and the whole load, which ends in
  one of four page states.

The download, the date parser and the clock are parameters. `LoadTimeline`
takes the fetched rows or the fetch error message, the current time `now`
in milliseconds, and a function `parse` that stands for `new Date(text)`
(None for an invalid date).

Three behaviours of the code are easy to miss. The model follows the code in
each.

- An empty date cell does not drop its row. It makes the whole load fail
  (see Findings).
- A row whose date is non-blank but unparseable still yields an event. There
  is no parse filter; such events only sort last.
- `getCellValue` returns an object cell's `text`, `result` or `hyperlink` as
  it is, so it is not always a string. A non-string image cell makes
  `.trim()` throw, and that aborts the whole load (`ImageNotText`).

## Model

| member | source | states |
|---|---|---|
| Text.Contains | script.js:58-65 | `includes` holds exactly when the pattern occurs somewhere, equivalently when it has a leftmost occurrence |
| Text.ReplaceFirst | script.js:59 | `replace` with a string pattern splices the replacement in at the leftmost occurrence only; with no occurrence the text is unchanged |
| Text.Trim | script.js:161 | `trim` leaves no whitespace at either end, and its result is empty exactly when the input is all whitespace |
| Text.TrimIsSlice | script.js:161 | what `trim` returns is a slice of the input, and everything cut off on either side is whitespace |
| Text.TrimUnchanged | script.js:161 | trimming text without whitespace at either end changes nothing |
| Text.IsBlank | script.js:136 | the blank-date guard (`!s`, or `s.trim()` empty) holds for the empty text and, in general, exactly when every character is whitespace |
| Text.NatToStringRoundTrip | script.js:114-115 | the decimal digits `String(n)` writes read back as `n` |
| Text.IntToStringRoundTrip | script.js:113 | `String(y)` of any integer year, sign included, reads back as `y` |
| Text.Pad2 | script.js:114-115 | `padStart(2, '0')` of a number below 100 is exactly two digits whose value is the number |
| SheetUrl.GetExportUrl | script.js:54-70 | a `/pubhtml` URL has its first `/pubhtml` replaced by `/pub?output=xlsx`, which takes precedence over `/edit`; otherwise everything from the first `/edit` up to the next line terminator becomes `/export?format=xlsx`; otherwise the URL is returned unchanged |
| SheetUrl.LineEnd | script.js:66 | the position where `.*` stops: no line terminator before it, and a line terminator or the end of the text at it |
| SheetUrl.EditTailReplaced | script.js:65-67 | on a one-line edit URL, the whole tail from the first `/edit` is replaced |
| SheetUrl.EditExportClean | script.js:65-67 | the rewritten edit URL contains neither `/pubhtml` nor `/edit` |
| SheetUrl.EditExportFixedPoint | script.js:65-67 | rewriting an already rewritten edit URL changes nothing |
| SheetUrl.PubHtmlRewritten | script.js:58-60 | when the URL holds a single `/pubhtml`, the result holds none and has `/pub?output=xlsx` at its place |
| DriveLink.RunLen | script.js:143 | the greedy `[-\w]` run: every character inside is an identifier character and the one after it is not |
| DriveLink.ConvertDriveLink | script.js:140-158 | an empty input is unchanged; the leftmost `/file/d/` followed by 25 or more identifier characters gives the direct prefix plus that maximal run; failing that, on a cloud document host the leftmost 25+ run gives the direct prefix plus that run; every other input is unchanged |
| DriveLink.FirstIdMatchIsMaximal | script.js:152 | the leftmost `[-\w]{25,}` match starts a maximal run of at least 25 identifier characters |
| DriveLink.ConvertDriveLinkForm | script.js:141-157 | the conversion returns its input or a direct content URL |
| DriveLink.DirectUrlUnchanged | script.js:146 | a direct content URL is not converted again |
| DriveLink.ConvertDriveLinkIdempotent | script.js:140-158 | converting a converted link changes nothing |
| DriveLink.AvatarSource | script.js:279-296 | the avatar source changes exactly when it is present, names a cloud document host and has a file-link match, and then it becomes what the link normalizer gives |
| Cells.CellText | script.js:97-106 | an object cell yields its first truthy field among `text`, `result`, `hyperlink` as it is (the only way to get a non-string), an object with none of them its `[object Object]` text, a date cell its `toString` text, a truthy plain value its `String(value)` text, and a falsy or empty value `''` |
| Cells.FormatDate | script.js:111-127 | the date text opens with the year as `String(y)` writes it and a `.`; for valid fields it is six characters longer than the year, or twelve when the ` HH:MM` part is present, which happens exactly when the time is not midnight |
| Cells.FormatDateRoundTrip | script.js:111-127 | the formatted date of valid calendar fields gives every field back through a parser that takes only two-digit month, day, hour and minute fields, so no two valid dates format alike and the fields are zero-padded |
| Cells.SpacePaddingRejected | script.js:114-115 | dates padded with spaces instead of zeros are not read back, so only the `padStart(2, '0')` form round-trips |
| Cells.DateString | script.js:109-133 | the corrected date builder: a date cell gives its formatted date, which is never blank; an object with a truthy `result` gives `String(result)`, any other object `[object Object]`; a plain value gives the same text as `getCellValue`; an empty cell gives the blank string |
| Cells.DateStringAsWritten | script.js:109-133 | the date builder as written fails exactly on the empty cell and gives what the corrected builder gives on every other cell |
| Cells.EmptyDateCellThrows | script.js:128 | as written, an empty date cell throws; the corrected builder gives the blank string that drops the row |
| Events.ResolveImageShape | script.js:161-177 | the image reference is empty exactly when the cell text is blank; otherwise it holds a `/`; a web URL becomes what the link normalizer makes of the trimmed text, and a path holding a `/` is the trimmed text itself; it is a web URL exactly when the trimmed text is one; it has no whitespace at either end |
| Events.ResolvePath | script.js:164-177 | on trimmed text a web URL goes through the link normalizer, a bare name goes into `images/`, and a path holding a `/` is kept; the result is empty exactly for empty text, otherwise holds a `/`, is a web URL exactly when the text is one, and has no whitespace at either end |
| Events.FileLinkResolvesDirect | script.js:141-171 | an image cell holding a cloud file-share link, `/file/d/` followed by an identifier of 25 or more characters, resolves to the direct content URL of that identifier |
| Events.IsWebUrl | script.js:168 | `/^https?:\/\//i` holds exactly when the text starts with `http`, optionally `s`, then `://`, the letters compared ignoring ASCII case only |
| Events.ConvertedWebUrl | script.js:168-171 | a web URL stays a trimmed web URL with a `/` after conversion |
| Events.BareNameInImagesFolder | script.js:172-175 | a bare name with no `/` that is not a web URL is prefixed with `images/` |
| Events.ResolveImageIdempotent | script.js:161-177 | resolving an already resolved image reference changes nothing |
| Events.RowStep | script.js:93-186 | row 1 is skipped; any other row with an empty date cell throws (`DateCellNull`); otherwise the row is skipped exactly when its date string is blank; a kept row throws exactly when its image cell is not a string (`ImageNotText`); otherwise it yields an event holding the date string, columns 2 to 5 as `getCellValue` returned them, and the resolved image |
| Events.RowStepIntended | script.js:93-186 | with the corrected date builder, an empty date cell gives a blank date and its row is skipped; otherwise the row is handled as in the code |
| Events.RowStepsAgree | script.js:109-136 | the callback as written and as intended differ exactly on data rows whose date cell is empty: the first throws, the second skips |
| Events.SampleRow | script.js:93-186 | the row `2024.03.01, Artist X, Concert, Hall A, B12, pic.png` yields the event with image `images/pic.png` |
| Events.YieldIndices | script.js:93-187 | lists, in increasing order, exactly the rows whose callback yields an event |
| Events.FoldIsYieldedRows | script.js:93-187 | the row loop succeeds exactly when no row throws, and then it holds one event per yielding row, in row order, each the event its row yields |
| Events.FoldFirstError | script.js:93-187 | a failed load reports the error of the first row that throws |
| Events.FoldErrSticky | script.js:93-187 | once a prefix of the rows has failed, the whole loop fails the same way |
| Events.Collect | script.js:90-187 | the loop with the callback as written succeeds exactly when no row throws; then no data row had an empty date cell, and the events are one per yielding row, in row order, each with a non-blank date |
| Events.EmptyDateCellAborts | script.js:128 | unless an earlier row has thrown, the first data row with an empty date cell ends the whole load with its error |
| Events.CollectAsIntended | script.js:93-187 | when no data row has an empty date cell, the code as written loads exactly what the intended callback loads |
| Events.EmptyDateRowExample | script.js:128-136 | a header plus one data row holding an artist but no date fails as written, while the intended callback loads no events |
| Events.CollectEvents | script.js:90-187 | the imperative loop with `push` and an early exit computes exactly the row loop's result, for any callback |
| Timeline.ReplaceAllChar | script.js:192 | a global one-character replace keeps the length and changes exactly the matching characters |
| Timeline.DashedNormalizes | script.js:192-193 | the date key has no `.` or `/`, keeps every other character, and normalizing it again changes nothing |
| Timeline.Compare | script.js:191-197 | an unparseable left date sorts after, a parseable left date before an unparseable right one, and on two parseable dates the later one comes first, with a tie exactly on equal stamps |
| Timeline.CompareParsed | script.js:196 | on two parseable dates the comparator is antisymmetric |
| Timeline.CompareTransitive | script.js:196 | on parseable dates the comparator is transitive |
| Timeline.CompareUnparsedLast | script.js:194-195 | an unparseable date sorts after a parseable one, from either side of the comparison |
| Timeline.CompareBothUnparsed | script.js:194 | two unparseable dates each sort after the other, so the comparator is inconsistent on them |
| Timeline.NewestFirstIsComparatorOrder | script.js:191-197 | when at most one date fails to parse, newest-first order is exactly the order in which the comparator finds no pair out of place |
| Timeline.NewestFirstUnparsedLast | script.js:194-195 | in newest-first order, nothing after an unparseable date parses |
| Timeline.SortNewestFirst | script.js:191-197 | the in-place sort permutes the events, and when at most one date fails to parse (the comparator is then consistent) it leaves them newest first |
| Timeline.Insert | script.js:191-197 | one insertion step extends the sorted prefix by one event and permutes the array |
| Timeline.RenderEvent | script.js:207-257 | the content built with `+=` is the item's piece list |
| Timeline.RenderItem | script.js:211-257 | an item opens with date, artist and event name; the location follows when it is shown, then the seat in the next slot when it is revealed, and the picture last exactly when it is shown |
| Timeline.Shown | script.js:219 | a value is displayed exactly when it is a non-empty string other than `undefined`, a non-zero number, or `true` |
| Timeline.LocationShownFromCell | script.js:219 | a location is shown exactly when its text is neither empty nor `undefined` |
| Timeline.SeatRevealed | script.js:222-232 | a seat is revealed only when it is displayable and its date parses, and then exactly when at least a week has passed since the event's time stamp |
| Timeline.SeatRevealMonotone | script.js:222-232 | once revealed, a seat stays revealed at every later time |
| Timeline.ImageShownIff | script.js:236 | the picture is shown exactly when the trimmed image cell is neither empty nor the bare text `images/` |
| Timeline.RenderTimeline | script.js:207-267 | the `forEach` loop produces one item per event, in order |
| Timeline.LoadTimeline | script.js:72-273 | no container leaves the page untouched; a fetch failure or a throwing row, including a data row with an empty date cell, shows the error note with its cause; otherwise the events are a permutation of the collected ones, newest first when at most one date fails to parse, shown as the no-events note when there are none and as one item each otherwise |

## Left out

- The scroll listener, smooth-scroll anchors and fade-in animations (script.js:7-50, 260-264) are DOM event wiring with no data logic.
- The `fetch`, the `response.ok` check and the ExcelJS workbook load (script.js:82-89) are network I/O and a foreign library. `LoadTimeline` takes their outcome as the `fetched` parameter, either the worksheet rows or an error message.
- ExcelJS's `eachRow` visits only rows that hold a value. The rows handed to the model are taken to be those rows.
- `new Date(text)` is the `parse` parameter and `new Date()` is the `now` parameter. The conversion of a date value to its UTC calendar fields starts from the fields (`DateFields`).
- Timeline.SeatRevealed: `setDate(getDate() + 7)` adds seven local calendar days. The model adds a fixed `WeekMs`, so a daylight-saving change inside that week is not modelled.
- `CellValue.DateCell` keeps the host's `Date.prototype.toString` text as data. A date cell outside column 1 yields that text.
- Numbers are integers only. Fractional numbers, exponent notation, formula results that are dates, and error values other than plain objects are not modelled.
- Timeline.SortNewestFirst: the host's sort algorithm and its stability are not modelled. When two or more dates fail to parse, the comparator is inconsistent and the host's order is implementation-defined, so the method's contract promises only a permutation then; the model's own insertion sort happens to put them last. The comparator also returns 1 when an unparseable date meets itself; the host is taken never to compare an element with itself, so one unparseable date counts as consistent.
- HTML escaping, `innerHTML` and `createElement`, the loading placeholder, and the `img.onerror` fallback (script.js:200-271) are DOM side effects. The page is modelled as the list of pieces each item shows.
- Timeline.ShowImage has no contract of its own: it is the two comparisons of script.js:236, and what they mean for a row's image cell is stated by `ImageShownIff`.
- The `try`/`catch` around the seat logic (script.js:222-233) never catches anything here, because the date is always a string. The console logging is left out.
- The error note keeps the cause of the failure (`LoadError`) rather than the text of the host's exception message.

## Findings

| source | as written | input that shows it | evidently intended | confidence | as-written member | corrected member |
|---|---|---|---|---|---|---|
| script.js:128 | an empty date cell has value `null`, `typeof null` is `'object'`, so `dateVal.result` throws a TypeError and the whole load ends in the error note | a row numbered 2 or more whose date cell is empty while another of its cells holds a value | the row is dropped by the blank-date guard at script.js:136 | medium (depends on ExcelJS giving `null` for an empty cell); not executed | Cells.DateStringAsWritten | Cells.DateString |

The whole load (`Collect`, `LoadTimeline`) follows the code as written, so an empty date cell ends it in the error note (`EmptyDateCellAborts`). The corrected builder is used by `RowStepIntended`, and `CollectAsIntended` shows that it loads exactly the same events whenever no data row has an empty date cell.
