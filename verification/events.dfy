/**
 * The row extractor and event normalizer: the `worksheet.eachRow` callback
 * that turns each data row into one event, or drops it, or aborts the load.
 */
module Events {
  import opened Wrappers
  import opened Text
  import opened Cells
  import opened DriveLink

  /** A worksheet row as `eachRow` hands it over: its 1-based number and its cells. */
  datatype Row = Row(number: nat, cells: seq<CellValue>)

  /** `row.getCell(col).value`, 1-based; a cell past the last one is empty. */
  function CellAt(row: Row, col: nat): CellValue
    requires col >= 1
  {
    if col - 1 < |row.cells| then row.cells[col - 1] else Blank
  }

  /** One timeline record. The text columns keep what `getCellValue` returned. */
  datatype Event = Event(date: string, artist: Prim, eventName: Prim, location: Prim, seat: Prim, imageUrl: string)

  /** Why a load ends in the error note. */
  datatype LoadError =
    | FetchFailed(message: string)   // network, HTTP status or workbook parse failure
    | DateCellNull(row: nat)         // `dateVal.result` read on the empty date cell (`null`)
    | ImageNotText(row: nat)         // `getCellValue(6).trim()` on a value that is not a string

  const ImagesFolder := "images/"

  function AsciiLower(c: char): char {
    if 'A' <= c <= 'Z' then ((c as int) + 32) as char else c
  }

  /** `s` starts with `prefix` (given in lower case), ignoring ASCII case. */
  predicate StartsWithIgnoreCase(s: string, prefix: string) {
    |prefix| <= |s| && forall i :: 0 <= i < |prefix| ==> AsciiLower(s[i]) == prefix[i]
  }

  /**
   * `/^https?:\/\//i`: the letters `http`, an optional `s`, then `://`,
   * with the letters matched ignoring ASCII case only.
   */
  predicate IsWebUrl(s: string)
    ensures IsWebUrl(s) <==>
              && |s| >= 7
              && AsciiLower(s[0]) == 'h' && AsciiLower(s[1]) == 't' && AsciiLower(s[2]) == 't' && AsciiLower(s[3]) == 'p'
              && (s[4..7] == "://" || (|s| >= 8 && AsciiLower(s[4]) == 's' && s[5..8] == "://"))
  {
    StartsWithIgnoreCase(s, "http://") || StartsWithIgnoreCase(s, "https://")
  }

  /**
   * Image path resolution: the trimmed cell text, sent through the link
   * normalizer when it is a web URL, prefixed with the local images folder
   * when it holds no `/`, and otherwise kept.
   */
  function ResolveImage(raw: string): string {
    ResolvePath(Trim(raw))
  }

  /**
   * The branches of the path handling, applied to the trimmed text `t`: a
   * web URL goes through the link normalizer, a bare name is placed in the
   * images folder, and a path holding a `/` is kept. Empty stays empty,
   * anything else comes out holding a `/`, web URLs stay web URLs and
   * nothing else becomes one, and no whitespace is added.
   */
  function ResolvePath(t: string): (r: string)
    requires Trimmed(t)
    ensures IsWebUrl(t) ==> r == ConvertDriveLink(t)
    ensures t != "" && !IsWebUrl(t) && '/' !in t ==> r == ImagesFolder + t
    ensures !IsWebUrl(t) && '/' in t ==> r == t
    ensures r == "" <==> t == ""
    ensures r != "" ==> '/' in r
    ensures IsWebUrl(r) <==> IsWebUrl(t)
    ensures Trimmed(r)
  {
    if t == "" then t
    else if IsWebUrl(t) then
      ConvertedWebUrl(t);
      ConvertDriveLink(t)
    else if '/' !in t then
      var r := ImagesFolder + t;
      assert r[6] == '/';
      assert AsciiLower(r[0]) != 'h';
      assert r[|r| - 1] == t[|t| - 1];
      r
    else t
  }

  /**
   * The image reference is empty exactly when the cell text is blank;
   * otherwise it holds a `/`, it is a web URL exactly when the trimmed cell
   * text is one, and it has no whitespace at either end. A web URL is what
   * the link normalizer makes of the trimmed text; a path holding a `/` is
   * the trimmed text itself.
   */
  lemma ResolveImageShape(raw: string)
    ensures IsWebUrl(Trim(raw)) ==> ResolveImage(raw) == ConvertDriveLink(Trim(raw))
    ensures !IsWebUrl(Trim(raw)) && '/' in Trim(raw) ==> ResolveImage(raw) == Trim(raw)
    ensures ResolveImage(raw) == "" <==> IsBlank(raw)
    ensures ResolveImage(raw) != "" ==> '/' in ResolveImage(raw)
    ensures IsWebUrl(ResolveImage(raw)) <==> IsWebUrl(Trim(raw))
    ensures Trim(ResolveImage(raw)) == ResolveImage(raw)
  {
    TrimUnchanged(ResolveImage(raw));
  }

  /**
   * A cloud file-share link in the image cell, `/file/d/` followed by an
   * identifier of 25 or more characters, resolves to the direct content
   * URL of that identifier.
   */
  lemma FileLinkResolvesDirect(raw: string, p: nat)
    requires IsWebUrl(Trim(raw)) && FirstFileMatch(Trim(raw), p)
    ensures ResolveImage(raw) == DirectPrefix + IdRun(Trim(raw), p + |FilePath|)
    ensures |IdRun(Trim(raw), p + |FilePath|)| >= MinIdLength
  {
  }

  /** Converting a trimmed web URL gives a trimmed web URL holding a `/`. */
  lemma ConvertedWebUrl(t: string)
    requires IsWebUrl(t) && Trimmed(t)
    ensures var r := ConvertDriveLink(t);
            r != "" && '/' in r && IsWebUrl(r) && Trimmed(r)
  {
    var r := ConvertDriveLink(t);
    ConvertDriveLinkForm(t);
    if r == t {
      assert AsciiLower(t[5]) == '/' || AsciiLower(t[6]) == '/';
    } else {
      DirectUrlShape(r);
    }
  }

  /** A direct content URL is a trimmed web URL holding a `/`. */
  lemma DirectUrlShape(r: string)
    requires IsDirectUrl(r)
    ensures r != "" && '/' in r && IsWebUrl(r) && Trimmed(r)
  {
    assert r[..|DirectPrefix|][6] == '/';
    assert StartsWithIgnoreCase(r, "https://") by {
      forall i | 0 <= i < 8 ensures AsciiLower(r[i]) == "https://"[i] {
        assert r[..|DirectPrefix|][i] == DirectPrefix[i];
      }
    }
    assert r[|r| - 1] == '/' || IsIdChar(r[|r| - 1]) by {
      if |r| == |DirectPrefix| {
        assert r[..|DirectPrefix|][|r| - 1] == '/';
      }
    }
  }

  /** Resolving an already resolved image reference changes nothing. */
  lemma ResolveImageIdempotent(raw: string)
    ensures ResolveImage(ResolveImage(raw)) == ResolveImage(raw)
  {
    var t := Trim(raw);
    ResolveImageShape(raw);
    if t != "" && IsWebUrl(t) {
      ConvertDriveLinkIdempotent(t);
    }
  }

  /** The value of column 6 as `getCellValue` returns it. */
  function ImageCell(row: Row): Prim {
    CellText(CellAt(row, 6))
  }

  /** What the `eachRow` callback does with one row. */
  datatype RowOutcome = Skipped | Failed(error: LoadError) | Yielded(event: Event)

  /**
   * The `eachRow` callback as written: the header row is skipped; an empty
   * date cell throws; a row whose date string is blank is skipped; a row
   * whose image cell is not a string throws; every other row yields an
   * event whose columns 2 to 5 are exactly what `getCellValue` returned.
   */
  function RowStep(row: Row): (r: RowOutcome)
    ensures row.number == 1 ==> r.Skipped?
    ensures r == Failed(DateCellNull(row.number)) <==> row.number != 1 && CellAt(row, 1) == Blank
    ensures r.Skipped? <==> row.number == 1 || (CellAt(row, 1) != Blank && IsBlank(DateString(CellAt(row, 1))))
    ensures r == Failed(ImageNotText(row.number)) <==> !r.Skipped? && CellAt(row, 1) != Blank && !ImageCell(row).Str?
    ensures r.Failed? ==> r.error == DateCellNull(row.number) || r.error == ImageNotText(row.number)
    ensures r.Yielded? ==> && Some(r.event.date) == DateStringAsWritten(CellAt(row, 1)) && !IsBlank(r.event.date)
                           && r.event.artist == CellText(CellAt(row, 2))
                           && r.event.eventName == CellText(CellAt(row, 3))
                           && r.event.location == CellText(CellAt(row, 4))
                           && r.event.seat == CellText(CellAt(row, 5))
                           && r.event.imageUrl == ResolveImage(ImageCell(row).s)
  {
    if row.number == 1 then Skipped
    else
      match DateStringAsWritten(CellAt(row, 1))
      case None => Failed(DateCellNull(row.number))
      case Some(dateStr) => if IsBlank(dateStr) then Skipped else KeptRow(row, dateStr)
  }

  /** A data row with the non-blank date string `dateStr`: its image cell must be text. */
  function KeptRow(row: Row, dateStr: string): RowOutcome {
    match ImageCell(row)
    case Str(rawImg) =>
      Yielded(Event(dateStr,
                    CellText(CellAt(row, 2)), CellText(CellAt(row, 3)),
                    CellText(CellAt(row, 4)), CellText(CellAt(row, 5)),
                    ResolveImage(rawImg)))
    case _ => Failed(ImageNotText(row.number))
  }

  /**
   * The callback as evidently intended: an empty date cell gives the blank
   * date string, so its row is skipped like any other row without a date.
   */
  function RowStepIntended(row: Row): (r: RowOutcome)
    ensures r.Skipped? <==> row.number == 1 || IsBlank(DateString(CellAt(row, 1)))
    ensures r.Failed? <==> !r.Skipped? && !ImageCell(row).Str?
    ensures r.Failed? ==> r.error == ImageNotText(row.number)
    ensures r.Yielded? ==> r.event.date == DateString(CellAt(row, 1)) && !IsBlank(r.event.date)
  {
    if row.number == 1 then Skipped
    else
      var dateStr := DateString(CellAt(row, 1));
      if IsBlank(dateStr) then Skipped else KeptRow(row, dateStr)
  }

  /**
   * The two callbacks differ only on a data row whose date cell is empty:
   * as written it throws, as intended it is skipped.
   */
  lemma RowStepsAgree(row: Row)
    ensures row.number == 1 || CellAt(row, 1) != Blank ==> RowStep(row) == RowStepIntended(row)
    ensures row.number != 1 && CellAt(row, 1) == Blank ==>
              RowStep(row) == Failed(DateCellNull(row.number)) && RowStepIntended(row) == Skipped
  {
  }

  /** A plain data row: a bare file name in column 6 is placed in the images folder. */
  lemma SampleRow()
    ensures RowStep(Row(2, [Scalar(Str("2024.03.01")), Scalar(Str("Artist X")), Scalar(Str("Concert")),
                            Scalar(Str("Hall A")), Scalar(Str("B12")), Scalar(Str("pic.png"))]))
            == Yielded(Event("2024.03.01", Str("Artist X"), Str("Concert"), Str("Hall A"), Str("B12"),
                             "images/pic.png"))
  {
    var row := Row(2, [Scalar(Str("2024.03.01")), Scalar(Str("Artist X")), Scalar(Str("Concert")),
                       Scalar(Str("Hall A")), Scalar(Str("B12")), Scalar(Str("pic.png"))]);
    assert DateString(CellAt(row, 1)) == "2024.03.01";
    assert ImageCell(row) == Str("pic.png");
    assert CellText(CellAt(row, 2)) == Str("Artist X");
    assert CellText(CellAt(row, 3)) == Str("Concert");
    assert CellText(CellAt(row, 4)) == Str("Hall A");
    assert CellText(CellAt(row, 5)) == Str("B12");
    SampleDate();
    SampleImage();
  }

  lemma SampleDate()
    ensures !IsBlank("2024.03.01")
  {
    TrimUnchanged("2024.03.01");
  }

  lemma SampleImage()
    ensures ResolveImage("pic.png") == "images/pic.png"
  {
    assert !IsWebUrl("pic.png") by {
      assert AsciiLower("pic.png"[0]) != 'h';
    }
    assert '/' !in "pic.png";
    BareNameInImagesFolder("pic.png");
  }

  /** A trimmed name that is not a web URL and holds no `/` is looked up in the images folder. */
  lemma BareNameInImagesFolder(t: string)
    requires t != "" && Trimmed(t) && !IsWebUrl(t) && '/' !in t
    ensures ResolveImage(t) == ImagesFolder + t
  {
    TrimUnchanged(t);
  }

  /**
   * `worksheet.eachRow(step)` followed by the events array: the events of
   * `rows` in row order, or the error of the first row whose step throws.
   */
  function Fold(step: Row -> RowOutcome, rows: seq<Row>): Result<seq<Event>, LoadError> {
    if rows == [] then Ok([])
    else
      match Fold(step, rows[..|rows| - 1])
      case Err(e) => Err(e)
      case Ok(es) =>
        match step(rows[|rows| - 1])
        case Skipped => Ok(es)
        case Failed(e) => Err(e)
        case Yielded(ev) => Ok(es + [ev])
  }

  /** The positions of the rows whose step yields an event, in increasing order. */
  function YieldIndices(step: Row -> RowOutcome, rows: seq<Row>): (ix: seq<nat>)
    ensures forall j :: 0 <= j < |ix| ==> ix[j] < |rows| && step(rows[ix[j]]).Yielded?
    ensures forall j, k :: 0 <= j < k < |ix| ==> ix[j] < ix[k]
    ensures forall i :: 0 <= i < |rows| && step(rows[i]).Yielded? ==> i in ix
  {
    if rows == [] then []
    else
      var pre := rows[..|rows| - 1];
      var ix := YieldIndices(step, pre);
      assert forall j :: 0 <= j < |ix| ==> rows[ix[j]] == pre[ix[j]];
      if step(rows[|rows| - 1]).Yielded? then ix + [|rows| - 1] else ix
  }

  /**
   * The loop yields exactly one event per yielding row, in row order, each
   * the one its own row yields; it fails exactly when some row throws.
   */
  lemma {:induction false} FoldIsYieldedRows(step: Row -> RowOutcome, rows: seq<Row>)
    ensures Fold(step, rows).Ok? <==> forall i :: 0 <= i < |rows| ==> !step(rows[i]).Failed?
    ensures Fold(step, rows).Ok? ==>
              var es, ix := Fold(step, rows).value, YieldIndices(step, rows);
              |es| == |ix| && forall j :: 0 <= j < |es| ==> es[j] == step(rows[ix[j]]).event
  {
    if rows != [] {
      var pre := rows[..|rows| - 1];
      FoldIsYieldedRows(step, pre);
      assert forall i :: 0 <= i < |pre| ==> pre[i] == rows[i];
    }
  }

  /** The load fails with the error of the first row that throws. */
  lemma {:induction false} FoldFirstError(step: Row -> RowOutcome, rows: seq<Row>, i: nat)
    requires i < |rows| && step(rows[i]).Failed?
    requires forall k :: 0 <= k < i ==> !step(rows[k]).Failed?
    ensures Fold(step, rows) == Err(step(rows[i]).error)
  {
    var pre := rows[..|rows| - 1];
    if i == |rows| - 1 {
      FoldIsYieldedRows(step, pre);
    } else {
      FoldFirstError(step, pre, i);
    }
  }

  /** Once a prefix of the rows has failed, the whole load fails the same way. */
  lemma {:induction false} FoldErrSticky(step: Row -> RowOutcome, rows: seq<Row>, n: nat)
    requires n <= |rows| && Fold(step, rows[..n]).Err?
    ensures Fold(step, rows) == Fold(step, rows[..n])
    decreases |rows|
  {
    if n < |rows| {
      var pre := rows[..|rows| - 1];
      assert pre[..n] == rows[..n];
      FoldErrSticky(step, pre, n);
    } else {
      assert rows[..n] == rows;
    }
  }

  /** Two callbacks that agree on every row give the same loop result. */
  lemma {:induction false} FoldSameSteps(f: Row -> RowOutcome, g: Row -> RowOutcome, rows: seq<Row>)
    requires forall i :: 0 <= i < |rows| ==> f(rows[i]) == g(rows[i])
    ensures Fold(f, rows) == Fold(g, rows)
  {
    if rows != [] {
      var pre := rows[..|rows| - 1];
      assert forall i :: 0 <= i < |pre| ==> pre[i] == rows[i];
      FoldSameSteps(f, g, pre);
    }
  }

  /**
   * The events the row loop produces from the worksheet rows: it succeeds
   * exactly when no row throws, and then no data row had an empty date
   * cell, every event has a non-blank date, and there is one event per
   * yielding row, in row order.
   */
  function Collect(rows: seq<Row>): (r: Result<seq<Event>, LoadError>)
    ensures r.Ok? <==> forall i :: 0 <= i < |rows| ==> !RowStep(rows[i]).Failed?
    ensures r.Ok? ==> forall i :: 0 <= i < |rows| && rows[i].number != 1 ==> CellAt(rows[i], 1) != Blank
    ensures r.Ok? ==> var ix := YieldIndices(RowStep, rows);
                      && |r.value| == |ix|
                      && forall j :: 0 <= j < |r.value| ==>
                           r.value[j] == RowStep(rows[ix[j]]).event && !IsBlank(r.value[j].date)
  {
    FoldIsYieldedRows(RowStep, rows);
    Fold(RowStep, rows)
  }

  /**
   * Unless an earlier row has thrown, the first data row with an empty
   * date cell ends the whole load with its error.
   */
  lemma EmptyDateCellAborts(rows: seq<Row>, i: nat)
    requires i < |rows| && rows[i].number != 1 && CellAt(rows[i], 1) == Blank
    requires forall k :: 0 <= k < i ==> !RowStep(rows[k]).Failed?
    ensures Collect(rows) == Err(DateCellNull(rows[i].number))
  {
    FoldFirstError(RowStep, rows, i);
  }

  /** Without a data row whose date cell is empty, the callback as written and as intended load the same. */
  lemma CollectAsIntended(rows: seq<Row>)
    requires forall i :: 0 <= i < |rows| ==> rows[i].number == 1 || CellAt(rows[i], 1) != Blank
    ensures Collect(rows) == Fold(RowStepIntended, rows)
  {
    forall i | 0 <= i < |rows| ensures RowStep(rows[i]) == RowStepIntended(rows[i]) {
      RowStepsAgree(rows[i]);
    }
    FoldSameSteps(RowStep, RowStepIntended, rows);
  }

  /**
   * A header and one data row holding an artist but no date: as written
   * the load fails, while the intended callback drops the row.
   */
  lemma EmptyDateRowExample()
    ensures var rows := [Row(1, [Scalar(Str("Date"))]), Row(2, [Blank, Scalar(Str("Artist"))])];
            Collect(rows) == Err(DateCellNull(2)) && Fold(RowStepIntended, rows) == Ok([])
  {
    var rows := [Row(1, [Scalar(Str("Date"))]), Row(2, [Blank, Scalar(Str("Artist"))])];
    assert RowStep(rows[0]).Skipped?;
    EmptyDateCellAborts(rows, 1);
    assert RowStepIntended(rows[1]) == Skipped by {
      assert DateString(CellAt(rows[1], 1)) == "";
      TrimUnchanged("");
    }
    assert rows[..1] == [rows[0]];
    assert Fold(RowStepIntended, rows[..1]) == Ok([]);
  }

  /**
   * `worksheet.eachRow(step)` pushing into `events`: each row's outcome is
   * pushed, skipped, or ends the load with its error.
   */
  method CollectEvents(step: Row -> RowOutcome, rows: seq<Row>) returns (r: Result<seq<Event>, LoadError>)
    ensures r == Fold(step, rows)
  {
    var events: seq<Event> := [];
    var i := 0;
    while i < |rows|
      invariant 0 <= i <= |rows|
      invariant Fold(step, rows[..i]) == Ok(events)
    {
      assert rows[..i + 1][..i] == rows[..i];
      match step(rows[i]) {
        case Skipped =>
        case Failed(e) =>
          FoldErrSticky(step, rows, i + 1);
          return Err(e);
        case Yielded(ev) =>
          events := events + [ev];
      }
      i := i + 1;
    }
    assert rows[..i] == rows;
    r := Ok(events);
  }
}
