/**
 * Worksheet cell values as the script sees them, `getCellValue`, and the
 * date string built from column 1.
 */
module Cells {
  import opened Wrappers
  import opened Text

  /** A JavaScript primitive held by a cell or by one of a cell object's fields; only integral numbers. */
  datatype Prim = Undefined | Bool(b: bool) | Num(n: int) | Str(s: string)

  /** JavaScript truthiness. */
  predicate Truthy(p: Prim) {
    match p
    case Undefined => false
    case Bool(b) => b
    case Num(n) => n != 0
    case Str(s) => s != ""
  }

  /** `String(p)` */
  function PrimToString(p: Prim): string {
    match p
    case Undefined => "undefined"
    case Bool(b) => if b then "true" else "false"
    case Num(n) => IntToString(n)
    case Str(s) => s
  }

  /**
   * Calendar fields read with `getUTCFullYear`, `getUTCMonth` (0-based),
   * `getUTCDate`, `getUTCHours` and `getUTCMinutes`.
   */
  datatype DateFields = DateFields(year: int, month: nat, day: nat, hours: nat, minutes: nat)

  predicate ValidFields(f: DateFields) {
    f.month < 12 && 1 <= f.day <= 31 && f.hours < 24 && f.minutes < 60
  }

  /**
   * The `value` of a worksheet cell: empty (null), a plain number, string or
   * boolean, a date (its UTC fields and the host's local `toString` text), or
   * an object whose `text`, `result` and `hyperlink` properties may be absent
   * (a hyperlink, a formula, rich text, an error value).
   */
  datatype CellValue =
    | Blank
    | Scalar(p: Prim)
    | DateCell(utc: DateFields, local: string)
    | Record(text: Prim, result: Prim, hyperlink: Prim)

  /** What `String(obj)` gives for a plain object. */
  const ObjectText := "[object Object]"

  /**
   * `getCellValue`: an object yields its first truthy property among `text`,
   * `result` and `hyperlink`, returned as it is (so not always a string);
   * otherwise the value's text, or `''` for a falsy value.
   */
  function CellText(c: CellValue): (r: Prim)
    ensures !Truthy(r) ==> r == Str("")
    ensures !r.Str? ==> c.Record? && (r == c.text || r == c.result || r == c.hyperlink)
    ensures c.Record? && Truthy(c.text) ==> r == c.text
    ensures c.Record? && !Truthy(c.text) && Truthy(c.result) ==> r == c.result
    ensures c.Record? && !Truthy(c.text) && !Truthy(c.result) ==> r == (if Truthy(c.hyperlink) then c.hyperlink else Str(ObjectText))
    ensures c.Blank? ==> r == Str("")
    ensures c.Scalar? ==> r == (if Truthy(c.p) then Str(PrimToString(c.p)) else Str(""))
    ensures c.DateCell? ==> r == Str(c.local)
  {
    match c
    case Blank => Str("")
    case Scalar(p) => if Truthy(p) then Str(PrimToString(p)) else Str("")
    case DateCell(_, local) => Str(local)
    case Record(text, result, link) =>
      if Truthy(text) then text
      else if Truthy(result) then result
      else if Truthy(link) then link
      else Str(ObjectText)
  }

  /**
   * `y.MM.DD`, followed by ` HH:MM` when the time of day is not midnight:
   * the text opens with the year as `String(y)` writes it and a `.`, and for
   * valid fields the rest is six characters long, or twelve with the time part.
   */
  function FormatDate(f: DateFields): (r: string)
    ensures var y := IntToString(f.year);
            && |r| > |y| && r[..|y|] == y && r[|y|] == '.'
            && (ValidFields(f) ==> |r| == |y| + (if f.hours != 0 || f.minutes != 0 then 12 else 6))
  {
    var day := IntToString(f.year) + "." + Pad2(f.month + 1) + "." + Pad2(f.day);
    if f.hours != 0 || f.minutes != 0 then day + " " + Pad2(f.hours) + ":" + Pad2(f.minutes)
    else day
  }

  /** Exactly two decimal digits, as `padStart(2, '0')` writes a value below 100. */
  predicate TwoDigits(s: string) {
    |s| == 2 && IsDigit(s[0]) && IsDigit(s[1])
  }

  /** Reads `y.MM.DD` back into its year, 0-based month and day; the month and day must be two digits each. */
  function ParseDay(d: string): Option<(int, nat, nat)> {
    if |d| >= 7 && d[|d| - 6] == '.' && d[|d| - 3] == '.'
       && TwoDigits(d[|d| - 5..|d| - 3]) && TwoDigits(d[|d| - 2..]) then
      var month := DigitsValue(d[|d| - 5..|d| - 3]);
      if month == 0 then None
      else Some((ParseInt(d[..|d| - 6]), month - 1, DigitsValue(d[|d| - 2..])))
    else None
  }

  /**
   * Reads a formatted date back into calendar fields, the hours and minutes
   * two digits each: the inverse of FormatDate.
   */
  function ParseStamp(s: string): Option<DateFields> {
    if |s| >= 13 && s[|s| - 6] == ' ' && s[|s| - 3] == ':'
       && TwoDigits(s[|s| - 5..|s| - 3]) && TwoDigits(s[|s| - 2..]) then
      match ParseDay(s[..|s| - 6])
      case None => None
      case Some((y, m, d)) =>
        Some(DateFields(y, m, d, DigitsValue(s[|s| - 5..|s| - 3]), DigitsValue(s[|s| - 2..])))
    else
      match ParseDay(s)
      case None => None
      case Some((y, m, d)) => Some(DateFields(y, m, d, 0, 0))
  }

  /**
   * No two valid dates format alike: the formatted text gives back every
   * field, and it has a time part exactly when the time is not midnight.
   */
  lemma FormatDateRoundTrip(f: DateFields)
    requires ValidFields(f)
    ensures ParseStamp(FormatDate(f)) == Some(f)
  {
    var y := IntToString(f.year);
    var mo, d := Pad2(f.month + 1), Pad2(f.day);
    var day := y + "." + mo + "." + d;
    assert ParseDay(day) == Some((f.year, f.month, f.day)) by {
      Pad2Digits(f.month + 1);
      Pad2Digits(f.day);
      IntToStringRoundTrip(f.year);
      DayRoundTrip(y, mo, d);
    }
    assert |day| == |y| + 6 by {
      JoinedFields(y, '.', mo, '.', d);
    }
    if f.hours != 0 || f.minutes != 0 {
      Pad2Digits(f.hours);
      Pad2Digits(f.minutes);
      StampWithTime(day, Pad2(f.hours), Pad2(f.minutes));
    } else {
      assert FormatDate(f) == day;
    }
  }

  /** `padStart(2, '0')` of a number below 100 is two digits reading back as that number. */
  lemma Pad2Digits(n: nat)
    requires n < 100
    ensures TwoDigits(Pad2(n)) && DigitsValue(Pad2(n)) == n
  {
  }

  /**
   * Space padding is not read back: each two-character field must be
   * digits, so only the zero-padded text of `padStart(2, '0')` round-trips.
   */
  lemma SpacePaddingRejected()
    ensures ParseStamp("2024. 3. 1").None?
    ensures ParseStamp("2024.03.01  9:05").None?
  {
    assert !IsDigit(' ');
    assert "2024. 3. 1"[5] == ' ';
    assert "2024.03.01  9:05"[11] == ' ';
  }

  /** Where the three fields and two separators of `a x b z c` sit, for two-character `b` and `c`. */
  lemma JoinedFields(a: string, x: char, b: string, z: char, c: string)
    requires |b| == 2 && |c| == 2
    ensures var s := a + [x] + b + [z] + c;
            && |s| == |a| + 6 && s[|s| - 6] == x && s[|s| - 3] == z
            && s[..|s| - 6] == a && s[|s| - 5..|s| - 3] == b && s[|s| - 2..] == c
  {
    var s := a + [x] + b + [z] + c;
    assert s[..|s| - 6] == a;
    assert s[|s| - 5..|s| - 3] == b;
    assert s[|s| - 2..] == c;
  }

  lemma StampWithTime(day: string, hh: string, mm: string)
    requires TwoDigits(hh) && TwoDigits(mm) && |day| >= 7
    ensures var s := day + " " + hh + ":" + mm;
            ParseStamp(s) == match ParseDay(day)
                             case None => None
                             case Some((y, m, d)) => Some(DateFields(y, m, d, DigitsValue(hh), DigitsValue(mm)))
  {
    JoinedFields(day, ' ', hh, ':', mm);
    ParseStampFields(day + " " + hh + ":" + mm, day, hh, mm);
  }

  lemma ParseStampFields(s: string, day: string, hh: string, mm: string)
    requires |s| >= 13 && s[|s| - 6] == ' ' && s[|s| - 3] == ':'
    requires s[..|s| - 6] == day && s[|s| - 5..|s| - 3] == hh && s[|s| - 2..] == mm
    requires TwoDigits(hh) && TwoDigits(mm)
    ensures ParseStamp(s) == match ParseDay(day)
                             case None => None
                             case Some((y, m, d)) => Some(DateFields(y, m, d, DigitsValue(hh), DigitsValue(mm)))
  {
  }

  lemma DayRoundTrip(y: string, mm: string, dd: string)
    requires |y| >= 1 && TwoDigits(mm) && TwoDigits(dd) && DigitsValue(mm) >= 1
    ensures ParseDay(y + "." + mm + "." + dd) == Some((ParseInt(y), DigitsValue(mm) - 1, DigitsValue(dd)))
  {
    JoinedFields(y, '.', mm, '.', dd);
    ParseDayFields(y + "." + mm + "." + dd, y, mm, dd);
  }

  lemma ParseDayFields(d: string, y: string, mm: string, dd: string)
    requires |d| >= 7 && d[|d| - 6] == '.' && d[|d| - 3] == '.'
    requires d[..|d| - 6] == y && d[|d| - 5..|d| - 3] == mm && d[|d| - 2..] == dd
    requires TwoDigits(mm) && TwoDigits(dd) && DigitsValue(mm) >= 1
    ensures ParseDay(d) == Some((ParseInt(y), DigitsValue(mm) - 1, DigitsValue(dd)))
  {
  }

  /**
   * The date string of column 1: a date is formatted from its UTC fields and
   * is never blank, an object with a truthy `result` gives `String(result)`,
   * any other object `[object Object]`, a plain value the text `getCellValue`
   * gives for it, and an empty cell `''`.
   */
  function DateString(c: CellValue): (r: string)
    ensures c.DateCell? ==> r == FormatDate(c.utc) && !IsBlank(r)
    ensures c.Record? ==> r == (if Truthy(c.result) then PrimToString(c.result) else ObjectText)
    ensures c.Scalar? || c.Blank? ==> CellText(c) == Str(r)
  {
    match c
    case Blank => ""
    case DateCell(utc, _) =>
      var s := FormatDate(utc);
      NotBlankAt(s, |IntToString(utc.year)|);
      s
    case Record(_, result, _) => if Truthy(result) then PrimToString(result) else ObjectText
    case Scalar(p) => if Truthy(p) then PrimToString(p) else ""
  }

  /** Text holding a `.` is not blank. */
  lemma NotBlankAt(s: string, k: nat)
    requires k < |s| && s[k] == '.'
    ensures !IsBlank(s)
  {
    assert !IsWhiteSpace(s[k]);
  }

  /**
   * Column 1 exactly as written: an empty cell is `null`, `typeof null` is
   * `'object'`, and reading `null.result` throws (None). Every other value
   * gives what DateString gives.
   */
  function DateStringAsWritten(c: CellValue): (r: Option<string>)
    ensures r.None? <==> c == Blank
    ensures r.Some? ==> r.value == DateString(c)
  {
    match c
    case DateCell(utc, _) => Some(FormatDate(utc))
    case Blank => None
    case Record(_, result, _) => Some(if Truthy(result) then PrimToString(result) else ObjectText)
    case Scalar(p) => Some(if Truthy(p) then PrimToString(p) else "")
  }

  /**
   * The row the guard on blank dates is meant to drop (an empty date cell)
   * instead aborts the load as written, while DateString gives the blank
   * date that drops the row.
   */
  lemma EmptyDateCellThrows()
    ensures DateStringAsWritten(Blank).None?
    ensures IsBlank(DateString(Blank))
  {
  }
}
