/**
 * The ordering and rendering stages of the timeline loader: events are
 * sorted newest first by their parsed date, then each becomes one timeline
 * item whose location, seat and picture appear only under their own rules.
 * The whole load ends in one of four page states.
 */
module Timeline {
  import opened Wrappers
  import opened Text
  import opened Cells
  import opened Events

  /** What `setDate(getDate() + 7)` adds, in milliseconds (a day is taken as 24 hours). */
  const WeekMs := 7 * 24 * 60 * 60 * 1000

  // ---------------------------------------------------------------------
  // Date keys
  // ---------------------------------------------------------------------

  /** `s.replace(/x/g, y)` for a one-character pattern. */
  function ReplaceAllChar(s: string, x: char, y: char): (r: string)
    ensures |r| == |s|
    ensures forall i :: 0 <= i < |s| ==> r[i] == (if s[i] == x then y else s[i])
  {
    if s == [] then [] else ReplaceAllChar(s[..|s| - 1], x, y) + [if s[|s| - 1] == x then y else s[|s| - 1]]
  }

  /** The date string with every `.` and every `/` turned into `-`, as handed to the date parser. */
  function Dashed(s: string): string {
    ReplaceAllChar(ReplaceAllChar(s, '.', '-'), '/', '-')
  }

  /** Dashed leaves no `.` or `/`, keeps every other character, and changes nothing when applied again. */
  lemma DashedNormalizes(s: string)
    ensures |Dashed(s)| == |s|
    ensures '.' !in Dashed(s) && '/' !in Dashed(s)
    ensures forall i :: 0 <= i < |s| && s[i] != '.' && s[i] != '/' ==> Dashed(s)[i] == s[i]
    ensures Dashed(Dashed(s)) == Dashed(s)
  {
    var d := Dashed(s);
    assert forall i :: 0 <= i < |d| ==> d[i] != '.' && d[i] != '/';
    assert Dashed(d) == d;
  }

  /**
   * The event's time stamp: `new Date(...)` of its dashed date string, None
   * when that is an invalid date. The date parser is a parameter.
   */
  function Stamp(e: Event, parse: string -> Option<int>): Option<int> {
    parse(Dashed(e.date))
  }

  predicate Parses(e: Event, parse: string -> Option<int>) {
    Stamp(e, parse).Some?
  }

  predicate AllParse(s: seq<Event>, parse: string -> Option<int>) {
    forall i :: 0 <= i < |s| ==> Parses(s[i], parse)
  }

  /** No two events both fail to parse: the comparator is then consistent on them. */
  predicate AtMostOneUnparsed(s: seq<Event>, parse: string -> Option<int>) {
    forall i, j :: 0 <= i < j < |s| ==> Parses(s[i], parse) || Parses(s[j], parse)
  }

  // ---------------------------------------------------------------------
  // The sort comparator
  // ---------------------------------------------------------------------

  /**
   * The comparator handed to `events.sort`: an unparseable left date sorts
   * after, an unparseable right date before, otherwise the later date first.
   */
  function Compare(a: Event, b: Event, parse: string -> Option<int>): (r: int)
    ensures !Parses(a, parse) ==> r > 0
    ensures Parses(a, parse) && !Parses(b, parse) ==> r < 0
    ensures Parses(a, parse) && Parses(b, parse) ==>
              && (r < 0 <==> Stamp(a, parse).value > Stamp(b, parse).value)
              && (r == 0 <==> Stamp(a, parse) == Stamp(b, parse))
  {
    var da := Stamp(a, parse);
    var db := Stamp(b, parse);
    if da.None? then 1
    else if db.None? then -1
    else db.value - da.value
  }

  /** On parseable dates the comparator is antisymmetric. */
  lemma CompareParsed(a: Event, b: Event, parse: string -> Option<int>)
    requires Parses(a, parse) && Parses(b, parse)
    ensures Compare(b, a, parse) == -Compare(a, b, parse)
  {
  }

  /** On parseable dates the comparator is transitive. */
  lemma CompareTransitive(a: Event, b: Event, c: Event, parse: string -> Option<int>)
    requires Parses(a, parse) && Parses(b, parse) && Parses(c, parse)
    requires Compare(a, b, parse) <= 0 && Compare(b, c, parse) <= 0
    ensures Compare(a, c, parse) <= 0
  {
  }

  /** An unparseable date sorts after a parseable one, from either side. */
  lemma CompareUnparsedLast(u: Event, p: Event, parse: string -> Option<int>)
    requires !Parses(u, parse) && Parses(p, parse)
    ensures Compare(u, p, parse) > 0 && Compare(p, u, parse) < 0
  {
  }

  /**
   * Two unparseable dates each claim to sort after the other: the
   * comparator is not consistent on them, so their order is left to the
   * host's sort.
   */
  lemma CompareBothUnparsed(u: Event, v: Event, parse: string -> Option<int>)
    requires !Parses(u, parse) && !Parses(v, parse)
    ensures Compare(u, v, parse) > 0 && Compare(v, u, parse) > 0
  {
  }

  /**
   * `x` may stand before `y` in newest-first order: a parseable date stands
   * before any unparseable one and before any older or equal one; two
   * unparseable dates may stand either way.
   */
  predicate NotOlder(x: Event, y: Event, parse: string -> Option<int>) {
    if Parses(x, parse) then !Parses(y, parse) || Stamp(x, parse).value >= Stamp(y, parse).value
    else !Parses(y, parse)
  }

  predicate NewestFirst(s: seq<Event>, parse: string -> Option<int>) {
    forall i, j :: 0 <= i < j < |s| ==> NotOlder(s[i], s[j], parse)
  }

  /**
   * When at most one date fails to parse, newest-first order is exactly the
   * order in which the comparator reports no pair out of place.
   */
  lemma NewestFirstIsComparatorOrder(s: seq<Event>, parse: string -> Option<int>)
    requires AtMostOneUnparsed(s, parse)
    ensures NewestFirst(s, parse) <==> forall i, j :: 0 <= i < j < |s| ==> Compare(s[i], s[j], parse) <= 0
  {
    if NewestFirst(s, parse) {
      forall i, j | 0 <= i < j < |s| ensures Compare(s[i], s[j], parse) <= 0 {
        assert NotOlder(s[i], s[j], parse);
      }
    }
  }

  /** In newest-first order no parseable date stands after an unparseable one. */
  lemma NewestFirstUnparsedLast(s: seq<Event>, parse: string -> Option<int>, i: nat, j: nat)
    requires NewestFirst(s, parse) && i < j < |s| && !Parses(s[i], parse)
    ensures !Parses(s[j], parse)
  {
    assert NotOlder(s[i], s[j], parse);
  }

  lemma NotOlderTransitive(x: Event, y: Event, z: Event, parse: string -> Option<int>)
    requires NotOlder(x, y, parse) && NotOlder(y, z, parse)
    ensures NotOlder(x, z, parse)
  {
  }

  /** What one comparison tells the insertion step about the two events. */
  lemma CompareDecides(x: Event, y: Event, parse: string -> Option<int>)
    ensures Compare(x, y, parse) <= 0 ==> NotOlder(x, y, parse)
    ensures Compare(x, y, parse) > 0 ==> NotOlder(y, x, parse)
  {
  }

  /** The first `n` events stand in newest-first order. */
  predicate SortedPrefix(s: seq<Event>, n: nat, parse: string -> Option<int>)
    requires n <= |s|
  {
    forall p, q :: 0 <= p < q < n ==> NotOlder(s[p], s[q], parse)
  }

  /**
   * `events.sort(comparator)` in place: the events are rearranged, never
   * lost or duplicated, and when at most one date fails to parse (so that
   * the comparator is consistent) they end newest first.
   */
  method SortNewestFirst(a: array<Event>, parse: string -> Option<int>)
    modifies a
    ensures multiset(a[..]) == multiset(old(a[..]))
    ensures AtMostOneUnparsed(old(a[..]), parse) ==> NewestFirst(a[..], parse)
  {
    var i := 0;
    while i < a.Length
      invariant 0 <= i <= a.Length
      invariant multiset(a[..]) == multiset(old(a[..]))
      invariant SortedPrefix(a[..], i, parse)
    {
      Insert(a, i, parse);
      i := i + 1;
    }
  }

  /** One insertion step: moves `a[i]` left past every event the comparator puts after it. */
  method Insert(a: array<Event>, i: nat, parse: string -> Option<int>)
    requires i < a.Length && SortedPrefix(a[..], i, parse)
    modifies a
    ensures multiset(a[..]) == multiset(old(a[..]))
    ensures SortedPrefix(a[..], i + 1, parse)
  {
    var j := i;
    InsertingStart(a[..], i, parse);
    while j > 0 && Compare(a[j - 1], a[j], parse) > 0
      invariant 0 <= j <= i < a.Length
      invariant multiset(a[..]) == multiset(old(a[..]))
      invariant Inserting(a[..], j, i, parse)
    {
      CompareDecides(a[j - 1], a[j], parse);
      InsertingStep(a[..], j, i, parse);
      Swap(a, j);
      j := j - 1;
    }
    if j > 0 {
      CompareDecides(a[j - 1], a[j], parse);
    }
    InsertingDone(a[..], j, i, parse);
  }

  /**
   * Halfway through an insertion step: apart from the moving event at `j`,
   * the first `i + 1` events are in order, and the moving event is not
   * older than any event it has passed.
   */
  predicate Inserting(s: seq<Event>, j: nat, i: nat, parse: string -> Option<int>)
    requires j <= i < |s|
  {
    && (forall p, q :: 0 <= p < q <= i && p != j && q != j ==> NotOlder(s[p], s[q], parse))
    && (forall q :: j < q <= i ==> NotOlder(s[j], s[q], parse))
  }

  lemma InsertingStart(s: seq<Event>, i: nat, parse: string -> Option<int>)
    requires i < |s| && SortedPrefix(s, i, parse)
    ensures Inserting(s, i, i, parse)
  {
  }

  lemma InsertingStep(s: seq<Event>, j: nat, i: nat, parse: string -> Option<int>)
    requires 0 < j <= i < |s| && Inserting(s, j, i, parse) && NotOlder(s[j], s[j - 1], parse)
    ensures Inserting(s[j - 1 := s[j]][j := s[j - 1]], j - 1, i, parse)
  {
    var t := s[j - 1 := s[j]][j := s[j - 1]];
    forall p, q | 0 <= p < q <= i && p != j - 1 && q != j - 1
      ensures NotOlder(t[p], t[q], parse)
    {
      if q == j {
        assert t[q] == s[j - 1];
      } else if p == j {
        assert t[p] == s[j - 1];
      }
    }
  }

  lemma InsertingDone(s: seq<Event>, j: nat, i: nat, parse: string -> Option<int>)
    requires j <= i < |s| && Inserting(s, j, i, parse)
    requires j > 0 ==> NotOlder(s[j - 1], s[j], parse)
    ensures SortedPrefix(s, i + 1, parse)
  {
    forall p | 0 <= p < j ensures NotOlder(s[p], s[j], parse) {
      if p < j - 1 {
        NotOlderTransitive(s[p], s[j - 1], s[j], parse);
      }
    }
  }

  /** Exchanges `a[j - 1]` and `a[j]`. */
  method Swap(a: array<Event>, j: nat)
    requires 0 < j < a.Length
    modifies a
    ensures a[..] == old(a[..])[j - 1 := old(a[j])][j := old(a[j - 1])]
    ensures multiset(a[..]) == multiset(old(a[..]))
  {
    a[j - 1], a[j] := a[j], a[j - 1];
  }

  // ---------------------------------------------------------------------
  // Rendering one timeline item
  // ---------------------------------------------------------------------

  /** The parts of a timeline item, in page order. */
  datatype Piece =
    | DateLabel(text: string)   // the date span
    | Heading(value: Prim)      // the artist heading
    | Para(value: Prim)         // a paragraph: event name, location or seat
    | Picture(src: string)      // the image element

  /**
   * `v && v !== 'undefined'`: a non-empty string other than the word
   * `undefined`, a non-zero number, or `true`.
   */
  predicate Shown(v: Prim)
    ensures Shown(v) <==> || (v.Str? && v.s != "" && v.s != "undefined")
                          || (v.Num? && v.n != 0)
                          || v == Bool(true)
  {
    Truthy(v) && v != Str("undefined")
  }

  /**
   * The seat is revealed once a week has passed since the event's date:
   * never when the seat is not displayable or the date does not parse (the
   * reveal date is then invalid), and otherwise exactly from one week after
   * the event's time stamp on.
   */
  predicate SeatRevealed(e: Event, now: int, parse: string -> Option<int>)
    ensures SeatRevealed(e, now, parse) ==> Shown(e.seat) && Parses(e, parse)
    ensures Shown(e.seat) && Parses(e, parse) ==>
              (SeatRevealed(e, now, parse) <==> now - Stamp(e, parse).value >= WeekMs)
  {
    Shown(e.seat) && Stamp(e, parse).Some? && now >= Stamp(e, parse).value + WeekMs
  }

  /** `event.imageUrl && event.imageUrl !== 'images/'` */
  predicate ShowImage(url: string) {
    url != "" && url != ImagesFolder
  }

  /**
   * The pieces of one timeline item. Every item opens with the date, artist
   * and event name; then come the location, the seat and the picture, each
   * exactly when its rule admits it; the picture, if any, is last and shows
   * the event's image reference.
   */
  function RenderItem(e: Event, now: int, parse: string -> Option<int>): (r: seq<Piece>)
    ensures |r| == 3 + (if Shown(e.location) then 1 else 0)
                     + (if SeatRevealed(e, now, parse) then 1 else 0)
                     + (if ShowImage(e.imageUrl) then 1 else 0)
    ensures r[..3] == [DateLabel(e.date), Heading(e.artist), Para(e.eventName)]
    ensures Shown(e.location) ==> r[3] == Para(e.location)
    ensures SeatRevealed(e, now, parse) ==> r[3 + (if Shown(e.location) then 1 else 0)] == Para(e.seat)
    ensures forall k :: 0 <= k < |r| && r[k].Picture? ==> k == |r| - 1 && r[k].src == e.imageUrl
    ensures ShowImage(e.imageUrl) <==> r[|r| - 1] == Picture(e.imageUrl)
  {
    [DateLabel(e.date), Heading(e.artist), Para(e.eventName)]
    + (if Shown(e.location) then [Para(e.location)] else [])
    + (if SeatRevealed(e, now, parse) then [Para(e.seat)] else [])
    + (if ShowImage(e.imageUrl) then [Picture(e.imageUrl)] else [])
  }

  /** The body of the `forEach` callback: the item's content built up piece by piece. */
  method RenderEvent(e: Event, now: int, parse: string -> Option<int>) returns (pieces: seq<Piece>)
    ensures pieces == RenderItem(e, now, parse)
  {
    pieces := [DateLabel(e.date), Heading(e.artist), Para(e.eventName)];
    if Shown(e.location) {
      pieces := pieces + [Para(e.location)];
    }
    if Shown(e.seat) && Stamp(e, parse).Some? {
      if now >= Stamp(e, parse).value + WeekMs {
        pieces := pieces + [Para(e.seat)];
      }
    }
    if ShowImage(e.imageUrl) {
      pieces := pieces + [Picture(e.imageUrl)];
    }
  }

  /** Once revealed, a seat stays revealed at every later time. */
  lemma SeatRevealMonotone(e: Event, now: int, later: int, parse: string -> Option<int>)
    requires SeatRevealed(e, now, parse) && now <= later
    ensures SeatRevealed(e, later, parse)
  {
  }

  /**
   * For an event built from a row, the picture is shown exactly when the
   * trimmed image cell is neither empty nor the bare text `images/`: the
   * folder prefix alone never reaches the guard.
   */
  lemma ImageShownIff(raw: string)
    ensures ShowImage(ResolveImage(raw)) <==> Trim(raw) != "" && Trim(raw) != ImagesFolder
  {
    ResolvePathShown(Trim(raw));
  }

  lemma ResolvePathShown(t: string)
    requires Trimmed(t)
    ensures ShowImage(ResolvePath(t)) <==> t != "" && t != ImagesFolder
  {
    var r := ResolvePath(t);
    assert ImagesFolder[6] == '/';
    if t != "" && IsWebUrl(t) {
      assert !IsWebUrl(ImagesFolder) by {
        assert AsciiLower(ImagesFolder[0]) != 'h';
      }
    } else if t != "" && '/' !in t {
      assert |r| > |ImagesFolder|;
    }
  }

  /**
   * A location read by `getCellValue` is shown exactly when its text is
   * neither empty nor the word `undefined`.
   */
  lemma LocationShownFromCell(c: CellValue)
    ensures Shown(CellText(c)) <==> PrimToString(CellText(c)) != "" && PrimToString(CellText(c)) != "undefined"
  {
    var v := CellText(c);
    if v.Num? {
      assert PrimToString(v)[0] != 'u';
    }
  }

  // ---------------------------------------------------------------------
  // The timeline page
  // ---------------------------------------------------------------------

  /** The items of the timeline, one per event, in order. */
  function RenderAll(s: seq<Event>, now: int, parse: string -> Option<int>): seq<seq<Piece>> {
    seq(|s|, i requires 0 <= i < |s| => RenderItem(s[i], now, parse))
  }

  /** `events.forEach(...)`: one item appended to the container per event. */
  method RenderTimeline(events: array<Event>, now: int, parse: string -> Option<int>) returns (items: seq<seq<Piece>>)
    ensures items == RenderAll(events[..], now, parse)
  {
    items := [];
    var i := 0;
    while i < events.Length
      invariant 0 <= i <= events.Length
      invariant items == RenderAll(events[..i], now, parse)
    {
      var pieces := RenderEvent(events[i], now, parse);
      items := items + [pieces];
      i := i + 1;
    }
    assert events[..i] == events[..];
  }

  /** What the timeline container finally holds. */
  datatype Page =
    | Untouched                  // there is no timeline container
    | ErrorNote(cause: LoadError) // the red error paragraph
    | NoEvents                   // the "no events found" paragraph
    | Items(items: seq<seq<Piece>>)

  /**
   * The whole load. `fetched` stands for the download and workbook parse
   * of the first worksheet, `now` for the current time and `parse` for the
   * date parser. Also returns the sorted events.
   */
  method LoadTimeline(hasContainer: bool, fetched: Result<seq<Row>, string>, now: int, parse: string -> Option<int>)
    returns (page: Page, events: seq<Event>)
    ensures !hasContainer ==> page == Untouched
    ensures hasContainer && fetched.Err? ==> page == ErrorNote(FetchFailed(fetched.error))
    ensures hasContainer && fetched.Ok? && Collect(fetched.value).Err? ==>
              page == ErrorNote(Collect(fetched.value).error)
    ensures hasContainer && fetched.Ok? && Collect(fetched.value).Ok? ==>
              var collected := Collect(fetched.value).value;
              && multiset(events) == multiset(collected)
              && (AtMostOneUnparsed(collected, parse) ==> NewestFirst(events, parse))
              && page == (if collected == [] then NoEvents else Items(RenderAll(events, now, parse)))
  {
    events := [];
    if !hasContainer {
      return Untouched, events;
    }
    if fetched.Err? {
      return ErrorNote(FetchFailed(fetched.error)), events;
    }
    var collected := CollectEvents(RowStep, fetched.value);
    if collected.Err? {
      return ErrorNote(collected.error), events;
    }
    var es := collected.value;
    var a := new Event[|es|](i requires 0 <= i < |es| => es[i]);
    assert a[..] == es;
    SortNewestFirst(a, parse);
    events := a[..];
    if a.Length == 0 {
      page := NoEvents;
    } else {
      var items := RenderTimeline(a, now, parse);
      page := Items(items);
    }
  }
}
