/**
 * The spreadsheet URL resolver (`getExportUrl`): turns a "published to web"
 * or an "edit" spreadsheet link into one that downloads the workbook as xlsx.
 */
module SheetUrl {
  import opened Wrappers
  import opened Text

  const PubHtml := "/pubhtml"
  const PubXlsx := "/pub?output=xlsx"
  const Edit := "/edit"
  const ExportXlsx := "/export?format=xlsx"

  /**
   * Where a regex `.*` that starts at `i` stops matching: the first line
   * terminator at or after `i`, or the end of `s`.
   */
  function LineEnd(s: string, i: nat): (j: nat)
    requires i <= |s|
    decreases |s| - i
    ensures i <= j <= |s|
    ensures forall k :: i <= k < j ==> !IsLineTerminator(s[k])
    ensures j < |s| ==> IsLineTerminator(s[j])
  {
    if i == |s| || IsLineTerminator(s[i]) then i else LineEnd(s, i + 1)
  }

  /**
   * `getExportUrl`: the first `/pubhtml` becomes `/pub?output=xlsx`; failing
   * that, the first `/edit` and the rest of its line become
   * `/export?format=xlsx`; any other URL is returned as it is.
   */
  function GetExportUrl(url: string): (r: string)
    ensures forall p: nat :: FirstAt(url, PubHtml, p) ==>
              r == url[..p] + PubXlsx + url[p + |PubHtml|..]
    ensures !Contains(url, PubHtml) ==>
              forall p: nat :: FirstAt(url, Edit, p) ==>
                r == url[..p] + ExportXlsx + url[LineEnd(url, p + |Edit|)..]
    ensures !Contains(url, PubHtml) && !Contains(url, Edit) ==> r == url
  {
    if Contains(url, PubHtml) then ReplaceFirst(url, PubHtml, PubXlsx)
    else
      match FindFrom(url, Edit, 0)
      case Some(p) =>
        assert FirstAt(url, Edit, p);
        url[..p] + ExportXlsx + url[LineEnd(url, p + |Edit|)..]
      case None => url
  }

  predicate SingleLine(s: string) {
    forall k :: 0 <= k < |s| ==> !IsLineTerminator(s[k])
  }

  /** On a one-line edit URL, everything from the first `/edit` to the end is replaced. */
  lemma EditTailReplaced(url: string, p: nat)
    requires SingleLine(url) && !Contains(url, PubHtml) && FirstAt(url, Edit, p)
    ensures GetExportUrl(url) == url[..p] + ExportXlsx
  {
    assert LineEnd(url, p + |Edit|) == |url|;
  }

  /** A URL already rewritten from an edit link is left alone by a second rewrite. */
  lemma EditExportFixedPoint(url: string)
    requires SingleLine(url) && !Contains(url, PubHtml) && Contains(url, Edit)
    ensures GetExportUrl(GetExportUrl(url)) == GetExportUrl(url)
  {
    var p: nat :| FirstAt(url, Edit, p);
    EditTailReplaced(url, p);
    EditExportClean(url, p);
  }

  /** The rewritten edit URL holds neither `/pubhtml` nor `/edit`. */
  lemma EditExportClean(url: string, p: nat)
    requires !Contains(url, PubHtml) && FirstAt(url, Edit, p)
    ensures !Contains(url[..p] + ExportXlsx, PubHtml)
    ensures !Contains(url[..p] + ExportXlsx, Edit)
  {
    CutClean(url, p, PubHtml, 4);
    CutClean(url, p, Edit, 3);
  }

  /**
   * Cutting `url` at `p` and appending the export suffix creates no
   * occurrence of a `/`-led pattern that the suffix lacks a character of.
   */
  lemma CutClean(url: string, p: nat, pat: string, k: nat)
    requires p <= |url| && |pat| > 0 && pat[0] == '/'
    requires forall i :: 0 < i < |pat| ==> pat[i] != '/'
    requires forall j :: 0 <= j < p ==> !OccursAt(url, pat, j)
    requires k < |pat| && pat[k] !in ExportXlsx
    ensures !Contains(url[..p] + ExportXlsx, pat)
  {
    var a := url[..p];
    var r := a + ExportXlsx;
    AbsentChar(ExportXlsx, pat, k);
    forall q: nat | OccursAt(r, pat, q) ensures false {
      SplitOccurrence(a, ExportXlsx, pat, q);
      if OccursAt(a, pat, q) {
        OccursInSlice(url, 0, p, pat, q);
      }
    }
  }

  /**
   * A published URL holding `/pubhtml` once comes out with no `/pubhtml`
   * left and with the xlsx export request in its place.
   */
  lemma PubHtmlRewritten(url: string, p: nat)
    requires FirstAt(url, PubHtml, p) && !Contains(url[p + |PubHtml|..], PubHtml)
    ensures !Contains(GetExportUrl(url), PubHtml)
    ensures OccursAt(GetExportUrl(url), PubXlsx, p)
  {
    var a, rest := url[..p], url[p + |PubHtml|..];
    var r := a + PubXlsx + rest;
    assert GetExportUrl(url) == r;
    assert r[p..p + |PubXlsx|] == PubXlsx;
    assert r == a + (PubXlsx + rest);
    PubHtmlClean(url, p);
  }

  lemma PubHtmlClean(url: string, p: nat)
    requires FirstAt(url, PubHtml, p) && !Contains(url[p + |PubHtml|..], PubHtml)
    ensures !Contains(url[..p] + (PubXlsx + url[p + |PubHtml|..]), PubHtml)
  {
    var a, rest := url[..p], url[p + |PubHtml|..];
    var tail := PubXlsx + rest;
    var r := a + tail;
    forall q: nat | OccursAt(r, PubHtml, q) ensures false {
      SplitOccurrence(a, tail, PubHtml, q);
      if OccursAt(a, PubHtml, q) {
        OccursInSlice(url, 0, p, PubHtml, q);
      } else {
        TailHasNoPubHtml(rest, q - |a|);
      }
    }
  }

  lemma TailHasNoPubHtml(rest: string, q: nat)
    requires !Contains(rest, PubHtml)
    ensures !OccursAt(PubXlsx + rest, PubHtml, q)
  {
    var t := PubXlsx + rest;
    if OccursAt(t, PubHtml, q) {
      if q < |PubXlsx| {
        OccurrenceChar(t, PubHtml, q, 0);
        assert PubXlsx[q] == '/';
        assert q == 0;
        OccurrenceChar(t, PubHtml, q, 4);
        assert false;
      } else {
        assert t[q..q + |PubHtml|] == rest[q - |PubXlsx|..q - |PubXlsx| + |PubHtml|];
        assert OccursAt(rest, PubHtml, q - |PubXlsx|);
        assert false;
      }
    }
  }
}
