/**
 * The link normalizer (`convertDriveLink`) and the profile-avatar rewrite
 * (`updateProfileImage`): a cloud-storage sharing link carrying a file
 * identifier of 25 or more `[-A-Za-z0-9_]` characters becomes a direct
 * content URL built from that identifier.
 */
module DriveLink {
  import opened Wrappers
  import opened Text

  const Host := "https://lh3.googleusercontent.com"
  const DirectPrefix := Host + "/d/"
  const FilePath := "/file/d/"
  const DriveHost := "drive.google.com"
  const DocsHost := "docs.google.com"
  /** The `{25,}` bound of both identifier patterns. */
  const MinIdLength := 25

  /** The regex class `[-\w]` (no Unicode flag): ASCII letters, digits, `_` and `-`. */
  predicate IsIdChar(c: char) {
    || 'A' <= c <= 'Z' || 'a' <= c <= 'z' || '0' <= c <= '9' || c == '_' || c == '-'
  }

  /** Length of the maximal run of identifier characters starting at `i`. */
  function RunLen(s: string, i: nat): (n: nat)
    requires i <= |s|
    decreases |s| - i
    ensures i + n <= |s|
    ensures forall k :: i <= k < i + n ==> IsIdChar(s[k])
    ensures i + n == |s| || !IsIdChar(s[i + n])
  {
    if i < |s| && IsIdChar(s[i]) then 1 + RunLen(s, i + 1) else 0
  }

  /** The maximal run of identifier characters starting at `i`: what a greedy `[-\w]{25,}` captures there. */
  function IdRun(s: string, i: nat): string
    requires i <= |s|
  {
    s[i..i + RunLen(s, i)]
  }

  /** `/\/file\/d\/([-\w]{25,})/` matches at `p`. */
  predicate FileMatchAt(s: string, p: nat) {
    OccursAt(s, FilePath, p) && RunLen(s, p + |FilePath|) >= MinIdLength
  }

  /** `/[-\w]{25,}/` matches at `p`. */
  predicate IdMatchAt(s: string, p: nat) {
    p <= |s| && RunLen(s, p) >= MinIdLength
  }

  predicate FirstFileMatch(s: string, p: nat) {
    FileMatchAt(s, p) && forall q :: 0 <= q < p ==> !FileMatchAt(s, q)
  }

  predicate FirstIdMatch(s: string, p: nat) {
    IdMatchAt(s, p) && forall q :: 0 <= q < p ==> !IdMatchAt(s, q)
  }

  ghost predicate NoFileMatch(s: string) {
    forall p: nat :: !FileMatchAt(s, p)
  }

  ghost predicate NoIdMatch(s: string) {
    forall p: nat :: !IdMatchAt(s, p)
  }

  /** The URL names one of the two cloud document hosts. */
  predicate IsDriveHost(s: string) {
    Contains(s, DriveHost) || Contains(s, DocsHost)
  }

  /** Leftmost file-link match at or after `k` (the regex engine's left-to-right scan). */
  function FindFileMatch(s: string, k: nat): (r: Option<nat>)
    decreases |s| - k
    ensures r.Some? ==> k <= r.value && FileMatchAt(s, r.value)
    ensures r.Some? ==> forall j :: k <= j < r.value ==> !FileMatchAt(s, j)
    ensures r.None? ==> forall j :: k <= j ==> !FileMatchAt(s, j)
  {
    if FileMatchAt(s, k) then Some(k)
    else if |s| <= k then None
    else FindFileMatch(s, k + 1)
  }

  /** Leftmost identifier-run match at or after `k`. */
  function FindIdMatch(s: string, k: nat): (r: Option<nat>)
    decreases |s| - k
    ensures r.Some? ==> k <= r.value && IdMatchAt(s, r.value)
    ensures r.Some? ==> forall j :: k <= j < r.value ==> !IdMatchAt(s, j)
    ensures r.None? ==> forall j :: k <= j ==> !IdMatchAt(s, j)
  {
    if IdMatchAt(s, k) then Some(k)
    else if |s| <= k then None
    else FindIdMatch(s, k + 1)
  }

  /**
   * `convertDriveLink`: the leftmost `/file/d/<id>` wins; failing that, a link
   * on a cloud document host yields its leftmost identifier run; every other
   * input (the empty one included) is returned unchanged.
   */
  function ConvertDriveLink(url: string): (r: string)
    ensures url == "" ==> r == url
    ensures forall p: nat :: FirstFileMatch(url, p) ==>
              r == DirectPrefix + IdRun(url, p + |FilePath|)
    ensures NoFileMatch(url) && IsDriveHost(url) ==>
              forall q: nat :: FirstIdMatch(url, q) ==> r == DirectPrefix + IdRun(url, q)
    ensures NoFileMatch(url) && (!IsDriveHost(url) || NoIdMatch(url)) ==> r == url
  {
    if url == "" then url
    else
      match FindFileMatch(url, 0)
      case Some(p) =>
        assert FirstFileMatch(url, p);
        assert forall p': nat :: FirstFileMatch(url, p') ==> p' == p;
        DirectPrefix + IdRun(url, p + |FilePath|)
      case None =>
        if IsDriveHost(url) then
          match FindIdMatch(url, 0)
          case Some(q) =>
            assert FirstIdMatch(url, q);
            assert forall q': nat :: FirstIdMatch(url, q') ==> q' == q;
            DirectPrefix + IdRun(url, q)
          case None => url
        else url
  }

  /**
   * The leftmost `[-\w]{25,}` match starts a maximal run: the character
   * before it, if any, is not an identifier character.
   */
  lemma FirstIdMatchIsMaximal(s: string, q: nat)
    requires FirstIdMatch(s, q)
    ensures q > 0 ==> !IsIdChar(s[q - 1])
    ensures |IdRun(s, q)| >= MinIdLength
  {
    if q > 0 {
      assert !IdMatchAt(s, q - 1);
    }
  }

  /**
   * `updateProfileImage`: the new avatar source, or None when the `src`
   * attribute is left as it is. Only the file-link half of the rule applies,
   * and only on the two cloud document hosts.
   */
  function AvatarSource(src: Option<string>): (r: Option<string>)
    ensures r.Some? ==> src.Some? && r.value == ConvertDriveLink(src.value)
    ensures r.Some? <==> src.Some? && IsDriveHost(src.value) && !NoFileMatch(src.value)
  {
    match src
    case None => None
    case Some(s) =>
      if s != "" && IsDriveHost(s) then
        match FindFileMatch(s, 0)
        case Some(p) =>
          assert FirstFileMatch(s, p);
          Some(DirectPrefix + IdRun(s, p + |FilePath|))
        case None => None
      else None
  }

  /**
   * No pattern that holds a character absent from Host, followed at least
   * three places later by a non-identifier character, occurs in a direct
   * content URL.
   */
  lemma NotInDirectUrl(id: string, pat: string, k: nat, m: nat)
    requires forall i :: 0 <= i < |id| ==> IsIdChar(id[i])
    requires k + 3 <= m < |pat| && pat[k] !in Host && !IsIdChar(pat[m])
    ensures !Contains(DirectPrefix + id, pat)
  {
    var s := DirectPrefix + id;
    forall q: nat | OccursAt(s, pat, q) ensures false {
      OccurrenceChar(s, pat, q, k);
      OccurrenceChar(s, pat, q, m);
    }
  }

  /** A direct content URL is a fixed point of the conversion. */
  lemma DirectUrlUnchanged(id: string)
    requires forall i :: 0 <= i < |id| ==> IsIdChar(id[i])
    ensures ConvertDriveLink(DirectPrefix + id) == DirectPrefix + id
  {
    var url := DirectPrefix + id;
    NotInDirectUrl(id, FilePath, 1, 5);
    DirectUrlOffHost(id);
    UnchangedWithoutMatch(url);
  }

  /** A direct content URL names neither cloud document host. */
  lemma DirectUrlOffHost(id: string)
    requires forall i :: 0 <= i < |id| ==> IsIdChar(id[i])
    ensures !IsDriveHost(DirectPrefix + id)
  {
    assert !Contains(DirectPrefix + id, DriveHost) by {
      NotInDirectUrl(id, DriveHost, 2, 5);
    }
    assert !Contains(DirectPrefix + id, DocsHost) by {
      NotInDirectUrl(id, DocsHost, 0, 4);
    }
  }

  lemma UnchangedWithoutMatch(url: string)
    requires !Contains(url, FilePath) && !IsDriveHost(url)
    ensures ConvertDriveLink(url) == url
  {
    assert NoFileMatch(url);
  }

  /** `r` is a direct content URL: the direct prefix followed by identifier characters. */
  predicate IsDirectUrl(r: string) {
    |DirectPrefix| <= |r| && r[..|DirectPrefix|] == DirectPrefix
    && forall i :: |DirectPrefix| <= i < |r| ==> IsIdChar(r[i])
  }

  lemma DirectUrlForm(id: string)
    requires forall i :: 0 <= i < |id| ==> IsIdChar(id[i])
    ensures IsDirectUrl(DirectPrefix + id)
  {
    var r := DirectPrefix + id;
    assert r[..|DirectPrefix|] == DirectPrefix;
    forall i | |DirectPrefix| <= i < |r| ensures IsIdChar(r[i]) {
      assert r[i] == id[i - |DirectPrefix|];
    }
  }

  /** The conversion either leaves the link as it is or yields a direct content URL. */
  lemma ConvertDriveLinkForm(url: string)
    ensures ConvertDriveLink(url) == url || IsDirectUrl(ConvertDriveLink(url))
  {
    if url != "" {
      match FindFileMatch(url, 0)
      case Some(p) =>
        assert FirstFileMatch(url, p);
        DirectUrlForm(IdRun(url, p + |FilePath|));
      case None =>
        if IsDriveHost(url) {
          match FindIdMatch(url, 0)
          case Some(q) =>
            assert FirstIdMatch(url, q);
            DirectUrlForm(IdRun(url, q));
          case None =>
        }
    }
  }

  /** A direct content URL is a fixed point of the conversion. */
  lemma DirectUrlFixed(r: string)
    requires IsDirectUrl(r)
    ensures ConvertDriveLink(r) == r
  {
    var id := r[|DirectPrefix|..];
    assert r == DirectPrefix + id;
    DirectUrlUnchanged(id);
  }

  /** Converting a converted link changes nothing. */
  lemma ConvertDriveLinkIdempotent(url: string)
    ensures ConvertDriveLink(ConvertDriveLink(url)) == ConvertDriveLink(url)
  {
    ConvertDriveLinkForm(url);
    if ConvertDriveLink(url) != url {
      DirectUrlFixed(ConvertDriveLink(url));
    }
  }
}
