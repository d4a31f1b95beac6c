/**
 * The JavaScript string primitives the timeline script relies on:
 * `includes`, first-occurrence `replace`, `trim`, and integer-to-text
 * conversion (`String(n)`, `padStart(2, '0')`).
 */
module Text {
  import opened Wrappers

  // ---------------------------------------------------------------------
  // Substring search
  // ---------------------------------------------------------------------

  /** `pat` occurs in `s` starting at index `i`. */
  predicate OccursAt(s: string, pat: string, i: nat) {
    i + |pat| <= |s| && s[i..i + |pat|] == pat
  }

  /** `p` is the leftmost occurrence of `pat` in `s`. */
  predicate FirstAt(s: string, pat: string, p: nat) {
    OccursAt(s, pat, p) && forall j :: 0 <= j < p ==> !OccursAt(s, pat, j)
  }

  /** The leftmost occurrence of `pat` in `s` at or after index `k`. */
  function FindFrom(s: string, pat: string, k: nat): (r: Option<nat>)
    decreases |s| - k
    ensures r.Some? ==> k <= r.value && OccursAt(s, pat, r.value)
    ensures r.Some? ==> forall j :: k <= j < r.value ==> !OccursAt(s, pat, j)
    ensures r.None? ==> forall j :: k <= j ==> !OccursAt(s, pat, j)
  {
    if OccursAt(s, pat, k) then Some(k)
    else if |s| <= k + |pat| then None
    else FindFrom(s, pat, k + 1)
  }

  /** `s.includes(pat)` */
  function Contains(s: string, pat: string): (b: bool)
    ensures b <==> exists i :: OccursAt(s, pat, i)
    ensures b <==> exists p :: FirstAt(s, pat, p)
  {
    var r := FindFrom(s, pat, 0);
    if r.Some? then assert FirstAt(s, pat, r.value); true
    else false
  }

  /** `s.replace(from, to)` with a string pattern: only the first occurrence is replaced. */
  function ReplaceFirst(s: string, from: string, to: string): (r: string)
    ensures forall p: nat :: FirstAt(s, from, p) ==> r == s[..p] + to + s[p + |from|..]
    ensures !Contains(s, from) ==> r == s
  {
    match FindFrom(s, from, 0)
    case None =>
      assert forall p: nat :: !FirstAt(s, from, p);
      s
    case Some(p) =>
      assert FirstAt(s, from, p);
      s[..p] + to + s[p + |from|..]
  }

  /**
   * When the first character of `pat` occurs nowhere else in `pat` and `b`
   * starts with that character, an occurrence of `pat` in `a + b` lies wholly
   * inside `a` or wholly inside `b`.
   */
  lemma {:induction false} SplitOccurrence(a: string, b: string, pat: string, q: nat)
    requires |pat| > 0 && OccursAt(a + b, pat, q)
    requires forall k :: 0 < k < |pat| ==> pat[k] != pat[0]
    requires b != [] ==> b[0] == pat[0]
    ensures OccursAt(a, pat, q) || (|a| <= q && OccursAt(b, pat, q - |a|))
  {
    var s := a + b;
    if q < |a| < q + |pat| {
      OccurrenceChar(s, pat, q, |a| - q);
      assert false;
    } else if q + |pat| <= |a| {
      assert s[q..q + |pat|] == a[q..q + |pat|];
    } else {
      assert s[q..q + |pat|] == b[q - |a|..q - |a| + |pat|];
    }
  }

  lemma OccurrenceChar(s: string, pat: string, q: nat, k: nat)
    requires OccursAt(s, pat, q) && k < |pat|
    ensures s[q + k] == pat[k]
  {
    assert s[q..q + |pat|][k] == pat[k];
  }

  /** A pattern holding a character that `s` lacks never occurs in `s`. */
  lemma AbsentChar(s: string, pat: string, k: nat)
    requires k < |pat| && pat[k] !in s
    ensures !Contains(s, pat)
  {
    forall q: nat | OccursAt(s, pat, q) ensures false {
      OccurrenceChar(s, pat, q, k);
    }
  }

  /** An occurrence of `pat` in a slice of `s` is an occurrence in `s`. */
  lemma OccursInSlice(s: string, lo: nat, hi: nat, pat: string, q: nat)
    requires lo <= hi <= |s| && OccursAt(s[lo..hi], pat, q)
    ensures OccursAt(s, pat, lo + q)
  {
    forall k | 0 <= k < |pat|
      ensures s[lo + q..lo + q + |pat|][k] == pat[k]
    {
      assert s[lo..hi][q..q + |pat|][k] == pat[k];
    }
  }

  // ---------------------------------------------------------------------
  // Whitespace and trim (ECMAScript WhiteSpace and LineTerminator)
  // ---------------------------------------------------------------------

  /** LF, CR, LINE SEPARATOR, PARAGRAPH SEPARATOR: the characters a regex `.` does not match. */
  predicate IsLineTerminator(c: char) {
    c == '\n' || c == '\r' || c == '\U{2028}' || c == '\U{2029}'
  }

  /** What `String.prototype.trim` strips: tab, VT, FF, ZWNBSP, every space separator, and line terminators. */
  predicate IsWhiteSpace(c: char) {
    || c == '\t' || c == '\U{000B}' || c == '\U{000C}' || c == '\U{FEFF}'
    || c == ' ' || c == '\U{00A0}' || c == '\U{1680}' || ('\U{2000}' <= c <= '\U{200A}')
    || c == '\U{202F}' || c == '\U{205F}' || c == '\U{3000}'
    || IsLineTerminator(c)
  }

  predicate AllWhiteSpace(s: string) {
    forall i :: 0 <= i < |s| ==> IsWhiteSpace(s[i])
  }

  /** `s` has no whitespace at either end. */
  predicate Trimmed(s: string) {
    s != [] ==> !IsWhiteSpace(s[0]) && !IsWhiteSpace(s[|s| - 1])
  }

  /** `s` with its leading whitespace removed. */
  function TrimStart(s: string): (r: string)
    ensures |r| <= |s| && r == s[|s| - |r|..]
    ensures AllWhiteSpace(s[..|s| - |r|])
    ensures r != [] ==> !IsWhiteSpace(r[0])
  {
    if |s| > 0 && IsWhiteSpace(s[0]) then
      var r := TrimStart(s[1..]);
      assert s[..|s| - |r|] == [s[0]] + s[1..][..|s| - 1 - |r|];
      r
    else s
  }

  /** `s` with its trailing whitespace removed. */
  function TrimEnd(s: string): (r: string)
    ensures |r| <= |s| && r == s[..|r|]
    ensures AllWhiteSpace(s[|r|..])
    ensures r != [] ==> !IsWhiteSpace(r[|r| - 1])
  {
    if |s| > 0 && IsWhiteSpace(s[|s| - 1]) then
      var r := TrimEnd(s[..|s| - 1]);
      assert s[|r|..] == s[..|s| - 1][|r|..] + [s[|s| - 1]];
      r
    else s
  }

  /** `s.trim()`: `s` with its leading and trailing whitespace removed. */
  function Trim(s: string): (r: string)
    ensures Trimmed(r)
    ensures r == [] <==> AllWhiteSpace(s)
  {
    var t := TrimStart(s);
    var r := TrimEnd(t);
    TrimEnds(s, t, r);
    r
  }

  /** Trim cuts only whitespace, and only at the two ends: what is left is a slice of `s`. */
  lemma TrimIsSlice(s: string) returns (lo: nat)
    ensures lo + |Trim(s)| <= |s| && Trim(s) == s[lo..lo + |Trim(s)|]
    ensures AllWhiteSpace(s[..lo]) && AllWhiteSpace(s[lo + |Trim(s)|..])
  {
    var t := TrimStart(s);
    var r := TrimEnd(t);
    lo := |s| - |t|;
    TrimSlices(s, t, r);
    assert Trim(s) == r;
  }

  /** The two cuts of Trim, the leading one giving `t` and the trailing one `r`, leave no whitespace at either end. */
  lemma TrimEnds(s: string, t: string, r: string)
    requires |t| <= |s| && t == s[|s| - |t|..] && AllWhiteSpace(s[..|s| - |t|])
    requires t != [] ==> !IsWhiteSpace(t[0])
    requires |r| <= |t| && r == t[..|r|] && AllWhiteSpace(t[|r|..])
    requires r != [] ==> !IsWhiteSpace(r[|r| - 1])
    ensures Trimmed(r)
    ensures r == [] <==> AllWhiteSpace(s)
  {
    if r == [] {
      assert t == [];
      forall i | 0 <= i < |s| ensures IsWhiteSpace(s[i]) {
        assert s[..|s| - |t|][i] == s[i];
      }
    } else {
      assert r[0] == t[0] == s[|s| - |t|];
    }
  }

  /** The two cuts of Trim leave a slice of `s` with whitespace on both cut sides. */
  lemma TrimSlices(s: string, t: string, r: string)
    requires |t| <= |s| && t == s[|s| - |t|..] && AllWhiteSpace(s[..|s| - |t|])
    requires |r| <= |t| && r == t[..|r|] && AllWhiteSpace(t[|r|..])
    ensures var lo := |s| - |t|;
            lo + |r| <= |s| && r == s[lo..lo + |r|]
            && AllWhiteSpace(s[..lo]) && AllWhiteSpace(s[lo + |r|..])
  {
    var lo := |s| - |t|;
    assert s[lo + |r|..] == t[|r|..];
  }

  /** `!s || s.trim() === ''`: the text is empty or all whitespace. */
  predicate IsBlank(s: string)
    ensures s == "" ==> IsBlank(s)
    ensures IsBlank(s) <==> AllWhiteSpace(s)
  {
    Trim(s) == ""
  }

  /** Trim leaves a string that has no whitespace at either end unchanged. */
  lemma TrimUnchanged(s: string)
    requires Trimmed(s)
    ensures Trim(s) == s
  {
    assert TrimStart(s) == s;
  }

  // ---------------------------------------------------------------------
  // Decimal text of integers
  // ---------------------------------------------------------------------

  predicate IsDigit(c: char) {
    '0' <= c <= '9'
  }

  function DigitChar(d: nat): (c: char)
    requires d < 10
    ensures IsDigit(c)
  {
    (('0' as int) + d) as char
  }

  function DigitValue(c: char): (d: nat)
    ensures d < 10
  {
    if IsDigit(c) then (c as int) - ('0' as int) else 0
  }

  /** Decimal digits of `n`, with no leading zero (`String(n)` for a non-negative integer). */
  function NatToString(n: nat): (r: string)
    ensures |r| >= 1 && forall i :: 0 <= i < |r| ==> IsDigit(r[i])
    ensures r[0] == '0' ==> n == 0
  {
    if n < 10 then [DigitChar(n)] else NatToString(n / 10) + [DigitChar(n % 10)]
  }

  /** The value of a string of decimal digits. */
  function DigitsValue(s: string): nat {
    if s == [] then 0 else DigitsValue(s[..|s| - 1]) * 10 + DigitValue(s[|s| - 1])
  }

  /** `String(i)` for an integer-valued number. */
  function IntToString(i: int): (r: string)
    ensures |r| >= 1 && (r[0] != '-' ==> IsDigit(r[0]))
  {
    if i < 0 then "-" + NatToString(-i) else NatToString(i)
  }

  /** Reads back what IntToString writes. */
  function ParseInt(s: string): int {
    if |s| > 0 && s[0] == '-' then -(DigitsValue(s[1..]) as int) else DigitsValue(s)
  }

  lemma {:induction false} NatToStringRoundTrip(n: nat)
    ensures DigitsValue(NatToString(n)) == n
  {
    var r := NatToString(n);
    if n >= 10 {
      NatToStringRoundTrip(n / 10);
      assert r[..|r| - 1] == NatToString(n / 10);
    }
  }

  lemma IntToStringRoundTrip(i: int)
    ensures ParseInt(IntToString(i)) == i
  {
    if i < 0 {
      assert IntToString(i)[1..] == NatToString(-i);
      NatToStringRoundTrip(-i);
    } else {
      NatToStringRoundTrip(i);
    }
  }

  /** `String(n).padStart(2, '0')` */
  function Pad2(n: nat): (r: string)
    ensures n < 100 ==> |r| == 2 && DigitsValue(r) == n
    ensures forall i :: 0 <= i < |r| ==> IsDigit(r[i])
  {
    var t := NatToString(n);
    NatToStringRoundTrip(n);
    if |t| < 2 then
      assert ("0" + t)[..1] == "0";
      "0" + t
    else t
  }
}
