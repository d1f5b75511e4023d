/**
 * The date and string helpers of `backend/utils/helpers.py`. The clock is a
 * parameter: `today` is the ordinal of `datetime.now().date()`. Python's
 * `None` argument is `Common.None`; every parse failure the helpers catch
 * with a bare `except` is `Dates.ParseDate` returning `None`.
 */
module Helpers {
  import opened Common
  import opened Dates

  const MonthNames := ["January", "February", "March", "April", "May", "June", "July",
                       "August", "September", "October", "November", "December"]

  /** `strftime('%B %d, %Y')`; glibc writes the year without zero padding. */
  function LongDate(d: Date): string
    requires ValidDate(d)
  {
    MonthNames[d.month - 1] + " " + Digits2(d.day) + ", " + NatToString(d.year)
  }

  /** `format_date`: the long form of a parseable date, the input itself otherwise. */
  function FormatDate(s: Option<string>): (r: Option<string>)
    ensures s.None? ==> r.None?
    ensures s.Some? && ParseDate(s.value).None? ==> r == s
    ensures s.Some? && ParseDate(s.value).Some? ==> r == Some(LongDate(ParseDate(s.value).value))
  {
    match s
    case None => None
    case Some(text) =>
      match ParseDate(text)
      case None => s
      case Some(d) => Some(LongDate(d))
  }

  /** A date the database stored is always formatted, never passed through. */
  lemma FormatStoredDate(d: Date)
    requires ValidDate(d)
    ensures FormatDate(Some(IsoFormat(d))) == Some(LongDate(d))
    ensures FormatDate(Some(IsoFormat(d))) != Some(IsoFormat(d))
  {
    ParseIsoFormat(d);
    var long := LongDate(d);
    assert long[|MonthNames[d.month - 1]|] == ' ';
    assert IsoFormat(d)[|MonthNames[d.month - 1]|] != ' ' by {
      assert IsoFormat(d) == Digits4(d.year) + "-" + Digits2(d.month) + "-" + Digits2(d.day);
      assert 3 <= |MonthNames[d.month - 1]| <= 9;
    }
  }

  /** `calculate_days_overdue`: whole days past the due date, 0 if not late or unparseable. */
  function CalculateDaysOverdue(due: Option<string>, today: int): (r: int)
    ensures r >= 0
    ensures (due.None? || ParseDate(due.value).None?) ==> r == 0
    ensures due.Some? && ParseDate(due.value).Some? ==>
              var o := Ordinal(ParseDate(due.value).value);
              (r > 0 <==> today > o) && (r > 0 ==> o + r == today)
  {
    match due
    case None => 0
    case Some(text) =>
      match ParseDate(text)
      case None => 0
      case Some(d) => if today > Ordinal(d) then today - Ordinal(d) else 0
  }

  /** `is_valid_date`: `strptime` accepts the text. */
  function IsValidDate(s: Option<string>): (r: bool)
    ensures r ==> s.Some? && ParseDate(s.value).Some? && ValidDate(ParseDate(s.value).value)
  {
    s.Some? && ParseDate(s.value).Some?
  }

  /** Every date the database stores is a valid date string, and 29 February 2023 is not. */
  lemma IsValidDateExamples(d: Date)
    requires ValidDate(d)
    ensures IsValidDate(Some(IsoFormat(d)))
    ensures !IsValidDate(Some("2023-02-29"))
    ensures !IsValidDate(None)
  {
    ParseIsoFormat(d);
    ParseRefusesFebruary29InCommonYear();
  }

  // ---------------------------------------------------------------------------
  // sanitize_string
  // ---------------------------------------------------------------------------

  /** The characters Python's `str.strip()` removes (`str.isspace()`). */
  predicate IsSpace(c: char) {
    || ('\t' <= c <= '\r') || ('\U{1C}' <= c <= '\U{1F}') || c == ' '
    || c == '\U{85}' || c == '\U{A0}' || c == '\U{1680}' || ('\U{2000}' <= c <= '\U{200A}')
    || c == '\U{2028}' || c == '\U{2029}' || c == '\U{202F}' || c == '\U{205F}' || c == '\U{3000}'
  }

  function TrimStart(s: string): (r: string)
    ensures |r| <= |s| && r == s[|s| - |r|..]
    ensures forall i :: 0 <= i < |s| - |r| ==> IsSpace(s[i])
    ensures r == [] || !IsSpace(r[0])
  {
    if s != [] && IsSpace(s[0]) then TrimStart(s[1..]) else s
  }

  function TrimEnd(s: string): (r: string)
    ensures |r| <= |s| && r == s[..|r|]
    ensures forall i :: |r| <= i < |s| ==> IsSpace(s[i])
    ensures r == [] || !IsSpace(r[|r| - 1])
  {
    if s != [] && IsSpace(s[|s| - 1]) then TrimEnd(s[..|s| - 1]) else s
  }

  /** `str.strip()`: whitespace removed from both ends. */
  function Strip(s: string): string {
    TrimEnd(TrimStart(s))
  }

  /** The stripped text is a slice of `s`, starting after the leading whitespace. */
  lemma StripIsSlice(s: string)
    ensures var r := Strip(s);
      var i := |s| - |TrimStart(s)|;
      0 <= i <= |s| - |r| && r == s[i..i + |r|]
  {
    var left := TrimStart(s);
    var r := TrimEnd(left);
    var i := |s| - |left|;
    assert left == s[i..];
    assert r == left[..|r|];
    PrefixOfSuffix(s, i, |r|);
  }

  /**
   * Only whitespace is dropped, on either side of the stripped text, and the
   * stripped text neither starts nor ends with whitespace.
   */
  lemma StripDropsOnlySpace(s: string)
    ensures Strip(s) == [] || (!IsSpace(Strip(s)[0]) && !IsSpace(Strip(s)[|Strip(s)| - 1]))
    ensures var r := Strip(s);
      var i := |s| - |TrimStart(s)|;
      && i + |r| <= |s|
      && (forall k :: 0 <= k < i ==> IsSpace(s[k]))
      && (forall k :: i + |r| <= k < |s| ==> IsSpace(s[k]))
  {
    var left := TrimStart(s);
    var r := TrimEnd(left);
    var i := |s| - |left|;
    assert left == s[i..];
    assert forall k :: i + |r| <= k < |s| ==> s[k] == left[k - i];
  }

  /** Taking `n` elements after dropping `i` is the slice from `i` to `i + n`. */
  lemma PrefixOfSuffix(s: string, i: int, n: int)
    requires 0 <= i && 0 <= n && i + n <= |s|
    ensures s[i..][..n] == s[i..i + n]
  {
  }

  /** `sanitize_string`: `""` for a falsy argument, the stripped text otherwise. */
  function SanitizeString(text: Option<string>): (r: string)
    ensures !Given(text) ==> r == ""
    ensures Given(text) ==> r == Strip(text.value)
  {
    if Given(text) then Strip(text.value) else ""
  }

  lemma {:induction false} StripStripped(s: string)
    requires s == [] || (!IsSpace(s[0]) && !IsSpace(s[|s| - 1]))
    ensures Strip(s) == s
  {
    assert TrimStart(s) == s;
    assert TrimEnd(s) == s;
  }

  /** Sanitising twice is sanitising once. */
  lemma SanitizeIdempotent(text: Option<string>)
    ensures SanitizeString(Some(SanitizeString(text))) == SanitizeString(text)
  {
    var r := SanitizeString(text);
    if r != "" {
      StripDropsOnlySpace(text.value);
      StripStripped(r);
    }
  }
}
