/** The label formatters of rofi-zotero.py (`format_authors`, `format_item`,
    `format_path`) and the viewer command built by `open_file`. */
module Format {
  import opened Common

  /** The single character "…" (U+2026) that `format_path` inserts. */
  const Ellipsis: char := '\U{2026}'

  /** Placeholder for the file in the viewer command. */
  const Placeholder: string := "%u"

  /** `format_path` options used for the attachment picker: at most 80
      characters, file name only, and `round(80 * 0.5)` = 40. */
  const PathMaxLen: int := 80
  const PathFullPath: bool := false
  const PathEndingRounded: int := 40

  /** `format_authors`: one name, "A and B", or "A et al." for three or more.
      Python fails on an empty list, so the model requires a name. */
  function FormatAuthors(names: seq<string>): (r: string)
    requires |names| >= 1
    ensures StartsWith(r, names[0])
    ensures r == names[0] <==> |names| == 1
    ensures |names| == 2 ==> r[|names[0]|..] == " and " + names[1]
    ensures |names| >= 3 ==> r[|names[0]|..] == " et al."
  {
    if |names| == 1 then names[0]
    else if |names| == 2 then names[0] + " and " + names[1]
    else names[0] + " et al."
  }

  lemma EtAlIgnoresLaterNames(a: seq<string>, b: seq<string>)
    requires |a| >= 3 && |b| >= 3 && a[0] == b[0]
    ensures FormatAuthors(a) == FormatAuthors(b)
  {
  }

  /** The author part of an item label: the author, or "Unknown". */
  function Who(author: Option<string>): string {
    if Truthy(author) then author.value else "Unknown"
  }

  /** The year part of an item label: " (year)", or nothing. */
  function When(year: Option<string>): string {
    if Truthy(year) then " (" + year.value + ")" else ""
  }

  /** `format_item`: one of the four templates, chosen by the truthiness of
      author and year. */
  function FormatItem(title: string, author: Option<string>, year: Option<string>): (r: string)
    ensures r == Who(author) + When(year) + " - " + title
  {
    if Truthy(author) && Truthy(year) then
      var a, y := author.value, year.value;
      assert a + " (" + y + ") - " + title == a + (" (" + y + ")") + " - " + title;
      a + " (" + y + ") - " + title
    else if Truthy(author) then
      var a := author.value;
      assert a + " - " + title == a + "" + " - " + title;
      a + " - " + title
    else if Truthy(year) then
      var y := year.value;
      assert "Unknown (" + y + ") - " + title == "Unknown" + (" (" + y + ")") + " - " + title;
      "Unknown (" + y + ") - " + title
    else
      assert "Unknown - " + title == "Unknown" + "" + " - " + title;
      "Unknown - " + title
  }

  lemma {:induction false} ItemLabelEndsWithTitle(title: string, author: Option<string>, year: Option<string>)
    ensures var r := FormatItem(title, author, year);
      |r| >= |title| + 3 && r[|r| - |title| - 3..] == " - " + title
  {
    var r := FormatItem(title, author, year);
    assert r == (Who(author) + When(year)) + (" - " + title);
  }

  /** An empty author or year string is treated as missing. */
  lemma EmptyIsMissing(title: string, author: Option<string>, year: Option<string>)
    ensures FormatItem(title, Some(""), year) == FormatItem(title, None, year)
    ensures FormatItem(title, author, Some("")) == FormatItem(title, author, None)
  {
  }

  /** The shortening step of `format_path`: a string longer than `maxLen`
      becomes its first `charStart` characters, "…", and its last `charEnd`,
      where `charEnd = roundedEnd - 1` and `charStart = maxLen - charEnd - 1`,
      with Python's slice semantics for the bounds. */
  function Shorten(s: string, maxLen: int, roundedEnd: int): (r: string)
    ensures |s| <= maxLen ==> r == s
  {
    if |s| <= maxLen then s
    else
      var charEnd := roundedEnd - 1;
      var charStart := maxLen - charEnd - 1;
      SliceTo(s, charStart) + [Ellipsis] + SliceFrom(s, -charEnd)
  }

  /** With at least one trailing character kept and room for the ellipsis,
      a long string is cut to exactly `maxLen` characters: a prefix of it, one
      "…", and a suffix of it. */
  lemma ShortenExact(s: string, maxLen: int, roundedEnd: int)
    requires |s| > maxLen
    requires 2 <= roundedEnd <= maxLen
    ensures var r := Shorten(s, maxLen, roundedEnd);
      var charStart := maxLen - roundedEnd;
      && |r| == maxLen
      && r[..charStart] == s[..charStart]
      && r[charStart] == Ellipsis
      && r[charStart + 1..] == s[|s| - (roundedEnd - 1)..]
  {
    var r := Shorten(s, maxLen, roundedEnd);
    var charStart := maxLen - roundedEnd;
    assert SliceBound(charStart, |s|) == charStart;
    assert SliceBound(-(roundedEnd - 1), |s|) == |s| - (roundedEnd - 1);
    assert r == s[..charStart] + [Ellipsis] + s[|s| - (roundedEnd - 1)..];
  }

  /** When the rounded ending is 1, `charEnd` is 0 and Python's `s[-0:]` is
      the whole string, so the "shortened" text is longer than the input. */
  lemma ShortenKeepsWholeStringWhenEndIsZero(s: string, maxLen: int)
    requires 1 <= maxLen < |s|
    ensures Shorten(s, maxLen, 1) == s[..maxLen - 1] + [Ellipsis] + s
    ensures |Shorten(s, maxLen, 1)| > |s|
  {
    assert SliceBound(maxLen - 1, |s|) == maxLen - 1;
    assert SliceBound(0, |s|) == 0;
  }

  /** Shortening adds no character other than "…": every other character of
      the result comes from the input. */
  lemma ShortenAddsOnlyEllipsis(s: string, maxLen: int, roundedEnd: int, c: char)
    requires c !in s && c != Ellipsis
    ensures c !in Shorten(s, maxLen, roundedEnd)
  {
    if |s| > maxLen {
      var head, tail := SliceTo(s, maxLen - roundedEnd), SliceFrom(s, -(roundedEnd - 1));
      assert Shorten(s, maxLen, roundedEnd) == head + [Ellipsis] + tail;
      assert forall k :: 0 <= k < |head| ==> head[k] in s;
      assert forall k :: 0 <= k < |tail| ==> tail[k] in s;
    }
  }

  /** `format_path`: the file name (or the full path when `fullPath`),
      shortened to `maxLen`. */
  function FormatPath(path: string, maxLen: int, fullPath: bool, roundedEnd: int): (r: string)
    ensures !fullPath ==> '/' !in r
    ensures !fullPath && |AfterLast(path, '/')| <= maxLen ==> r == AfterLast(path, '/')
    ensures fullPath && |path| <= maxLen ==> r == path
    ensures 2 <= roundedEnd <= maxLen ==> |r| <= maxLen
  {
    var name := if fullPath then path else AfterLast(path, '/');
    var r := Shorten(name, maxLen, roundedEnd);
    assert !fullPath ==> '/' !in r by {
      if !fullPath { ShortenAddsOnlyEllipsis(name, maxLen, roundedEnd, '/'); }
    }
    assert 2 <= roundedEnd <= maxLen && |name| > maxLen ==> |r| == maxLen by {
      if 2 <= roundedEnd <= maxLen && |name| > maxLen { ShortenExact(name, maxLen, roundedEnd); }
    }
    r
  }

  /** `open_file`'s command: the placeholder is appended when the tokens lack
      one, then every token equal to it is replaced by the file path. */
  function OpenCommand(tokens: seq<string>, path: string): (cmd: seq<string>)
    ensures |cmd| == |tokens| + (if Placeholder in tokens then 0 else 1)
    ensures forall i :: 0 <= i < |tokens| ==> cmd[i] == (if tokens[i] == Placeholder then path else tokens[i])
    ensures Placeholder !in tokens ==> cmd[|tokens|] == path
    ensures path in cmd
    ensures path != Placeholder ==> Placeholder !in cmd
  {
    var args := if Placeholder in tokens then tokens else tokens + [Placeholder];
    var cmd := seq(|args|, i requires 0 <= i < |args| => if args[i] == Placeholder then path else args[i]);
    assert Placeholder in args;
    var p :| 0 <= p < |args| && args[p] == Placeholder;
    assert cmd[p] == path;
    cmd
  }
}
