/** Changelog headers: the "Unreleased" pattern ModifyChangelog matches, the
    version pattern LogGenerator extracts, the release date it writes, and
    LogGenerator itself (changelog.go:111-124, main.go:385-398). */
module Header {
  import opened Text
  import opened Numbers

  // ---------------------------------------------------------------------
  // The header pattern ^##.*?Unreleased\)$

  const UnreleasedSuffix := "Unreleased)"

  /** Whether `line` matches `^##.*?Unreleased\)$`: "##", then any text
      without a newline (Go's `.`), then "Unreleased)" at the very end (Go's
      `$` without the multi-line flag). */
  predicate IsUnreleasedHeader(line: string)
  {
    |line| >= 2 + |UnreleasedSuffix|
    && line[..2] == "##"
    && line[|line| - |UnreleasedSuffix|..] == UnreleasedSuffix
    && '\n' !in line
  }

  /** A header line always has 'd' just before its closing parenthesis. */
  lemma UnreleasedHeaderShape(line: string)
    requires IsUnreleasedHeader(line)
    ensures line[|line| - 2] == 'd' && line[|line| - 1] == ')'
  {
    assert line[|line| - 2] == line[|line| - |UnreleasedSuffix|..][9];
    assert line[|line| - 1] == line[|line| - |UnreleasedSuffix|..][10];
  }

  // ---------------------------------------------------------------------
  // The version pattern [0-9]*\.[0-9]*\.[0-9]*

  /** The text the version pattern accepts: digits, a dot, digits, a dot,
      digits (each run possibly empty). */
  ghost predicate IsVersionText(t: string)
  {
    exists a, b :: VersionShape(t, a, b)
  }

  /** `t` has its two dots at `a` and `b` and digits everywhere else. */
  predicate VersionShape(t: string, a: int, b: int)
  {
    0 <= a < b < |t| && t[a] == '.' && t[b] == '.'
    && forall k :: 0 <= k < |t| && k != a && k != b ==> IsDigit(t[k])
  }

  /** The leftmost-longest match: the leftmost start, and the longest match
      there. Go's regexp.Find is leftmost-first, and for this pattern the two
      coincide: its greedy stars match the longest version text at a start
      (see MatchEnd). */
  ghost predicate IsLeftmostLongest(s: string, i: int, j: int)
  {
    0 <= i <= j <= |s| && IsVersionText(s[i..j])
    && (forall k, l :: 0 <= k < i && k <= l <= |s| ==> !IsVersionText(s[k..l]))
    && (forall l :: j < l <= |s| ==> !IsVersionText(s[i..l]))
  }

  /** Length of the run of digits that starts at `i`. */
  function DigitRun(s: string, i: nat): (n: nat)
    requires i <= |s|
    ensures i + n <= |s|
    ensures forall k :: i <= k < i + n ==> IsDigit(s[k])
    ensures i + n == |s| || !IsDigit(s[i + n])
    decreases |s| - i
  {
    if i < |s| && IsDigit(s[i]) then 1 + DigitRun(s, i + 1) else 0
  }

  /** Where the greedy match of the pattern that starts at `i` ends, if it
      matches there. Backtracking cannot help: a shorter digit run would be
      followed by a digit, not by the dot the pattern needs. */
  function MatchEnd(s: string, i: nat): Option<nat>
    requires i <= |s|
  {
    var a := i + DigitRun(s, i);
    if a < |s| && s[a] == '.' then
      var b := a + 1 + DigitRun(s, a + 1);
      if b < |s| && s[b] == '.' then Some(b + 1 + DigitRun(s, b + 1)) else None
    else None
  }

  datatype Option<T> = None | Some(value: T)

  datatype Span = Span(start: nat, end: nat)

  /** The leftmost position at or after `from` where the pattern matches. */
  function FindFrom(s: string, from: nat): (m: Option<Span>)
    requires from <= |s|
    ensures m.Some? ==> from <= m.value.start <= |s| && MatchEnd(s, m.value.start) == Some(m.value.end)
    ensures m.Some? ==> forall k :: from <= k < m.value.start ==> MatchEnd(s, k).None?
    ensures m.None? ==> forall k :: from <= k <= |s| ==> MatchEnd(s, k).None?
    decreases |s| - from
  {
    if from == |s| then None
    else match MatchEnd(s, from)
      case Some(e) => Some(Span(from, e))
      case None => FindFrom(s, from + 1)
  }

  lemma MatchEndSound(s: string, i: nat)
    requires i <= |s| && MatchEnd(s, i).Some?
    ensures i <= MatchEnd(s, i).value <= |s|
    ensures IsVersionText(s[i..MatchEnd(s, i).value])
    ensures MatchEnd(s, i).value == |s| || !IsDigit(s[MatchEnd(s, i).value])
  {
    var a := i + DigitRun(s, i);
    var b := a + 1 + DigitRun(s, a + 1);
    var e := MatchEnd(s, i).value;
    var t := s[i..e];
    forall k | 0 <= k < |t| && k != a - i && k != b - i ensures IsDigit(t[k]) {
      assert t[k] == s[i + k];
    }
    assert VersionShape(t, a - i, b - i);
  }

  /** The dots and digits of a version text found inside a longer string. */
  lemma ShapeInContext(s: string, i: nat, j: nat, a: int, b: int)
    requires i <= j <= |s| && VersionShape(s[i..j], a, b)
    ensures s[i + a] == '.' && s[i + b] == '.'
    ensures forall k :: i <= k < j && k != i + a && k != i + b ==> IsDigit(s[k])
  {
    var t := s[i..j];
    assert s[i + a] == t[a] && s[i + b] == t[b];
    forall k | i <= k < j && k != i + a && k != i + b ensures IsDigit(s[k]) {
      assert s[k] == t[k - i];
    }
  }

  /** A version text that starts at `i` and is not followed by a digit is
      exactly what the greedy match at `i` finds. */
  lemma MatchEndExact(s: string, i: nat, j: nat)
    requires i <= j <= |s| && IsVersionText(s[i..j])
    requires j == |s| || !IsDigit(s[j])
    ensures MatchEnd(s, i) == Some(j)
  {
    var a, b :| VersionShape(s[i..j], a, b);
    ShapeInContext(s, i, j, a, b);
    RunsAtExact(s, i, i + a, i + b, j);
  }

  /** Any version text that starts at `i` is covered by the greedy match at `i`. */
  lemma MatchEndCovers(s: string, i: nat, j: nat)
    requires i <= j <= |s| && IsVersionText(s[i..j])
    ensures MatchEnd(s, i).Some? && MatchEnd(s, i).value >= j
  {
    var a, b :| VersionShape(s[i..j], a, b);
    ShapeInContext(s, i, j, a, b);
    RunsAtCovers(s, i, i + a, i + b, j);
  }

  /** The greedy match over digits from `i` to `j` with dots at `x` and `y`
      and no digit after `j` ends at `j`. */
  lemma RunsAtExact(s: string, i: nat, x: nat, y: nat, j: nat)
    requires i <= x < y < j <= |s| && s[x] == '.' && s[y] == '.'
    requires forall k :: i <= k < j && k != x && k != y ==> IsDigit(s[k])
    requires j == |s| || !IsDigit(s[j])
    ensures MatchEnd(s, i) == Some(j)
  {
    FirstRuns(s, i, x, y, j);
    RunIs(s, y + 1, j - y - 1);
    MatchEndOf(s, i, x, y);
  }

  /** The same match with digits possibly following: it reaches `j` at least. */
  lemma RunsAtCovers(s: string, i: nat, x: nat, y: nat, j: nat)
    requires i <= x < y < j <= |s| && s[x] == '.' && s[y] == '.'
    requires forall k :: i <= k < j && k != x && k != y ==> IsDigit(s[k])
    ensures MatchEnd(s, i).Some? && MatchEnd(s, i).value >= j
  {
    FirstRuns(s, i, x, y, j);
    RunIsAtLeast(s, y + 1, j - y - 1);
    MatchEndOf(s, i, x, y);
  }

  /** The first two digit runs of that match end at the dots. */
  lemma FirstRuns(s: string, i: nat, x: nat, y: nat, j: nat)
    requires i <= x < y < j <= |s| && s[x] == '.' && s[y] == '.'
    requires forall k :: i <= k < j && k != x && k != y ==> IsDigit(s[k])
    ensures DigitRun(s, i) == x - i && DigitRun(s, x + 1) == y - x - 1
  {
    RunIs(s, i, x - i);
    RunIs(s, x + 1, y - x - 1);
  }

  /** The greedy match when the first two digit runs end at dots `x` and `y`. */
  lemma MatchEndOf(s: string, i: nat, x: nat, y: nat)
    requires i <= x < y < |s| && s[x] == '.' && s[y] == '.'
    requires DigitRun(s, i) == x - i && DigitRun(s, x + 1) == y - x - 1
    ensures MatchEnd(s, i) == Some(y + 1 + DigitRun(s, y + 1))
  {
  }

  lemma RunIs(s: string, i: nat, m: nat)
    requires i + m <= |s| && (i + m == |s| || !IsDigit(s[i + m]))
    requires forall k :: i <= k < i + m ==> IsDigit(s[k])
    ensures DigitRun(s, i) == m
  {
  }

  lemma RunIsAtLeast(s: string, i: nat, m: nat)
    requires i + m <= |s|
    requires forall k :: i <= k < i + m ==> IsDigit(s[k])
    ensures DigitRun(s, i) >= m
  {
  }

  /** Where the greedy match fails, no version text starts. */
  lemma NoVersionTextAt(s: string, k: nat)
    requires k <= |s| && MatchEnd(s, k).None?
    ensures forall l :: k <= l <= |s| ==> !IsVersionText(s[k..l])
  {
    forall l | k <= l <= |s| ensures !IsVersionText(s[k..l]) {
      if IsVersionText(s[k..l]) { MatchEndCovers(s, k, l); }
    }
  }

  /** Nothing longer than the greedy match is a version text. */
  lemma NoLongerVersionText(s: string, i: nat)
    requires i <= |s| && MatchEnd(s, i).Some?
    ensures forall l :: MatchEnd(s, i).value < l <= |s| ==> !IsVersionText(s[i..l])
  {
    forall l | MatchEnd(s, i).value < l <= |s| ensures !IsVersionText(s[i..l]) {
      if IsVersionText(s[i..l]) { MatchEndCovers(s, i, l); }
    }
  }

  /** What regexp.Find returns, as a string: the matched text, or "" (the
      conversion of a nil slice) when nothing matches. */
  function VersionIn(s: string): string
  {
    match FindFrom(s, 0)
    case None => ""
    case Some(m) => s[m.start..m.end]
  }

  /** VersionIn is the leftmost-longest version text of the line, and is ""
      exactly when the line holds no version text at all. */
  lemma VersionInIsLeftmostLongest(s: string)
    ensures VersionIn(s) == "" <==> forall k, l :: 0 <= k <= l <= |s| ==> !IsVersionText(s[k..l])
    ensures VersionIn(s) != "" ==> exists i, j :: IsLeftmostLongest(s, i, j) && VersionIn(s) == s[i..j]
  {
    match FindFrom(s, 0)
    case None =>
      forall k, l | 0 <= k <= l <= |s| ensures !IsVersionText(s[k..l]) {
        NoVersionTextAt(s, k);
      }
    case Some(m) =>
      var i, e := m.start, m.end;
      MatchEndSound(s, i);
      VersionTextLength(s[i..e]);
      forall k, l | 0 <= k < i && k <= l <= |s| ensures !IsVersionText(s[k..l]) {
        NoVersionTextAt(s, k);
      }
      NoLongerVersionText(s, i);
      assert IsLeftmostLongest(s, i, e);
  }

  /** VersionIn finds a version text or nothing. */
  lemma VersionInIsVersionText(s: string)
    ensures VersionIn(s) == "" || IsVersionText(VersionIn(s))
  {
    if FindFrom(s, 0).Some? { MatchEndSound(s, FindFrom(s, 0).value.start); }
  }

  lemma VersionTextLength(t: string)
    requires IsVersionText(t)
    ensures |t| >= 2
  {
  }

  /** The version LogGenerator finds in a header of the shape
      `<prefix><version><suffix>`, where the prefix holds no digit and no
      dot and the suffix does not start with a digit. */
  lemma VersionInFrame(p: string, v: string, q: string)
    requires forall k :: 0 <= k < |p| ==> !IsDigit(p[k]) && p[k] != '.'
    requires IsVersionText(v)
    requires q == [] || !IsDigit(q[0])
    ensures VersionIn(p + v + q) == v
  {
    var s := p + v + q;
    assert s[|p|..|p| + |v|] == v;
    assert |p| + |v| < |s| ==> s[|p| + |v|] == q[0];
    MatchEndExact(s, |p|, |p| + |v|);
    forall k | 0 <= k < |p| ensures MatchEnd(s, k).None? {
      assert s[k] == p[k];
    }
    var m := FindFrom(s, 0);
    assert m.Some? && m.value.start == |p|;
  }

  /** Everything in a version text is a digit or a dot. */
  lemma VersionInChars(s: string)
    ensures forall k :: 0 <= k < |VersionIn(s)| ==> IsDigit(VersionIn(s)[k]) || VersionIn(s)[k] == '.'
  {
    VersionInIsVersionText(s);
    if VersionIn(s) != "" {
      var a, b :| VersionShape(VersionIn(s), a, b);
    }
  }

  /** A version text splits on its dots into exactly three pieces. */
  lemma SplitVersionText(t: string)
    requires IsVersionText(t)
    ensures |Split(t)| == 3
  {
    var a, b :| VersionShape(t, a, b);
    var x, y, z := t[..a], t[a + 1..b], t[b + 1..];
    assert '.' !in x by { forall k | 0 <= k < |x| ensures x[k] != '.' { assert x[k] == t[k]; } }
    assert '.' !in y by { forall k | 0 <= k < |y| ensures y[k] != '.' { assert y[k] == t[a + 1 + k]; } }
    assert '.' !in z by { forall k | 0 <= k < |z| ensures z[k] != '.' { assert z[k] == t[b + 1 + k]; } }
    assert Join([x, y, z]) == x + "." + Join([y, z]);
    assert Join([y, z]) == y + "." + z;
    assert t == x + "." + (y + "." + z);
    SplitJoin([x, y, z]);
  }

  /** The dotted triple of numbers, as a version header writes it. */
  function FormatVersion(major: nat, minor: nat, patch: nat): string
  {
    Itoa(major) + "." + Itoa(minor) + "." + Itoa(patch)
  }

  lemma FormatVersionIsVersionText(major: nat, minor: nat, patch: nat)
    ensures IsVersionText(FormatVersion(major, minor, patch))
  {
    ItoaShape(major); ItoaShape(minor); ItoaShape(patch);
    var x, y, z := Itoa(major), Itoa(minor), Itoa(patch);
    var t := FormatVersion(major, minor, patch);
    var a, b := |x|, |x| + 1 + |y|;
    forall k | 0 <= k < |t| && k != a && k != b ensures IsDigit(t[k]) {
      if k < a { assert t[k] == x[k]; }
      else if k < b { assert t[k] == y[k - a - 1]; }
      else { assert t[k] == z[k - b - 1]; }
    }
    assert VersionShape(t, a, b);
  }

  // ---------------------------------------------------------------------
  // The release date

  datatype Month = January | February | March | April | May | June | July
                 | August | September | October | November | December

  /** time.Month.String: the full English name. */
  function MonthName(m: Month): string
  {
    match m
    case January => "January"     case February => "February"
    case March => "March"         case April => "April"
    case May => "May"             case June => "June"
    case July => "July"           case August => "August"
    case September => "September" case October => "October"
    case November => "November"   case December => "December"
  }

  /** The clock reading LogGenerator takes from time.Now. */
  datatype Date = Date(year: int, month: Month, day: nat)

  /** `<Month> <Day>, <Year>`, the day written by strconv.Itoa and so not padded. */
  function FormatDate(d: Date): string
  {
    MonthName(d.month) + " " + Itoa(d.day) + ", " + Itoa(d.year)
  }

  // ---------------------------------------------------------------------
  // LogGenerator

  /** The version a new changelog starts at: "1.0.0". */
  const SeedVersion := Itoa(1) + "." + Itoa(0) + "." + Itoa(0)
  /** The header it is written under: "## 1.0.0 (Unreleased)". */
  const SeedHeader := UnreleasedHeader(SeedVersion)

  /** The header written for `version` released on `today`. */
  function DatedHeader(version: string, today: Date): string
  {
    "## " + version + " (" + FormatDate(today) + ")"
  }

  /** The header that re-opens `version` for development. */
  function UnreleasedHeader(version: string): string
  {
    "## " + version + " (Unreleased)"
  }

  datatype Generated = Generated(line: string, version: string)

  /** LogGenerator(version): for "" the seed header and version 1.0.0; for a
      header line, the leftmost version in it and that version dated today. */
  function LogGenerator(version: string, today: Date): (g: Generated)
    ensures version == "" ==> IsUnreleasedHeader(g.line) && g.version == SeedVersion
    ensures version != "" ==> !IsUnreleasedHeader(g.line)
    ensures version != "" ==> g.version == "" || IsVersionText(g.version)
  {
    if |version| == 0 then
      assert IsUnreleasedHeader(UnreleasedHeader(SeedVersion)) by { UnreleasedHeaderIsHeader(SeedVersion); }
      Generated(UnreleasedHeader(SeedVersion), SeedVersion)
    else
      var ver := VersionIn(version);
      DatedHeaderIsNotUnreleased(ver, today);
      VersionInIsVersionText(version);
      Generated(DatedHeader(ver, today), ver)
  }

  /** A dated header ends in the year's last digit and ")", never in "Unreleased)". */
  lemma DatedHeaderIsNotUnreleased(version: string, today: Date)
    ensures !IsUnreleasedHeader(DatedHeader(version, today))
  {
    var h := DatedHeader(version, today);
    ItoaShape(today.year);
    var y := Itoa(today.year);
    assert h[|h| - 2] == y[|y| - 1];
    if IsUnreleasedHeader(h) { UnreleasedHeaderShape(h); }
  }

  /** Every re-opened header matches the header pattern, whatever its version. */
  lemma UnreleasedHeaderIsHeader(version: string)
    requires '\n' !in version
    ensures IsUnreleasedHeader(UnreleasedHeader(version))
  {
    var h := UnreleasedHeader(version);
    assert h[..2] == "##";
    assert h[|h| - |UnreleasedSuffix|..] == UnreleasedSuffix;
  }

  /** For a non-empty line, LogGenerator returns the leftmost-longest
      version in it (or "" when there is none) and writes that same version,
      dated. */
  lemma LogGeneratorDates(line: string, today: Date)
    requires line != ""
    ensures var g := LogGenerator(line, today);
      && g.line == DatedHeader(g.version, today)
      && (g.version == "" <==> forall k, l :: 0 <= k <= l <= |line| ==> !IsVersionText(line[k..l]))
      && (g.version != "" ==> exists i, j :: IsLeftmostLongest(line, i, j) && g.version == line[i..j])
  {
    VersionInIsLeftmostLongest(line);
  }

  /** LogGenerator("") writes the seed header, which is itself Unreleased. */
  lemma LogGeneratorSeed(today: Date)
    ensures LogGenerator("", today) == Generated(SeedHeader, SeedVersion)
    ensures SeedHeader == UnreleasedHeader(SeedVersion)
    ensures IsUnreleasedHeader(SeedHeader)
  {
    UnreleasedHeaderIsHeader(SeedVersion);
  }

  /** The Unreleased header of major.minor.patch is a header, and the
      version read back from it is major.minor.patch. */
  lemma VersionOfUnreleasedHeader(major: nat, minor: nat, patch: nat)
    ensures IsUnreleasedHeader(UnreleasedHeader(FormatVersion(major, minor, patch)))
    ensures VersionIn(UnreleasedHeader(FormatVersion(major, minor, patch))) == FormatVersion(major, minor, patch)
  {
    var v := FormatVersion(major, minor, patch);
    FormatVersionIsVersionText(major, minor, patch);
    ItoaChars(major); ItoaChars(minor); ItoaChars(patch);
    UnreleasedHeaderIsHeader(v);
    assert UnreleasedHeader(v) == "## " + v + " (Unreleased)";
    VersionInFrame("## ", v, " (Unreleased)");
  }

  /** The seed version is a version text of three parts. */
  lemma SeedShape()
    ensures IsVersionText(SeedVersion) && |Split(SeedVersion)| == 3
  {
    FormatVersionIsVersionText(1, 0, 0);
    SplitVersionText(SeedVersion);
  }

  /** The seed constants spelled out. */
  lemma SeedLiterals()
    ensures SeedVersion == "1.0.0"
    ensures SeedHeader == "## 1.0.0 (Unreleased)"
  {
    var f := SeedVersion;
    assert Itoa(1) == "1" && Itoa(0) == "0";
    assert f == "1" + "." + "0" + "." + "0";
    assert |f| == 5 && f[0] == '1' && f[1] == '.' && f[2] == '0' && f[3] == '.' && f[4] == '0';
    assert f == "1.0.0";
    var h := SeedHeader;
    assert h == "## " + "1.0.0" + " (Unreleased)";
  }

  /** The version of a header `## <major>.<minor>.<patch> (<note>)`. */
  lemma VersionOfHeader(major: nat, minor: nat, patch: nat, note: string)
    ensures VersionIn("## " + FormatVersion(major, minor, patch) + " (" + note + ")")
         == FormatVersion(major, minor, patch)
  {
    var v := FormatVersion(major, minor, patch);
    FormatVersionIsVersionText(major, minor, patch);
    assert "## " + v + " (" + note + ")" == "## " + v + (" (" + note + ")");
    VersionInFrame("## ", v, " (" + note + ")");
  }

  /** A date is written without line terminators. */
  lemma FormatDateChars(d: Date)
    ensures '\n' !in FormatDate(d) && '\r' !in FormatDate(d)
  {
    MonthNameLetters(d.month);
    ItoaChars(d.day);
    ItoaChars(d.year);
    var m, day, year := MonthName(d.month), Itoa(d.day), Itoa(d.year);
    assert FormatDate(d) == m + " " + day + ", " + year;
  }

  /** A dated header of a version without line breaks is a line that reads
      back as itself. */
  lemma DatedHeaderChars(version: string, today: Date)
    requires '\n' !in version && '\r' !in version
    ensures Rereadable(DatedHeader(version, today)) && '\r' !in DatedHeader(version, today)
  {
    FormatDateChars(today);
    var h := DatedHeader(version, today);
    assert h == "## " + version + " (" + FormatDate(today) + ")";
    assert h[|h| - 1] == ')';
  }

  /** Month names are written in letters only. */
  lemma MonthNameLetters(m: Month)
    ensures forall k :: 0 <= k < |MonthName(m)| ==> 'A' <= MonthName(m)[k] <= 'z'
  {
  }
}
