/** The build-output parser of `DiagnosticService`: every line of the build
    tool's output becomes at most one diagnostic, in line order. */
module Diagnostics {
  import opened Wrappers
  import opened Text
  import opened Seqs

  datatype Severity = Error | Warning | Info

  datatype BuildDiagnostic = BuildDiagnostic(
    severity: Severity,
    message: string,
    file: Option<string>,
    line: Option<nat>,
    column: Option<nat>,
    code: Option<string>,
    source: Option<string>,
    relatedLink: Option<string>)

  /** The parse result; the wall-clock `timestamp` is not modelled. */
  datatype BuildResult = BuildResult(
    success: bool,
    duration: int,
    diagnostics: seq<BuildDiagnostic>,
    rawOutput: string,
    moduleName: Option<string>,
    taskName: Option<string>)

  const LicenseLink: string := "https://www.jetbrains.com/legal/java/"
  const MinSdkLink: string := "https://developer.android.com/guide/topics/manifest/uses-sdk-element"
  const UnresolvedReferenceLink: string := "https://kotlinlang.org/docs/referenced-symbols.html"
  const LicenseHint: string := " (License acceptance required)"

  // ---------------------------------------------------------------------------
  // The pattern ^(?:([ew]):\s+)?(.*?):(\d+):(\d+):\s+(.*)$
  // ---------------------------------------------------------------------------

  /** What the groups `(\d+)`, `(\d+)` and `(.*)` capture. */
  datatype Tail = Tail(line: string, column: string, message: string)

  /** What the whole pattern captures. */
  datatype LineMatch = LineMatch(prefix: Option<char>, file: string, tail: Tail)

  /** The part `:(\d+):(\d+):\s+(.*)$` matched at index `p`. A greedy digit run only
      succeeds when it is maximal (a shorter one is followed by a digit, not `:`), and
      giving back whitespace to `(.*)` cannot help it reach `$`, so each run is maximal. */
  function TailAt(t: string, p: nat): (r: Option<Tail>)
    requires p <= |t|
  {
    if p < |t| && t[p] == ':' then
      var a := RunEnd(t, p + 1, IsDigit);
      if a > p + 1 && a < |t| && t[a] == ':' then
        var b := RunEnd(t, a + 1, IsDigit);
        if b > a + 1 && b < |t| && t[b] == ':' then
          var c := RunEnd(t, b + 1, IsJsSpace);
          if c > b + 1 && All(t[c..], NotLineTerminator) then Some(Tail(t[p + 1..a], t[a + 1..b], t[c..]))
          else None
        else None
      else None
    else None
  }

  /** What a matched tail is made of: a `:`, a non-empty digit run for the line, a
      non-empty digit run for the column, and a message that runs to the end of the
      line without a line terminator. */
  lemma TailAtShape(t: string, p: nat)
    requires p <= |t|
    ensures var r := TailAt(t, p);
      r.Some? ==>
        && p + |r.value.line| + |r.value.column| + 3 <= |t| - |r.value.message|
        && t[p] == ':'
        && t[p + 1..p + 1 + |r.value.line|] == r.value.line
        && |r.value.line| > 0 && All(r.value.line, IsDigit)
        && |r.value.column| > 0 && All(r.value.column, IsDigit)
        && t[|t| - |r.value.message|..] == r.value.message
        && All(r.value.message, NotLineTerminator)
  {
  }

  /** The optional group `([ew]):\s+` matches. */
  predicate HasSeverityPrefix(t: string) {
    |t| >= 3 && (t[0] == 'e' || t[0] == 'w') && t[1] == ':' && IsJsSpace(t[2])
  }

  /** Where `(.*?)` starts: after the greedy `\s+` of the prefix, or at 0 without one. */
  function FileStart(t: string): (s: nat)
    ensures s <= |t|
  {
    if HasSeverityPrefix(t) then RunEnd(t, 2, IsJsSpace) else 0
  }

  /** No line terminator in `t[i..j]`: a `.`-run may cover it. */
  predicate Dotted(t: string, i: nat, j: nat)
    requires i <= j <= |t|
  {
    forall x :: i <= x < j ==> !IsLineTerminator(t[x])
  }

  /** The positions `.` can run over from `p` are exactly those up to the first
      line terminator. */
  lemma DottedUpTo(t: string, p: nat)
    requires p <= |t|
    ensures forall k :: p <= k <= |t| ==> (Dotted(t, p, k) <==> k <= RunEnd(t, p, NotLineTerminator))
  {
    var e := RunEnd(t, p, NotLineTerminator);
    forall k | p <= k <= |t|
      ensures Dotted(t, p, k) <==> k <= e
    {
      if k > e {
        assert IsLineTerminator(t[e]);
      }
    }
  }

  function TailStarts(t: string): nat -> bool {
    (k: nat) => k <= |t| && TailAt(t, k).Some?
  }

  /** The first tail within reach of `.` from `p` is a tail, is reachable, and has
      no tail before it; without one, no reachable position has a tail. */
  lemma FirstTail(t: string, p: nat)
    requires p <= |t|
    ensures var r := FirstWhere(TailStarts(t), p, RunEnd(t, p, NotLineTerminator));
      && (r.Some? ==> p <= r.value <= |t| && TailAt(t, r.value).Some? && Dotted(t, p, r.value))
      && (r.Some? ==> forall k :: p <= k < r.value ==> TailAt(t, k).None?)
      && (r.None? ==> forall k :: p <= k <= |t| && Dotted(t, p, k) ==> TailAt(t, k).None?)
  {
    DottedUpTo(t, p);
    var e := RunEnd(t, p, NotLineTerminator);
    match FirstWhere(TailStarts(t), p, e)
    case Some(q) =>
      assert TailStarts(t)(q);
      forall k | p <= k < q
        ensures TailAt(t, k).None?
      {
        assert !TailStarts(t)(k);
      }
    case None =>
      forall k | p <= k <= |t| && Dotted(t, p, k)
        ensures TailAt(t, k).None?
      {
        assert !TailStarts(t)(k);
      }
  }

  /** The lazy `(.*?)`: the shortest file first, growing it one character at a
      time while the characters are ones `.` accepts. */
  function ScanFile(t: string, p: nat): (r: Option<nat>)
    requires p <= |t|
    ensures r.Some? ==> p <= r.value <= |t| && TailAt(t, r.value).Some? && Dotted(t, p, r.value)
    ensures r.Some? ==> forall k :: p <= k < r.value ==> TailAt(t, k).None?
    ensures r.None? ==> forall k :: p <= k <= |t| && Dotted(t, p, k) ==> TailAt(t, k).None?
  {
    FirstTail(t, p);
    FirstWhere(TailStarts(t), p, RunEnd(t, p, NotLineTerminator))
  }

  /** The pattern from the start `s` of the file group on, with the prefix already decided. */
  function MatchFrom(t: string, prefix: Option<char>, s: nat): (r: Option<LineMatch>)
    requires s <= |t|
    ensures r.Some? ==> r.value.prefix == prefix
    ensures r.Some? ==> s + |r.value.file| <= |t| && t[s..s + |r.value.file|] == r.value.file
    ensures r.Some? ==> Dotted(t, s, s + |r.value.file|)
    ensures r.Some? ==> TailAt(t, s + |r.value.file|) == Some(r.value.tail)
    ensures r.Some? ==> All(r.value.tail.line, IsDigit) && All(r.value.tail.column, IsDigit)
    ensures r.Some? ==> forall k :: s <= k < s + |r.value.file| ==> TailAt(t, k).None?
    ensures r.None? ==> forall k :: s <= k <= |t| && Dotted(t, s, k) ==> TailAt(t, k).None?
  {
    match ScanFile(t, s)
    case None => None
    case Some(p) =>
      TailAtShape(t, p);
      Some(LineMatch(prefix, t[s..p], TailAt(t, p).value))
  }

  /** The whole pattern on a trimmed line: the prefix group (greedy, so tried first)
      decides where the lazy file group starts, and `MatchFrom` does the rest. If the
      prefix group matches but the rest fails, the regex as a whole fails too
      (see `PrefixBacktrackingFails`). */
  function MatchLine(t: string): (r: Option<LineMatch>)
    ensures r.Some? ==> r.value.prefix == (if HasSeverityPrefix(t) then Some(t[0]) else None)
  {
    MatchFrom(t, if HasSeverityPrefix(t) then Some(t[0]) else None, FileStart(t))
  }

  /** A scan that must first walk over positions where no tail starts fails
      whenever the scan from the far end fails. */
  lemma ScanOverNoTails(t: string, p: nat, q: nat)
    requires p <= q <= |t|
    requires forall k :: p <= k < q ==> TailAt(t, k).None?
    requires ScanFile(t, q).None?
    ensures ScanFile(t, p).None?
  {
    forall k | p <= k <= |t| && Dotted(t, p, k)
      ensures TailAt(t, k).None?
    {
      if k >= q {
        assert Dotted(t, q, k);
      }
    }
  }

  /** Backtracking justification for `MatchLine`: when the prefix group matches but
      the lazy scan after its greedy `\s+` fails, neither a shorter `\s+` nor skipping
      the optional group makes the pattern match. */
  lemma PrefixBacktrackingFails(t: string, s': nat)
    requires HasSeverityPrefix(t)
    requires ScanFile(t, FileStart(t)).None?
    requires 3 <= s' <= FileStart(t)
    ensures ScanFile(t, s').None?
    ensures ScanFile(t, 0).None?
  {
    var s := FileStart(t);
    ScanOverNoTails(t, s', s);
    assert TailAt(t, 0).None?;
    assert TailAt(t, 1).None? by { assert !IsDigit(t[2]); }
    ScanOverNoTails(t, 0, s);
  }

  // ---------------------------------------------------------------------------
  // Building one diagnostic
  // ---------------------------------------------------------------------------

  function SeverityOf(prefix: Option<char>): Severity {
    if prefix == Some('w') then Warning else Error
  }

  /** The source label from the file extension, on the path exactly as captured. */
  function DetermineSource(file: string): (r: string)
    ensures r == "Kotlin" <==> EndsWith(file, ".kt") || EndsWith(file, ".kts")
    ensures r == "Amper" <==> !EndsWith(file, ".kt") && !EndsWith(file, ".kts") && EndsWith(file, "module.yaml")
    ensures r == "Kotlin" || r == "Amper" || r == "Build"
  {
    if EndsWith(file, ".kt") || EndsWith(file, ".kts") then "Kotlin"
    else if EndsWith(file, "module.yaml") then "Amper"
    else "Build"
  }

  /** The enhancement chain of `enhanceDiagnostic`. It touches only the message and
      the link, and the message gains at most the license hint. */
  function Enhance(d: BuildDiagnostic): (r: BuildDiagnostic)
    ensures r.(message := d.message, relatedLink := d.relatedLink) == d
    ensures r.message == d.message || r.message == d.message + LicenseHint
  {
    var m := JsToLowerCase(d.message);
    if Contains(m, "license") && Contains(m, "jdk") then
      d.(relatedLink := Some(LicenseLink), message := d.message + LicenseHint)
    else if Contains(m, "android") && Contains(m, "minSdk") then
      d.(relatedLink := Some(MinSdkLink))
    else if Contains(m, "unresolved reference") then
      d.(relatedLink := Some(UnresolvedReferenceLink))
    else d
  }

  /** Why the `minSdk` rule is dead: lower-cased text holds no `S`. */
  lemma MinSdkRuleIsDead(message: string)
    ensures !Contains(JsToLowerCase(message), "minSdk")
  {
    JsLowerHasNoUpperWord(message, "minSdk", 3);
  }

  /** The rules that can actually fire, as an else-if chain: at most one of them
      applies, and the `minSdk` link is never attached. */
  lemma EnhanceRules(d: BuildDiagnostic)
    ensures
      var m := JsToLowerCase(d.message);
      var r := Enhance(d);
      if Contains(m, "license") && Contains(m, "jdk") then
        r == d.(relatedLink := Some(LicenseLink), message := d.message + LicenseHint)
      else if Contains(m, "unresolved reference") then
        r == d.(relatedLink := Some(UnresolvedReferenceLink))
      else r == d
  {
    MinSdkRuleIsDead(d.message);
  }

  /** A Kelvin sign counts as a `k`: a message that starts `JD\U{212A}` and mentions
      `license` gets the license hint and link, as `JD\U{212A} license missing` does. */
  lemma KelvinLicenseHint(d: BuildDiagnostic, x: string, y: string)
    requires d.message == "JD\U{212A}" + x + "license" + y
    ensures Enhance(d) == d.(relatedLink := Some(LicenseLink), message := d.message + LicenseHint)
  {
    var lx := JsToLowerCase(x);
    var ly := JsToLowerCase(y);
    KelvinLicenseLower(x, y);
    var m := JsToLowerCase(d.message);
    assert m[..3] == "jdk";
    assert OccursAt(m, "jdk", 0);
    ContainsMiddle("jdk" + lx, "license", ly);
    EnhanceRules(d);
  }

  /** How such a message lower-cases. */
  lemma KelvinLicenseLower(x: string, y: string)
    ensures JsToLowerCase("JD\U{212A}" + x + "license" + y) == "jdk" + JsToLowerCase(x) + "license" + JsToLowerCase(y)
  {
    JsToLowerCaseAppend4("JD\U{212A}", x, "license", y);
    KelvinLowersToK();
    LicenseLowerCase();
  }

  /** `license` is already lower case. */
  lemma LicenseLowerCase()
    ensures JsToLowerCase("license") == "license"
  {
    JsToLowerCaseKeeps("license");
  }

  /** Lines that are blank or that start with a tree connector are skipped. */
  predicate IsSkippedLine(t: string) {
    t == "" || StartsWith(t, "├──") || StartsWith(t, "╰──")
  }

  /** The synthetic diagnostic for a `FAILURE:` / `BUILD FAILED` line. */
  function FailureDiagnostic(t: string): BuildDiagnostic {
    BuildDiagnostic(Error, t, None, None, None, None, Some("Build"), None)
  }

  /** The diagnostic built from a pattern match, before enhancement. */
  function MatchedDiagnostic(m: LineMatch): BuildDiagnostic
    requires All(m.tail.line, IsDigit) && All(m.tail.column, IsDigit)
  {
    BuildDiagnostic(
      SeverityOf(m.prefix),
      JsTrim(m.tail.message),
      Some(JsTrim(m.file)),
      Some(DecimalValue(m.tail.line)),
      Some(DecimalValue(m.tail.column)),
      None,
      Some(DetermineSource(m.file)),
      None)
  }

  /** The diagnostic one output line yields, if any. */
  function LineDiagnostic(line: string): (r: Option<BuildDiagnostic>)
    ensures IsSkippedLine(JsTrim(line)) ==> r.None?
    ensures r.Some? ==> r.value.severity != Info
    ensures r.Some? ==> (r.value.file.Some? <==> r.value.line.Some?) && (r.value.line.Some? <==> r.value.column.Some?)
    ensures r.Some? && r.value.file.None? ==> r.value == FailureDiagnostic(JsTrim(line))
  {
    var t := JsTrim(line);
    if IsSkippedLine(t) then None
    else
      match MatchLine(t)
      case Some(m) => Some(Enhance(MatchedDiagnostic(m)))
      case None =>
        if StartsWith(t, "FAILURE:") || Contains(t, "BUILD FAILED") then Some(FailureDiagnostic(t))
        else None
  }

  /** A matched line: the severity is Warning exactly for the `w` prefix, the
      location and source come from the captured path, and the message is the
      trimmed captured message, with the license hint at most appended. */
  lemma MatchedLine(line: string)
    requires !IsSkippedLine(JsTrim(line)) && MatchLine(JsTrim(line)).Some?
    ensures
      var m := MatchLine(JsTrim(line)).value;
      var r := LineDiagnostic(line);
      && r.Some?
      && (r.value.severity == Warning <==> m.prefix == Some('w'))
      && r.value.file == Some(JsTrim(m.file))
      && r.value.line == Some(DecimalValue(m.tail.line))
      && r.value.column == Some(DecimalValue(m.tail.column))
      && r.value.source == Some(DetermineSource(m.file))
      && (r.value.message == JsTrim(m.tail.message)
          || r.value.message == JsTrim(m.tail.message) + LicenseHint)
  {
  }

  /** An unmatched `FAILURE:` / `BUILD FAILED` line gives exactly one unlocated error
      whose message is the trimmed line, with no enhancement. */
  lemma FailureLine(line: string)
    requires !IsSkippedLine(JsTrim(line)) && MatchLine(JsTrim(line)).None?
    requires StartsWith(JsTrim(line), "FAILURE:") || Contains(JsTrim(line), "BUILD FAILED")
    ensures LineDiagnostic(line) == Some(FailureDiagnostic(JsTrim(line)))
  {
  }

  /** A warning always carries a location: only the pattern with a `w` prefix makes one. */
  lemma WarningsAreLocated(line: string)
    requires LineDiagnostic(line).Some? && LineDiagnostic(line).value.severity == Warning
    ensures LineDiagnostic(line).value.file.Some?
    ensures MatchLine(JsTrim(line)).Some? && MatchLine(JsTrim(line)).value.prefix == Some('w')
  {
  }

  // ---------------------------------------------------------------------------
  // Printed lines read back
  // ---------------------------------------------------------------------------

  /** The form a compiler prints a located message in: `<p>: <file>:<line>:<column>: <message>`. */
  function Formatted(prefix: char, file: string, line: string, column: string, message: string): string {
    [prefix] + ": " + file + ":" + line + ":" + column + ": " + message
  }

  /** No `:` of the path is followed by a digit, so no tail starts inside it (a
      drive colon is followed by `\`). */
  predicate NoDigitAfterColon(file: string) {
    forall k :: 0 <= k < |file| - 1 && file[k] == ':' ==> !IsDigit(file[k + 1])
  }

  /** What the printed form's parts must be for the line to read back as printed. */
  predicate Printable(prefix: char, file: string, line: string, column: string, message: string) {
    && (prefix == 'e' || prefix == 'w')
    && |file| > 0 && !IsJsSpace(file[0]) && !IsJsSpace(file[|file| - 1])
    && All(file, NotLineTerminator) && NoDigitAfterColon(file)
    && |line| > 0 && All(line, IsDigit) && |column| > 0 && All(column, IsDigit)
    && |message| > 0 && !IsJsSpace(message[0]) && !IsJsSpace(message[|message| - 1])
    && All(message, NotLineTerminator)
  }

  /** Reading a printed line back: the prefix, path, position and message come out
      as they were printed, and only the enhancement chain touches the result. */
  lemma FormattedLineParses(prefix: char, file: string, line: string, column: string, message: string)
    requires Printable(prefix, file, line, column, message)
    ensures LineDiagnostic(Formatted(prefix, file, line, column, message))
      == Some(Enhance(BuildDiagnostic(SeverityOf(Some(prefix)), message, Some(file),
           Some(DecimalValue(line)), Some(DecimalValue(column)), None, Some(DetermineSource(file)), None)))
  {
    FormattedKept(prefix, file, line, column, message);
    TrimOfTrimmed(file, IsJsSpace);
    TrimOfTrimmed(message, IsJsSpace);
    FormattedMatch(prefix, file, line, column, message);
  }

  /** A printed line has nothing to trim and is not skipped. */
  lemma FormattedKept(prefix: char, file: string, line: string, column: string, message: string)
    requires Printable(prefix, file, line, column, message)
    ensures var t := Formatted(prefix, file, line, column, message);
      JsTrim(t) == t && !IsSkippedLine(t)
  {
    var t := Formatted(prefix, file, line, column, message);
    FormattedIndices(prefix, file, line, column, message);
    assert t[|t| - 1] == message[|message| - 1];
    assert t[0] != '├' && t[0] != '╰';
    TrimOfTrimmed(t, IsJsSpace);
    NotConnectorLine(t);
  }

  /** A line whose first character is not a box-drawing corner is not skipped. */
  lemma NotConnectorLine(t: string)
    requires |t| > 0 && t[0] != '├' && t[0] != '╰'
    ensures !IsSkippedLine(t)
  {
    assert !StartsWith(t, "├──") by { assert "├──"[0] == '├'; }
    assert !StartsWith(t, "╰──") by { assert "╰──"[0] == '╰'; }
  }

  /** The pattern splits a printed line into the printed parts. */
  lemma FormattedMatch(prefix: char, file: string, line: string, column: string, message: string)
    requires Printable(prefix, file, line, column, message)
    ensures MatchLine(Formatted(prefix, file, line, column, message))
      == Some(LineMatch(Some(prefix), file, Tail(line, column, message)))
  {
    var t := Formatted(prefix, file, line, column, message);
    var p := 3 + |file|;
    FormattedIndices(prefix, file, line, column, message);
    assert HasSeverityPrefix(t);
    RunEndIs(t, 2, 3, IsJsSpace);
    FormattedTail(prefix, file, line, column, message);
    FormattedNoEarlierTail(prefix, file, line, column, message);
    MatchAtFirstTail(t, Some(prefix), 3, p);
    assert t[3..p] == file;
  }

  /** No tail starts inside the path of a printed line. */
  lemma FormattedNoEarlierTail(prefix: char, file: string, line: string, column: string, message: string)
    requires Printable(prefix, file, line, column, message)
    ensures forall k :: 3 <= k < 3 + |file| ==> TailAt(Formatted(prefix, file, line, column, message), k).None?
  {
    var t := Formatted(prefix, file, line, column, message);
    FormattedIndices(prefix, file, line, column, message);
    forall k | 3 <= k < 3 + |file|
      ensures TailAt(t, k).None?
    {
      assert t[k + 1] == ':' || t[k + 1] == file[k - 2];
      NoTailWithoutDigit(t, k);
    }
  }

  /** A tail needs a digit after its `:`. */
  lemma NoTailWithoutDigit(t: string, k: nat)
    requires k + 1 < |t| && (t[k] != ':' || !IsDigit(t[k + 1]))
    ensures TailAt(t, k).None?
  {
    if t[k] == ':' {
      RunEndIs(t, k + 1, k + 1, IsDigit);
    }
  }

  /** The tail of a printed line starts at the colon after the path. */
  lemma FormattedTail(prefix: char, file: string, line: string, column: string, message: string)
    requires Printable(prefix, file, line, column, message)
    ensures TailAt(Formatted(prefix, file, line, column, message), 3 + |file|) == Some(Tail(line, column, message))
  {
    var t := Formatted(prefix, file, line, column, message);
    var p := 3 + |file|;
    var a := p + 1 + |line|;
    var b := a + 1 + |column|;
    FormattedIndices(prefix, file, line, column, message);
    assert t[p + 1..a] == line && t[a + 1..b] == column && t[b + 2..] == message;
    TailAtIs(t, p, a, b);
  }

  /** `TailAt` reads `:` digits `:` digits `:` one space and the rest, when the
      digit runs and the space are exactly as long as they can be. */
  lemma TailAtIs(t: string, p: nat, a: nat, b: nat)
    requires p + 1 < a && a + 1 < b && b + 2 <= |t|
    requires t[p] == ':' && t[a] == ':' && t[b] == ':' && IsJsSpace(t[b + 1])
    requires forall k :: p + 1 <= k < a ==> IsDigit(t[k])
    requires forall k :: a + 1 <= k < b ==> IsDigit(t[k])
    requires b + 2 == |t| || !IsJsSpace(t[b + 2])
    requires All(t[b + 2..], NotLineTerminator)
    ensures TailAt(t, p) == Some(Tail(t[p + 1..a], t[a + 1..b], t[b + 2..]))
  {
    RunEndIs(t, p + 1, a, IsDigit);
    RunEndIs(t, a + 1, b, IsDigit);
    RunEndIs(t, b + 1, b + 2, IsJsSpace);
  }

  /** The scan from `s` stops at `p` when a tail starts there, none starts before it,
      and `.` can run from `s` to `p`. */
  lemma MatchAtFirstTail(t: string, prefix: Option<char>, s: nat, p: nat)
    requires s <= p <= |t| && TailAt(t, p).Some? && Dotted(t, s, p)
    requires forall k :: s <= k < p ==> TailAt(t, k).None?
    ensures MatchFrom(t, prefix, s) == Some(LineMatch(prefix, t[s..p], TailAt(t, p).value))
  {
    var r := ScanFile(t, s);
    assert r.Some?;
    assert r.value == p;
  }

  /** Where each part sits in the printed line. */
  lemma FormattedIndices(prefix: char, file: string, line: string, column: string, message: string)
    ensures var t := Formatted(prefix, file, line, column, message);
      var p := 3 + |file|;
      var a := p + 1 + |line|;
      var b := a + 1 + |column|;
      && |t| == b + 2 + |message|
      && t[0] == prefix && t[1] == ':' && t[2] == ' '
      && (forall k :: 0 <= k < |file| ==> t[3 + k] == file[k])
      && t[p] == ':' && t[a] == ':' && t[b] == ':' && t[b + 1] == ' '
      && (forall k :: 0 <= k < |line| ==> t[p + 1 + k] == line[k])
      && (forall k :: 0 <= k < |column| ==> t[a + 1 + k] == column[k])
      && (forall k :: 0 <= k < |message| ==> t[b + 2 + k] == message[k])
  {
  }

  /** A Windows path keeps its drive colon in the file: `e: C:\p\a.kt:10:5: msg`
      is an error in `C:\p\a.kt` at line 10, column 5, with message `msg`. */
  lemma WindowsPathLine()
    ensures LineDiagnostic(Formatted('e', "C:\\p\\a.kt", "10", "5", "msg"))
      == Some(BuildDiagnostic(Error, "msg", Some("C:\\p\\a.kt"), Some(10), Some(5), None, Some("Kotlin"), None))
  {
    WindowsPathPrintable();
    FormattedLineParses('e', "C:\\p\\a.kt", "10", "5", "msg");
    WindowsPathSource();
    WindowsPathPosition();
    PlainMessageKept(BuildDiagnostic(Error, "msg", Some("C:\\p\\a.kt"), Some(10), Some(5), None, Some("Kotlin"), None));
  }

  /** The example's path names a Kotlin file. */
  lemma WindowsPathSource()
    ensures DetermineSource("C:\\p\\a.kt") == "Kotlin"
  {
    assert "C:\\p\\a.kt"[6..] == ".kt";
  }

  /** The example's position digits. */
  lemma WindowsPathPosition()
    ensures DecimalValue("10") == 10 && DecimalValue("5") == 5
  {
  }

  /** The message `msg` matches no enhancement rule. */
  lemma PlainMessageKept(d: BuildDiagnostic)
    requires d.message == "msg"
    ensures Enhance(d) == d
  {
    JsToLowerCaseKeeps("msg");
    EnhanceRules(d);
  }

  /** The example's parts print into a line that reads back. */
  lemma WindowsPathPrintable()
    ensures Printable('e', "C:\\p\\a.kt", "10", "5", "msg")
  {
    var file := "C:\\p\\a.kt";
    assert NoDigitAfterColon(file);
    assert All(file, NotLineTerminator) && All("msg", NotLineTerminator);
  }

  // ---------------------------------------------------------------------------
  // The whole output
  // ---------------------------------------------------------------------------

  function AsSeq<T>(o: Option<T>): seq<T> {
    match o
    case Some(x) => [x]
    case None => []
  }

  function ParseBuildOutput(output: string, success: bool, duration: int,
                            moduleName: Option<string>, taskName: Option<string>): (r: BuildResult)
    ensures r.success == success && r.duration == duration
    ensures r.moduleName == moduleName && r.taskName == taskName
    ensures r.rawOutput == output
    ensures |r.diagnostics| <= |Split(output, '\n')|
    ensures forall d :: d in r.diagnostics ==> d.severity != Info
    ensures output == "" ==> r.diagnostics == []
  {
    var lines := Split(output, '\n');
    assert output == "" ==> lines == [""] by {
      if output == "" { SplitNoSeparator(output, '\n'); }
    }
    BuildResult(success, duration, FilterMap(LineDiagnostic, lines), output, moduleName, taskName)
  }

  /** Lines are independent and kept in order: the diagnostics of two outputs joined
      by a newline are those of the first followed by those of the second. */
  lemma ParseConcatenation(a: string, b: string, success: bool, duration: int)
    ensures ParseBuildOutput(a + "\n" + b, success, duration, None, None).diagnostics
         == ParseBuildOutput(a, success, duration, None, None).diagnostics
          + ParseBuildOutput(b, success, duration, None, None).diagnostics
  {
    SplitAround(a, b, '\n');
    FilterMapAppend(LineDiagnostic, Split(a, '\n'), Split(b, '\n'));
  }

  /** A one-line output yields exactly what that line yields. */
  lemma SingleLineOutput(line: string, success: bool, duration: int)
    requires '\n' !in line
    ensures ParseBuildOutput(line, success, duration, None, None).diagnostics
         == AsSeq(LineDiagnostic(line))
  {
    SplitNoSeparator(line, '\n');
    assert [line][1..] == [];
  }
}
