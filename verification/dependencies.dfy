/** The dependency-tree parser of `DependencyService`: the tree-drawn, indented
    output of `show dependencies` becomes a forest of dependencies, one node per
    accepted line, nested by a stack of depths. Also the command arguments, the
    error-to-empty rule, and the bounded retry of the provider's loader. */
module Dependencies {
  import opened Wrappers
  import opened Text
  import opened Seqs
  import opened Process

  /** One dependency and the dependencies it pulls in. The parser always sets a
      version, so it is a plain string; `conflictWith` is never set and is not kept. */
  datatype DependencyInfo = DependencyInfo(
    name: string,
    version: string,
    scope: Option<string>,
    children: seq<DependencyInfo>,
    isConflict: bool)

  // ---------------------------------------------------------------------------
  // Scope headers: /^Module\s+.*scope\s*=\s*(\w+)/i on the untrimmed line
  // ---------------------------------------------------------------------------

  /** `scope\s*=\s*(\w+)` at `k`; each run is greedy and giving any of it back
      cannot help, so every run is maximal and the word is what `\w+` captures. */
  function ScopeWordAt(t: string, k: nat): (r: Option<string>)
    requires k <= |t|
    ensures r.Some? ==> OccursAtIgnoringCase(t, "scope", k)
    ensures r.Some? ==> |r.value| > 0 && All(r.value, IsWordChar)
  {
    if OccursAtIgnoringCase(t, "scope", k) then
      var e := RunEnd(t, k + 5, IsJsSpace);
      if e < |t| && t[e] == '=' then
        var v := RunEnd(t, e + 1, IsJsSpace);
        var w := RunEnd(t, v, IsWordChar);
        if w > v then Some(t[v..w]) else None
      else None
    else None
  }

  /** Positions of `t` where a scope word starts. */
  function ScopeWordStarts(t: string): nat -> bool {
    (k: nat) => k <= |t| && ScopeWordAt(t, k).Some?
  }

  /** The word a scope header captures. `\s+` is greedy; a shorter run only lets `.*`
      start on whitespace, where no `scope` can begin, so it finds nothing new. */
  function ScopeHeader(line: string): (r: Option<string>)
    ensures r.Some? ==> OccursAtIgnoringCase(line, "module", 0) && |line| > 6 && IsJsSpace(line[6])
    ensures r.Some? ==> |r.value| > 0 && All(r.value, IsWordChar)
  {
    if OccursAtIgnoringCase(line, "module", 0) && |line| > 6 && IsJsSpace(line[6]) then
      var e := RunEnd(line, 6, IsJsSpace);
      var j := RunEnd(line, e, NotLineTerminator);
      match LastWhere(ScopeWordStarts(line), e, j)
      case Some(k) => ScopeWordAt(line, k)
      case None => None
    else None
  }

  /** A header is found exactly when some position the `.*` can reach holds a scope
      word; the word found is the one at the rightmost such position, since the
      greedy `.*` backs off from the end of the line. */
  lemma ScopeHeaderRightmost(line: string)
    requires OccursAtIgnoringCase(line, "module", 0) && |line| > 6 && IsJsSpace(line[6])
    ensures
      var e := RunEnd(line, 6, IsJsSpace);
      var j := RunEnd(line, e, NotLineTerminator);
      && (ScopeHeader(line).Some? <==> exists k :: e <= k <= j && ScopeWordAt(line, k).Some?)
      && (ScopeHeader(line).Some? ==>
            exists k :: (e <= k <= j && ScopeHeader(line) == ScopeWordAt(line, k)
              && forall k' :: k < k' <= j ==> ScopeWordAt(line, k').None?))
  {
    var e := RunEnd(line, 6, IsJsSpace);
    var j := RunEnd(line, e, NotLineTerminator);
    var p := ScopeWordStarts(line);
    assert forall k :: e <= k <= j ==> (p(k) <==> ScopeWordAt(line, k).Some?);
  }

  // ---------------------------------------------------------------------------
  // Tree prefix and depth: /^([\|\s+\\─├╰]*)/
  // ---------------------------------------------------------------------------

  /** The characters of the tree-prefix class. The vertical box-drawing character
      `│` (U+2502) is not among them. */
  predicate IsTreePrefixChar(c: char) {
    c == '|' || IsJsSpace(c) || c == '+' || c == '\\' || c == '\U{2500}' || c == '\U{251C}' || c == '\U{2570}'
  }

  const Filler: char := '\U{2502}'

  /** Columns per tree level. */
  const LevelWidth: nat := 5

  function PrefixLength(line: string): (n: nat)
    ensures n <= |line|
    ensures forall k :: 0 <= k < n ==> IsTreePrefixChar(line[k])
    ensures n == |line| || !IsTreePrefixChar(line[n])
  {
    RunEnd(line, 0, IsTreePrefixChar)
  }

  /** The filler check (a prefix that trims to `│` and spans the whole line) never
      fires: the prefix holds only prefix-class characters and `│` is not one. */
  lemma FillerCheckIsDead(line: string)
    ensures JsTrim(line[..PrefixLength(line)]) != [Filler]
  {
    var p := line[..PrefixLength(line)];
    var r := JsTrim(p);
    var i, j :| 0 <= i <= j <= |p| && r == p[i..j];
    if |r| == 1 {
      assert r[0] == p[i];
      assert IsTreePrefixChar(r[0]);
    }
  }

  // ---------------------------------------------------------------------------
  // The coordinate: /([^\s:]+:[^\s:]+:[^\s:\(]+)(?:\s+->\s+([^\s]+))?/
  // ---------------------------------------------------------------------------

  predicate IsCoordinateChar(c: char) { !IsJsSpace(c) && c != ':' }

  predicate IsVersionChar(c: char) { IsCoordinateChar(c) && c != '(' }

  datatype Coordinate = Coordinate(group: string, artifact: string, version: string, conflict: Option<string>)

  /** What the three runs and the override can capture. */
  predicate WellFormed(c: Coordinate) {
    && |c.group| > 0 && All(c.group, IsCoordinateChar)
    && |c.artifact| > 0 && All(c.artifact, IsCoordinateChar)
    && |c.version| > 0 && All(c.version, IsVersionChar)
    && (c.conflict.Some? ==> |c.conflict.value| > 0 && All(c.conflict.value, NotJsSpace))
  }

  /** `group:artifact:version` as it appears in the text. */
  function CoordinateText(c: Coordinate): string {
    c.group + ":" + c.artifact + ":" + c.version
  }

  /** The optional `\s+->\s+([^\s]+)` at `c`: greedy, tried first, skipped when it fails. */
  function OverrideAt(t: string, c: nat): (r: Option<string>)
    requires c <= |t|
    ensures r.Some? ==> |r.value| > 0 && All(r.value, NotJsSpace)
  {
    var s1 := RunEnd(t, c, IsJsSpace);
    if s1 > c && s1 + 2 <= |t| && t[s1] == '-' && t[s1 + 1] == '>' then
      var s2 := RunEnd(t, s1 + 2, IsJsSpace);
      var v := RunEnd(t, s2, NotJsSpace);
      if s2 > s1 + 2 && v > s2 then Some(t[s2..v]) else None
    else None
  }

  /** The mandatory part at `i`. Each run is greedy and must be maximal: a shorter one
      is followed by a class character, which is neither `:` nor the end. */
  function CoordinateAt(t: string, i: nat): (r: Option<Coordinate>)
    requires i <= |t|
    ensures r.Some? ==> WellFormed(r.value)
  {
    var a := RunEnd(t, i, IsCoordinateChar);
    if a > i && a < |t| && t[a] == ':' then
      var b := RunEnd(t, a + 1, IsCoordinateChar);
      if b > a + 1 && b < |t| && t[b] == ':' then
        var c := RunEnd(t, b + 1, IsVersionChar);
        if c > b + 1 then
          Some(Coordinate(t[i..a], t[a + 1..b], t[b + 1..c], OverrideAt(t, c)))
        else None
      else None
    else None
  }

  /** Where the match sits: the coordinate text occurs at `i`, the version run is
      maximal, and the override is read right after it. */
  lemma CoordinateAtText(t: string, i: nat)
    requires i <= |t| && CoordinateAt(t, i).Some?
    ensures
      var x := CoordinateAt(t, i).value;
      var c := i + |CoordinateText(x)|;
      && OccursAt(t, CoordinateText(x), i)
      && (c == |t| || !IsVersionChar(t[c]))
      && x.conflict == OverrideAt(t, c)
  {
    var a := RunEnd(t, i, IsCoordinateChar);
    var b := RunEnd(t, a + 1, IsCoordinateChar);
    var c := RunEnd(t, b + 1, IsVersionChar);
    assert a > i && a < |t| && t[a] == ':';
    assert b > a + 1 && b < |t| && t[b] == ':';
    assert c > b + 1;
    var x := CoordinateAt(t, i).value;
    assert x == Coordinate(t[i..a], t[a + 1..b], t[b + 1..c], OverrideAt(t, c));
    CoordinateParts(t, i, a, b, c, x);
    assert OccursAt(t, CoordinateText(x), i);
    assert c == |t| || !IsVersionChar(t[c]);
  }

  /** The coordinate text is the slice its three parts were cut from. */
  lemma CoordinateParts(t: string, i: nat, a: nat, b: nat, c: nat, x: Coordinate)
    requires i < a < b < c <= |t| && t[a] == ':' && t[b] == ':'
    requires x.group == t[i..a] && x.artifact == t[a + 1..b] && x.version == t[b + 1..c]
    ensures CoordinateText(x) == t[i..c] && i + |CoordinateText(x)| == c
  {
    SliceAround(t, i, a, b, c);
  }

  /** A slice cut at two single characters. */
  lemma SliceAround(t: string, i: nat, a: nat, b: nat, c: nat)
    requires i <= a < b < c <= |t|
    ensures t[i..c] == t[i..a] + [t[a]] + t[a + 1..b] + [t[b]] + t[b + 1..c]
  {
  }

  /** The unanchored search: the leftmost start at or after `i` where the pattern matches. */
  function FindCoordinate(t: string, i: nat): (r: Option<nat>)
    requires i <= |t|
    ensures r.Some? ==> i <= r.value <= |t| && CoordinateAt(t, r.value).Some?
    ensures r.Some? ==> forall k :: i <= k < r.value ==> CoordinateAt(t, k).None?
    ensures r.None? ==> forall k :: i <= k <= |t| ==> CoordinateAt(t, k).None?
    decreases |t| - i
  {
    if CoordinateAt(t, i).Some? then Some(i)
    else if i == |t| then None
    else FindCoordinate(t, i + 1)
  }

  function MatchCoordinate(content: string): (r: Option<Coordinate>)
    ensures r.Some? <==> exists k :: 0 <= k <= |content| && CoordinateAt(content, k).Some?
    ensures r.Some? ==> WellFormed(r.value)
    ensures r.Some? ==> exists k :: (0 <= k <= |content| && r == CoordinateAt(content, k)
      && forall k' :: 0 <= k' < k ==> CoordinateAt(content, k').None?)
  {
    match FindCoordinate(content, 0)
    case Some(k) => CoordinateAt(content, k)
    case None => None
  }

  /** Splitting the matched coordinate on `:` gives exactly its three parts, so the
      `parts.length < 3` check never fires. */
  lemma CoordinateSplits(c: Coordinate)
    requires ':' !in c.group && ':' !in c.artifact && ':' !in c.version
    ensures Split(CoordinateText(c), ':') == [c.group, c.artifact, c.version]
  {
    var parts := [c.group, c.artifact, c.version];
    assert Join(parts[2..], ":") == c.version;
    assert Join(parts[1..], ":") == c.artifact + ":" + c.version;
    assert Join(parts, ":") == CoordinateText(c);
    SplitJoin(parts, ':');
  }

  // ---------------------------------------------------------------------------
  // The shown version
  // ---------------------------------------------------------------------------

  /** The status suffix; the checks run in the order FAILED, `(c)`, `(*)`. */
  datatype Marker = NoMarker | FailedMarker | ConstraintMarker | OmittedMarker

  function MarkerOf(content: string): (m: Marker)
    ensures m == FailedMarker <==> Contains(content, "FAILED")
    ensures m == ConstraintMarker <==> !Contains(content, "FAILED") && Contains(content, "(c)")
    ensures m == OmittedMarker <==> !Contains(content, "FAILED") && !Contains(content, "(c)") && Contains(content, "(*)")
  {
    if Contains(content, "FAILED") then FailedMarker
    else if Contains(content, "(c)") then ConstraintMarker
    else if Contains(content, "(*)") then OmittedMarker
    else NoMarker
  }

  function MarkerWord(m: Marker): string {
    match m
    case NoMarker => ""
    case FailedMarker => "(FAILED)"
    case ConstraintMarker => "(constraint)"
    case OmittedMarker => "(omitted)"
  }

  /** `v1`, or `v1 -> v2` for an override, followed by ` (FAILED)`, ` (constraint)`
      or ` (omitted)` when the line carries that marker. */
  function VersionInfo(version: string, conflict: Option<string>, m: Marker): string {
    version
      + (if conflict.Some? then " -> " + conflict.value else "")
      + (if m == NoMarker then "" else " " + MarkerWord(m))
  }

  function WordMarker(w: string): Option<Marker> {
    if w == "(FAILED)" then Some(FailedMarker)
    else if w == "(constraint)" then Some(ConstraintMarker)
    else if w == "(omitted)" then Some(OmittedMarker)
    else None
  }

  datatype ShownVersion = ShownVersion(version: string, conflict: Option<string>, marker: Marker)

  /** Reads a shown version back: versions hold no spaces, so the space-separated
      pieces are the version, an optional `-> v2`, and an optional marker. */
  function DecodeVersionInfo(s: string): Option<ShownVersion> {
    var p := Split(s, ' ');
    if |p| == 1 then Some(ShownVersion(p[0], None, NoMarker))
    else if |p| == 2 && WordMarker(p[1]).Some? then Some(ShownVersion(p[0], None, WordMarker(p[1]).value))
    else if |p| == 3 && p[1] == "->" then Some(ShownVersion(p[0], Some(p[2]), NoMarker))
    else if |p| == 4 && p[1] == "->" && WordMarker(p[3]).Some? then Some(ShownVersion(p[0], Some(p[2]), WordMarker(p[3]).value))
    else None
  }

  /** The shown version loses nothing: version, override and marker can be read back. */
  lemma VersionInfoRoundTrip(version: string, conflict: Option<string>, m: Marker)
    requires ' ' !in version
    requires conflict.Some? ==> ' ' !in conflict.value
    ensures DecodeVersionInfo(VersionInfo(version, conflict, m)) == Some(ShownVersion(version, conflict, m))
  {
    if conflict.None? && m == NoMarker {
      assert VersionInfo(version, conflict, m) == version;
      SplitJoin([version], ' ');
    } else if conflict.None? {
      DecodeMarked(version, m);
    } else if m == NoMarker {
      DecodeOverride(version, conflict.value);
    } else {
      DecodeOverrideMarked(version, conflict.value, m);
    }
  }

  lemma DecodeMarked(version: string, m: Marker)
    requires ' ' !in version && m != NoMarker
    ensures DecodeVersionInfo(VersionInfo(version, None, m)) == Some(ShownVersion(version, None, m))
  {
    var w := MarkerWord(m);
    assert ' ' !in w && WordMarker(w) == Some(m);
    assert VersionInfo(version, None, m) == version + " " + w;
    JoinTwo(version, w, " ");
    SplitJoin([version, w], ' ');
  }

  lemma DecodeOverride(version: string, v: string)
    requires ' ' !in version && ' ' !in v
    ensures DecodeVersionInfo(VersionInfo(version, Some(v), NoMarker)) == Some(ShownVersion(version, Some(v), NoMarker))
  {
    ArrowParts(version, v);
    assert VersionInfo(version, Some(v), NoMarker) == version + " " + "->" + " " + v;
    JoinThree(version, "->", v, " ");
    SplitJoin([version, "->", v], ' ');
  }

  lemma DecodeOverrideMarked(version: string, v: string, m: Marker)
    requires ' ' !in version && ' ' !in v && m != NoMarker
    ensures DecodeVersionInfo(VersionInfo(version, Some(v), m)) == Some(ShownVersion(version, Some(v), m))
  {
    var w := MarkerWord(m);
    assert ' ' !in w && WordMarker(w) == Some(m);
    MarkedOverrideText(version, v, m);
    DecodeFourPieces(version, v, w, m);
  }

  /** An override with a marker is shown as four space-separated pieces. */
  lemma MarkedOverrideText(version: string, v: string, m: Marker)
    requires m != NoMarker
    ensures VersionInfo(version, Some(v), m) == Join([version, "->", v, MarkerWord(m)], " ")
  {
    var w := MarkerWord(m);
    ArrowParts(version, v);
    ConcatAssoc(version + " " + "->" + " " + v, " ", w);
    JoinFour(version, "->", v, w, " ");
  }

  /** Four pieces without spaces, an arrow second and a marker last, read back as
      an override with that marker. */
  lemma DecodeFourPieces(version: string, v: string, w: string, m: Marker)
    requires ' ' !in version && ' ' !in v && ' ' !in w && WordMarker(w) == Some(m)
    ensures DecodeVersionInfo(Join([version, "->", v, w], " ")) == Some(ShownVersion(version, Some(v), m))
  {
    SplitJoin([version, "->", v, w], ' ');
  }

  /** The arrow of an override is a space-separated piece of its own. */
  lemma ArrowParts(a: string, b: string)
    ensures a + (" -> " + b) == a + " " + "->" + " " + b
  {
    assert " -> " == " " + "->" + " ";
    ConcatAssoc(a, " " + "->" + " ", b);
    ConcatAssoc(a, " " + "->", " ");
    ConcatAssoc(a, " ", "->");
  }

  // ---------------------------------------------------------------------------
  // One line
  // ---------------------------------------------------------------------------

  /** What an accepted line contributes before the scope is attached. */
  datatype Entry = Entry(depth: nat, name: string, version: string, isConflict: bool)

  datatype LineKind = Skipped | ScopeLine(scope: string) | EntryLine(entry: Entry)

  /** The text after the tree prefix, trimmed. */
  function Content(line: string): string {
    JsTrim(line[PrefixLength(line)..])
  }

  /** The entry a coordinate line yields. */
  function EntryOf(line: string, c: Coordinate): (e: Entry) {
    var m := MarkerOf(Content(line));
    Entry(PrefixLength(line) / LevelWidth, c.group + ":" + c.artifact, VersionInfo(c.version, c.conflict, m), m == FailedMarker)
  }

  /** One line of output, tested in the order `parseDependencyOutput` tests it: blank,
      scope header, `Module ` or `Dependencies of module` start, a `:`, a coordinate
      match. The `prefix.trim() === '│'` check and the `parts.length < 3` check are
      left out: they never fire (`FillerCheckIsDead`, `CoordinateSplits`). */
  function ClassifyLine(line: string): (r: LineKind)
    ensures JsTrim(line) == "" ==> r == Skipped
    ensures r.ScopeLine? <==> JsTrim(line) != "" && ScopeHeader(line).Some?
    ensures r.ScopeLine? ==> r.scope == ToLower(ScopeHeader(line).value)
    ensures r.EntryLine? ==> ':' in line && !StartsWith(line, "Module ") && !StartsWith(line, "Dependencies of module")
    ensures r.EntryLine? <==>
      (JsTrim(line) != "" && ScopeHeader(line).None?
       && !StartsWith(line, "Module ") && !StartsWith(line, "Dependencies of module")
       && ':' in line && MatchCoordinate(Content(line)).Some?)
    ensures r.EntryLine? ==> r.entry == EntryOf(line, MatchCoordinate(Content(line)).value)
  {
    if JsTrim(line) == "" then Skipped
    else
      match ScopeHeader(line)
      case Some(w) => ScopeLine(ToLower(w))
      case None =>
        if StartsWith(line, "Module ") || StartsWith(line, "Dependencies of module") then Skipped
        else if ':' !in line then Skipped
        else
          match MatchCoordinate(Content(line))
          case None => Skipped
          case Some(c) => EntryLine(EntryOf(line, c))
  }

  /** The name of an entry is `group:artifact` and splits back into the two. */
  lemma EntryName(line: string, c: Coordinate)
    requires WellFormed(c)
    ensures EntryOf(line, c).name == c.group + ":" + c.artifact
    ensures Split(EntryOf(line, c).name, ':') == [c.group, c.artifact]
  {
    AllExcludes(c.group, IsCoordinateChar, ':');
    AllExcludes(c.artifact, IsCoordinateChar, ':');
    JoinTwo(c.group, c.artifact, ":");
    SplitJoin([c.group, c.artifact], ':');
  }

  /** The shown version decodes to the matched version, override and marker, and the
      conflict flag holds exactly when the content mentions `FAILED`. */
  lemma EntryVersion(line: string, c: Coordinate)
    requires WellFormed(c)
    ensures DecodeVersionInfo(EntryOf(line, c).version) == Some(ShownVersion(c.version, c.conflict, MarkerOf(Content(line))))
    ensures EntryOf(line, c).isConflict <==> Contains(Content(line), "FAILED")
    ensures EntryOf(line, c).isConflict <==> DecodeVersionInfo(EntryOf(line, c).version).value.marker == FailedMarker
  {
    AllExcludes(c.version, IsVersionChar, ' ');
    if c.conflict.Some? {
      AllExcludes(c.conflict.value, NotJsSpace, ' ');
    }
    VersionInfoRoundTrip(c.version, c.conflict, MarkerOf(Content(line)));
  }

  /** An accepted line's depth is its tree-prefix length over five. */
  lemma EntryDepth(line: string)
    requires ClassifyLine(line).EntryLine?
    ensures ClassifyLine(line).entry.depth == PrefixLength(line) / LevelWidth
    ensures WellFormed(MatchCoordinate(Content(line)).value)
  {
  }

  // ---------------------------------------------------------------------------
  // The forest
  // ---------------------------------------------------------------------------

  /** A node without its children: what one line contributed. */
  function Label(d: DependencyInfo): DependencyInfo {
    d.(children := [])
  }

  /** The nodes of a forest in pre-order, each without its children. */
  function Flatten(ds: seq<DependencyInfo>): seq<DependencyInfo>
    decreases ds
  {
    if |ds| == 0 then []
    else [Label(ds[0])] + Flatten(ds[0].children) + Flatten(ds[1..])
  }

  lemma FlattenSingle(d: DependencyInfo)
    ensures Flatten([d]) == [Label(d)] + Flatten(d.children)
  {
    assert [d][1..] == [];
  }

  lemma {:induction false} FlattenAppend(xs: seq<DependencyInfo>, ys: seq<DependencyInfo>)
    ensures Flatten(xs + ys) == Flatten(xs) + Flatten(ys)
    decreases |xs|
  {
    if |xs| == 0 {
      assert xs + ys == ys;
    } else {
      assert (xs + ys)[0] == xs[0];
      assert (xs + ys)[1..] == xs[1..] + ys;
      FlattenAppend(xs[1..], ys);
    }
  }

  /** Replacing the last tree of a forest by one whose pre-order extends it. */
  lemma FlattenReplaceLast(xs: seq<DependencyInfo>, d: DependencyInfo, d': DependencyInfo, extra: seq<DependencyInfo>)
    requires |xs| > 0 && xs[|xs| - 1] == d
    requires Flatten([d']) == Flatten([d]) + extra
    ensures Flatten(xs[..|xs| - 1] + [d']) == Flatten(xs) + extra
  {
    var front := xs[..|xs| - 1];
    assert xs == front + [d];
    FlattenAppend(front, [d]);
    FlattenAppend(front, [d']);
    ConcatAssoc(Flatten(front), Flatten([d]), extra);
  }

  /** The number of nodes on the path that always follows the last child. */
  function SpineLength(d: DependencyInfo): nat
    decreases d
  {
    if |d.children| == 0 then 1 else 1 + SpineLength(d.children[|d.children| - 1])
  }

  /** Adds `leaf` as the last child of the node `level` steps down that path. */
  function AppendAtSpine(d: DependencyInfo, level: nat, leaf: DependencyInfo): (r: DependencyInfo)
    requires level < SpineLength(d)
    ensures Label(r) == Label(d)
    decreases d
  {
    if level == 0 then d.(children := d.children + [leaf])
    else
      var n := |d.children|;
      d.(children := d.children[..n - 1] + [AppendAtSpine(d.children[n - 1], level - 1, leaf)])
  }

  /** The new leaf ends the path, so it is where the next deeper line can attach. */
  lemma {:induction false} AppendAtSpineLength(d: DependencyInfo, level: nat, leaf: DependencyInfo)
    requires level < SpineLength(d) && leaf.children == []
    ensures SpineLength(AppendAtSpine(d, level, leaf)) == level + 2
    decreases d
  {
    if level > 0 {
      AppendAtSpineLength(d.children[|d.children| - 1], level - 1, leaf);
    }
  }

  /** The new leaf comes last in pre-order. */
  lemma {:induction false} AppendAtSpineFlatten(d: DependencyInfo, level: nat, leaf: DependencyInfo)
    requires level < SpineLength(d) && leaf.children == []
    ensures Flatten([AppendAtSpine(d, level, leaf)]) == Flatten([d]) + [leaf]
    decreases d
  {
    var r := AppendAtSpine(d, level, leaf);
    FlattenSingle(r);
    FlattenSingle(d);
    FlattenSingle(leaf);
    if level == 0 {
      FlattenAppend(d.children, [leaf]);
    } else {
      var last := d.children[|d.children| - 1];
      AppendAtSpineFlatten(last, level - 1, leaf);
      FlattenReplaceLast(d.children, last, AppendAtSpine(last, level - 1, leaf), [leaf]);
    }
    ConcatAssoc([Label(d)], Flatten(d.children), [leaf]);
  }

  // ---------------------------------------------------------------------------
  // Parents in pre-order
  // ---------------------------------------------------------------------------

  /** The number of nodes of a tree. */
  function TreeSize(d: DependencyInfo): nat
    decreases d
  {
    1 + Size(d.children)
  }

  /** The number of nodes of a forest. */
  function Size(ds: seq<DependencyInfo>): nat
    decreases ds
  {
    if |ds| == 0 then 0 else TreeSize(ds[0]) + Size(ds[1..])
  }

  lemma {:induction false} SizeFlatten(ds: seq<DependencyInfo>)
    ensures Size(ds) == |Flatten(ds)|
    decreases ds
  {
    if |ds| > 0 {
      SizeFlatten(ds[0].children);
      SizeFlatten(ds[1..]);
    }
  }

  lemma {:induction false} SizeAppend(xs: seq<DependencyInfo>, ys: seq<DependencyInfo>)
    ensures Size(xs + ys) == Size(xs) + Size(ys)
    decreases |xs|
  {
    if |xs| == 0 {
      assert xs + ys == ys;
    } else {
      assert (xs + ys)[0] == xs[0];
      assert (xs + ys)[1..] == xs[1..] + ys;
      SizeAppend(xs[1..], ys);
    }
  }

  lemma SizeSingle(d: DependencyInfo)
    ensures Size([d]) == TreeSize(d)
  {
    assert [d][1..] == [];
  }

  /** The parent of every node of a tree, in pre-order: the pre-order position of its
      parent, or `None` for a root. The tree's root is numbered `base` and hangs from
      `up`. */
  function TreeParents(d: DependencyInfo, up: Option<nat>, base: nat): seq<Option<nat>>
    decreases d
  {
    [up] + ParentsFrom(d.children, Some(base), base + 1)
  }

  /** The same for a forest whose trees all hang from `up`, numbered from `base`. */
  function ParentsFrom(ds: seq<DependencyInfo>, up: Option<nat>, base: nat): seq<Option<nat>>
    decreases ds
  {
    if |ds| == 0 then []
    else TreeParents(ds[0], up, base) + ParentsFrom(ds[1..], up, base + TreeSize(ds[0]))
  }

  /** The parents of a whole forest: together with `Flatten` this fixes the forest. */
  function Parents(ds: seq<DependencyInfo>): seq<Option<nat>> {
    ParentsFrom(ds, None, 0)
  }

  /** One parent per node. */
  lemma {:induction false} ParentsLength(ds: seq<DependencyInfo>, up: Option<nat>, base: nat)
    ensures |ParentsFrom(ds, up, base)| == Size(ds)
    decreases ds
  {
    if |ds| > 0 {
      ParentsLength(ds[0].children, Some(base), base + 1);
      ParentsLength(ds[1..], up, base + TreeSize(ds[0]));
    }
  }

  lemma ParentsSingle(d: DependencyInfo, up: Option<nat>, base: nat)
    ensures ParentsFrom([d], up, base) == TreeParents(d, up, base)
  {
    assert [d][1..] == [];
  }

  lemma {:induction false} ParentsAppend(xs: seq<DependencyInfo>, ys: seq<DependencyInfo>, up: Option<nat>, base: nat)
    ensures ParentsFrom(xs + ys, up, base) == ParentsFrom(xs, up, base) + ParentsFrom(ys, up, base + Size(xs))
    decreases |xs|
  {
    if |xs| == 0 {
      assert xs + ys == ys;
    } else {
      assert (xs + ys)[0] == xs[0];
      assert (xs + ys)[1..] == xs[1..] + ys;
      var next := base + TreeSize(xs[0]);
      ParentsAppend(xs[1..], ys, up, next);
      ConcatAssoc(TreeParents(xs[0], up, base), ParentsFrom(xs[1..], up, next), ParentsFrom(ys, up, next + Size(xs[1..])));
    }
  }

  /** The node `k` steps down a tree's last-child path. */
  function SpineNode(d: DependencyInfo, k: nat): DependencyInfo
    requires k < SpineLength(d)
    decreases d
  {
    if k == 0 then d else SpineNode(d.children[|d.children| - 1], k - 1)
  }

  /** Every step down the path leaves at least one node behind. */
  lemma {:induction false} SpineNodeSize(d: DependencyInfo, k: nat)
    requires k < SpineLength(d)
    ensures TreeSize(SpineNode(d, k)) + k <= TreeSize(d)
    decreases d
  {
    if k > 0 {
      SpineNodeSize(d.children[|d.children| - 1], k - 1);
      LastChildSizes(d);
    }
  }

  /** The pre-order position of the node `k` steps down a tree's last-child path,
      the tree's own root being numbered `base`: the nodes the parser's stack refers
      to. That node's subtree is the tail of the tree's pre-order. */
  function SpineAt(d: DependencyInfo, base: nat, k: nat): nat
    requires k < SpineLength(d)
  {
    SpineNodeSize(d, k);
    base + TreeSize(d) - TreeSize(SpineNode(d, k))
  }

  /** A tree with children: its size splits over the children but the last, and the last. */
  lemma LastChildSizes(d: DependencyInfo)
    requires |d.children| > 0
    ensures var n := |d.children|;
      TreeSize(d) == 1 + Size(d.children[..n - 1]) + TreeSize(d.children[n - 1])
  {
    var n := |d.children|;
    assert d.children == d.children[..n - 1] + [d.children[n - 1]];
    SizeAppend(d.children[..n - 1], [d.children[n - 1]]);
    SizeSingle(d.children[n - 1]);
  }

  /** The path runs strictly forward and stays inside the tree's positions. */
  lemma SpineAtBounds(d: DependencyInfo, base: nat, i: nat, j: nat)
    requires i <= j < SpineLength(d)
    ensures base <= SpineAt(d, base, i) <= SpineAt(d, base, j) < base + TreeSize(d)
    ensures i < j ==> SpineAt(d, base, i) < SpineAt(d, base, j)
  {
    SpineNodeSize(d, i);
    SpineNodeSize(d, j);
    if i < j {
      SpineNodeShrinks(d, i, j);
    }
  }

  /** Deeper nodes on the path have smaller subtrees. */
  lemma {:induction false} SpineNodeShrinks(d: DependencyInfo, i: nat, j: nat)
    requires i < j < SpineLength(d)
    ensures TreeSize(SpineNode(d, j)) < TreeSize(SpineNode(d, i))
    decreases d
  {
    if i == 0 {
      SpineNodeSize(d, j);
    } else {
      SpineNodeShrinks(d.children[|d.children| - 1], i - 1, j - 1);
    }
  }

  /** Where `AppendAtSpine` hangs the new subtree: below the node at `level` on the
      last-child path, numbered after the old tree; every node already there keeps
      its parent. */
  lemma {:induction false} AppendAtSpineParents(d: DependencyInfo, level: nat, leaf: DependencyInfo, up: Option<nat>, base: nat)
    requires level < SpineLength(d)
    ensures TreeParents(AppendAtSpine(d, level, leaf), up, base)
         == TreeParents(d, up, base) + TreeParents(leaf, Some(SpineAt(d, base, level)), base + TreeSize(d))
    decreases d, 1
  {
    if level == 0 {
      AppendHereParents(d, leaf, up, base);
    } else {
      AppendBelowParents(d, level, leaf, up, base);
    }
  }

  /** Level 0: the new subtree is the last child of the tree's root. */
  lemma AppendHereParents(d: DependencyInfo, leaf: DependencyInfo, up: Option<nat>, base: nat)
    ensures TreeParents(AppendAtSpine(d, 0, leaf), up, base)
         == TreeParents(d, up, base) + TreeParents(leaf, Some(base), base + TreeSize(d))
  {
    assert AppendAtSpine(d, 0, leaf).children == d.children + [leaf];
    ParentsAppend(d.children, [leaf], Some(base), base + 1);
    ParentsSingle(leaf, Some(base), base + 1 + Size(d.children));
    ConcatAssoc([up], ParentsFrom(d.children, Some(base), base + 1), TreeParents(leaf, Some(base), base + TreeSize(d)));
  }

  /** Deeper levels: the change happens inside the last child. */
  lemma {:induction false} AppendBelowParents(d: DependencyInfo, level: nat, leaf: DependencyInfo, up: Option<nat>, base: nat)
    requires 0 < level < SpineLength(d)
    ensures TreeParents(AppendAtSpine(d, level, leaf), up, base)
         == TreeParents(d, up, base) + TreeParents(leaf, Some(SpineAt(d, base, level)), base + TreeSize(d))
    decreases d, 0
  {
    var n := |d.children|;
    var front := d.children[..n - 1];
    var last := d.children[n - 1];
    var last' := AppendAtSpine(last, level - 1, leaf);
    var b := base + 1 + Size(front);
    var tail := TreeParents(leaf, Some(SpineAt(last, b, level - 1)), b + TreeSize(last));
    AppendAtSpineParents(last, level - 1, leaf, Some(base), b);
    LastChildSizes(d);
    LastChildParents(d, AppendAtSpine(d, level, leaf), last', Some(base), base + 1);
    SnocCombine(TreeParents(AppendAtSpine(d, level, leaf), up, base), TreeParents(d, up, base), [up],
      ParentsFrom(AppendAtSpine(d, level, leaf).children, Some(base), base + 1), ParentsFrom(d.children, Some(base), base + 1),
      ParentsFrom(front, Some(base), base + 1), TreeParents(last, Some(base), b), TreeParents(last', Some(base), b), tail);
  }

  /** Replacing a tree's last child: the parents of the other children stay. */
  lemma LastChildParents(d: DependencyInfo, d': DependencyInfo, last': DependencyInfo, up: Option<nat>, base: nat)
    requires |d.children| > 0 && d'.children == d.children[..|d.children| - 1] + [last']
    ensures var n := |d.children|;
      var b := base + Size(d.children[..n - 1]);
      && ParentsFrom(d'.children, up, base) == ParentsFrom(d.children[..n - 1], up, base) + TreeParents(last', up, b)
      && ParentsFrom(d.children, up, base) == ParentsFrom(d.children[..n - 1], up, base) + TreeParents(d.children[n - 1], up, b)
  {
    var n := |d.children|;
    var front := d.children[..n - 1];
    assert d.children == front + [d.children[n - 1]];
    ParentsAppend(front, [d.children[n - 1]], up, base);
    ParentsAppend(front, [last'], up, base);
    ParentsSingle(d.children[n - 1], up, base + Size(front));
    ParentsSingle(last', up, base + Size(front));
  }

  /** Below level 0 only the last child changes. */
  lemma AppendBelowChildren(d: DependencyInfo, level: nat, leaf: DependencyInfo)
    requires 0 < level < SpineLength(d)
    ensures var n := |d.children|;
      && |AppendAtSpine(d, level, leaf).children| == n
      && AppendAtSpine(d, level, leaf).children[..n - 1] == d.children[..n - 1]
      && AppendAtSpine(d, level, leaf).children[n - 1] == AppendAtSpine(d.children[n - 1], level - 1, leaf)
  {
    var n := |d.children|;
    var c := AppendAtSpine(d, level, leaf).children;
    assert c[..n - 1] == d.children[..n - 1];
  }

  /** `AppendAtSpine` grows the tree by the new subtree. */
  lemma {:induction false} AppendAtSpineSize(d: DependencyInfo, level: nat, leaf: DependencyInfo)
    requires level < SpineLength(d)
    ensures TreeSize(AppendAtSpine(d, level, leaf)) == TreeSize(d) + TreeSize(leaf)
    decreases d, 1
  {
    if level == 0 {
      assert AppendAtSpine(d, level, leaf).children == d.children + [leaf];
      SizeAppend(d.children, [leaf]);
      SizeSingle(leaf);
    } else {
      AppendBelowSize(d, level, leaf);
    }
  }

  /** ... when the subtree goes below the last child. */
  lemma {:induction false} AppendBelowSize(d: DependencyInfo, level: nat, leaf: DependencyInfo)
    requires 0 < level < SpineLength(d)
    ensures TreeSize(AppendAtSpine(d, level, leaf)) == TreeSize(d) + TreeSize(leaf)
    decreases d, 0
  {
    var r := AppendAtSpine(d, level, leaf);
    var n := |d.children|;
    AppendBelowChildren(d, level, leaf);
    AppendAtSpineSize(d.children[n - 1], level - 1, leaf);
    LastChildSizes(d);
    LastChildSizes(r);
  }

  /** Down to `level` the path passes the same nodes, each grown by the new subtree;
      the next node on it is the new subtree. */
  lemma {:induction false} AppendAtSpineNodes(d: DependencyInfo, level: nat, leaf: DependencyInfo, k: nat)
    requires level < SpineLength(d) && leaf.children == [] && k <= level + 1
    ensures k < SpineLength(AppendAtSpine(d, level, leaf))
    ensures k <= level ==> TreeSize(SpineNode(AppendAtSpine(d, level, leaf), k)) == TreeSize(SpineNode(d, k)) + 1
    ensures k == level + 1 ==> SpineNode(AppendAtSpine(d, level, leaf), k) == leaf
    decreases d, 1
  {
    AppendAtSpineLength(d, level, leaf);
    if k == 0 {
      AppendAtSpineSize(d, level, leaf);
    } else if level == 0 {
      assert AppendAtSpine(d, level, leaf).children == d.children + [leaf];
    } else {
      AppendBelowNodes(d, level, leaf, k);
    }
  }

  /** Deeper levels: below the root the path runs through the changed last child. */
  lemma {:induction false} AppendBelowNodes(d: DependencyInfo, level: nat, leaf: DependencyInfo, k: nat)
    requires 0 < level < SpineLength(d) && leaf.children == [] && 0 < k <= level + 1
    requires k < SpineLength(AppendAtSpine(d, level, leaf))
    ensures k <= level ==> TreeSize(SpineNode(AppendAtSpine(d, level, leaf), k)) == TreeSize(SpineNode(d, k)) + 1
    ensures k == level + 1 ==> SpineNode(AppendAtSpine(d, level, leaf), k) == leaf
    decreases d, 0
  {
    AppendBelowChildren(d, level, leaf);
    AppendAtSpineNodes(d.children[|d.children| - 1], level - 1, leaf, k - 1);
  }

  /** `AppendAtSpine` keeps the positions on the last-child path down to `level`... */
  lemma AppendAtSpineKeepsSpine(d: DependencyInfo, level: nat, leaf: DependencyInfo, base: nat, k: nat)
    requires level < SpineLength(d) && leaf.children == [] && k <= level
    ensures k < SpineLength(AppendAtSpine(d, level, leaf))
    ensures SpineAt(AppendAtSpine(d, level, leaf), base, k) == SpineAt(d, base, k)
  {
    AppendAtSpineNodes(d, level, leaf, k);
    AppendAtSpineSize(d, level, leaf);
  }

  /** ... and continues the path with the new node, numbered after the old tree. */
  lemma AppendAtSpineNewSpine(d: DependencyInfo, level: nat, leaf: DependencyInfo, base: nat)
    requires level < SpineLength(d) && leaf.children == []
    ensures level + 1 < SpineLength(AppendAtSpine(d, level, leaf))
    ensures SpineAt(AppendAtSpine(d, level, leaf), base, level + 1) == base + TreeSize(d)
  {
    AppendAtSpineNodes(d, level, leaf, level + 1);
    AppendAtSpineSize(d, level, leaf);
  }

  // ---------------------------------------------------------------------------
  // The parser state
  // ---------------------------------------------------------------------------

  /** The roots so far, the depths on the stack and the current scope. The stack's
      nodes are the path from the last root along last children. */
  datatype ParseState = ParseState(roots: seq<DependencyInfo>, stack: seq<nat>, scope: Option<string>)

  predicate StrictlyIncreasing(s: seq<nat>) {
    forall i, j :: 0 <= i < j < |s| ==> s[i] < s[j]
  }

  predicate Valid(st: ParseState) {
    && StrictlyIncreasing(st.stack)
    && (st.stack != [] ==> |st.roots| > 0 && |st.stack| == SpineLength(st.roots[|st.roots| - 1]))
  }

  const Initial: ParseState := ParseState([], [], None)

  /** How many roots are final: all of them when the stack is empty, all but the
      last otherwise. */
  function Closed(st: ParseState): (n: nat)
    requires Valid(st)
    ensures n <= |st.roots|
    ensures st.stack == [] ==> n == |st.roots|
  {
    if st.stack == [] then |st.roots| else |st.roots| - 1
  }

  /** Pops every entry at least as deep as `depth`. */
  function Unwind(stack: seq<nat>, depth: nat): (r: seq<nat>)
    requires StrictlyIncreasing(stack)
    ensures |r| <= |stack| && r == stack[..|r|]
    ensures forall i :: 0 <= i < |r| ==> r[i] < depth
    ensures forall i :: |r| <= i < |stack| ==> stack[i] >= depth
    decreases |stack|
  {
    if |stack| > 0 && stack[|stack| - 1] >= depth then Unwind(stack[..|stack| - 1], depth)
    else stack
  }

  /** Places a node of the given depth: a depth-0 node is a new root and resets the
      stack; a deeper one becomes the last child of the deepest stack entry that is
      shallower, or a root when there is none. */
  function Insert(st: ParseState, depth: nat, leaf: DependencyInfo): (r: ParseState)
    requires Valid(st)
    ensures r.scope == st.scope
    ensures depth == 0 ==> r.roots == st.roots + [leaf] && r.stack == [0]
    ensures depth > 0 && Unwind(st.stack, depth) == [] ==> r.roots == st.roots + [leaf] && r.stack == [depth]
    ensures depth > 0 && Unwind(st.stack, depth) != [] ==>
      && |r.roots| == |st.roots| > 0
      && r.roots[..|st.roots| - 1] == st.roots[..|st.roots| - 1]
      && r.stack == Unwind(st.stack, depth) + [depth]
  {
    if depth == 0 then st.(roots := st.roots + [leaf], stack := [0])
    else
      var kept := Unwind(st.stack, depth);
      if |kept| > 0 then
        var n := |st.roots|;
        st.(roots := st.roots[..n - 1] + [AppendAtSpine(st.roots[n - 1], |kept| - 1, leaf)], stack := kept + [depth])
      else st.(roots := st.roots + [leaf], stack := [depth])
  }

  /** Inserting keeps the stack strictly increasing and matched to the last root's
      path, and leaves the final roots alone. */
  lemma InsertValid(st: ParseState, depth: nat, leaf: DependencyInfo)
    requires Valid(st) && leaf.children == []
    ensures Valid(Insert(st, depth, leaf))
    ensures Closed(Insert(st, depth, leaf)) >= Closed(st)
    ensures Insert(st, depth, leaf).roots[..Closed(st)] == st.roots[..Closed(st)]
  {
    var kept := Unwind(st.stack, depth);
    if depth > 0 && |kept| > 0 {
      var n := |st.roots|;
      AppendAtSpineLength(st.roots[n - 1], |kept| - 1, leaf);
    }
  }

  /** The inserted node comes last in pre-order. */
  lemma InsertFlatten(st: ParseState, depth: nat, leaf: DependencyInfo)
    requires Valid(st) && leaf.children == []
    ensures Flatten(Insert(st, depth, leaf).roots) == Flatten(st.roots) + [leaf]
  {
    FlattenSingle(leaf);
    var kept := Unwind(st.stack, depth);
    if depth > 0 && |kept| > 0 {
      var n := |st.roots|;
      var last := st.roots[n - 1];
      AppendAtSpineFlatten(last, |kept| - 1, leaf);
      FlattenReplaceLast(st.roots, last, AppendAtSpine(last, |kept| - 1, leaf), [leaf]);
    } else {
      FlattenAppend(st.roots, [leaf]);
    }
  }

  /** The node an entry line becomes under the current scope. */
  function NodeOf(e: Entry, scope: Option<string>): DependencyInfo {
    DependencyInfo(e.name, e.version, scope, [], e.isConflict)
  }

  /** One classified line: a scope header switches the scope and empties the stack,
      an entry is inserted, anything else changes nothing. */
  function Step(st: ParseState, k: LineKind): (r: ParseState)
    requires Valid(st)
    ensures Valid(r)
    ensures k.ScopeLine? ==> r.stack == [] && r.roots == st.roots
  {
    match k
    case Skipped => st
    case ScopeLine(w) => st.(scope := Some(w), stack := [])
    case EntryLine(e) =>
      InsertValid(st, e.depth, NodeOf(e, st.scope));
      Insert(st, e.depth, NodeOf(e, st.scope))
  }

  /** A step never touches a final root and never reopens one. */
  lemma StepClosed(st: ParseState, k: LineKind)
    requires Valid(st)
    ensures Closed(Step(st, k)) >= Closed(st)
    ensures Step(st, k).roots[..Closed(st)] == st.roots[..Closed(st)]
  {
    if k.EntryLine? {
      InsertValid(st, k.entry.depth, NodeOf(k.entry, st.scope));
    }
  }

  function ParseKinds(st: ParseState, ks: seq<LineKind>): (r: ParseState)
    requires Valid(st)
    ensures Valid(r)
    ensures Flatten(r.roots) == Flatten(st.roots) + EntryNodes(st.scope, ks)
    decreases |ks|
  {
    if |ks| == 0 then st
    else
      StepFlatten(st, ks[0]);
      var r := ParseKinds(Step(st, ks[0]), ks[1..]);
      ConcatAssoc(Flatten(st.roots), LineNodes(st.scope, ks[0]), EntryNodes(ScopeAfter(st.scope, ks[0]), ks[1..]));
      r
  }

  /** Every line classified, in order. */
  function Classify(lines: seq<string>): (ks: seq<LineKind>)
    ensures |ks| == |lines|
    ensures forall i :: 0 <= i < |lines| ==> ks[i] == ClassifyLine(lines[i])
  {
    seq(|lines|, i requires 0 <= i < |lines| => ClassifyLine(lines[i]))
  }

  /** `parseDependencyOutput`: the forest the whole output describes. Every accepted
      line contributes exactly one node and nothing else does: the pre-order of the
      forest is the reference list of entry nodes. Each node hangs from the last
      earlier entry of its section that is less deep, and is a root when there is
      none. */
  function ParseDependencyOutput(output: string): (r: seq<DependencyInfo>)
    ensures Flatten(r) == EntryNodes(None, Classify(Split(output, '\n')))
    ensures Parents(r) == RefParents(EntryMarks(0, Classify(Split(output, '\n'))))
  {
    var ks := Classify(Split(output, '\n'));
    InitialTracks();
    ParseKindsParents(Initial, [], 0, ks);
    assert [] + EntryMarks(0, ks) == EntryMarks(0, ks);
    ParseKinds(Initial, ks).roots
  }

  /** The nodes one line contributes under the given scope. */
  function LineNodes(scope: Option<string>, k: LineKind): seq<DependencyInfo> {
    match k
    case EntryLine(e) => [NodeOf(e, scope)]
    case _ => []
  }

  /** The scope in effect after a line. */
  function ScopeAfter(scope: Option<string>, k: LineKind): Option<string> {
    match k
    case ScopeLine(w) => Some(w)
    case _ => scope
  }

  /** Reference definition: the nodes the lines contribute, in line order, each
      with the scope of the last header before it. */
  function EntryNodes(scope: Option<string>, ks: seq<LineKind>): seq<DependencyInfo>
    decreases |ks|
  {
    if |ks| == 0 then []
    else LineNodes(scope, ks[0]) + EntryNodes(ScopeAfter(scope, ks[0]), ks[1..])
  }

  /** One step appends the line's node, if any, to the pre-order. */
  lemma StepFlatten(st: ParseState, k: LineKind)
    requires Valid(st)
    ensures Flatten(Step(st, k).roots) == Flatten(st.roots) + LineNodes(st.scope, k)
    ensures Step(st, k).scope == ScopeAfter(st.scope, k)
  {
    if k.EntryLine? {
      InsertFlatten(st, k.entry.depth, NodeOf(k.entry, st.scope));
    }
  }

  /** Final roots stay final: later lines never change them. */
  lemma {:induction false} ClosedRootsFinal(st: ParseState, ks: seq<LineKind>)
    requires Valid(st)
    ensures |ParseKinds(st, ks).roots| >= Closed(st)
    ensures ParseKinds(st, ks).roots[..Closed(st)] == st.roots[..Closed(st)]
    decreases |ks|
  {
    if |ks| > 0 {
      var next := Step(st, ks[0]);
      StepClosed(st, ks[0]);
      ClosedRootsFinal(next, ks[1..]);
      var r := ParseKinds(next, ks[1..]).roots;
      assert r[..Closed(st)] == r[..Closed(next)][..Closed(st)];
    }
  }

  /** After a scope header no later node becomes part of an earlier tree: every
      root built so far is final. */
  lemma ScopeHeaderClosesRoots(st: ParseState, k: LineKind, rest: seq<LineKind>)
    requires Valid(st) && k.ScopeLine?
    ensures |ParseKinds(st, [k] + rest).roots| >= |st.roots|
    ensures ParseKinds(st, [k] + rest).roots[..|st.roots|] == st.roots
  {
    assert ([k] + rest)[1..] == rest;
    ClosedRootsFinal(Step(st, k), rest);
  }

  // ---------------------------------------------------------------------------
  // Where each node is attached
  // ---------------------------------------------------------------------------

  /** What the placement rule looks at in an entry: its depth, and the run of lines
      between scope headers it belongs to. */
  datatype Mark = Mark(depth: nat, section: nat)

  /** `x` may be the parent of `m`: no scope header between them, and shallower. */
  predicate ShallowerIn(x: Mark, m: Mark) {
    x.section == m.section && x.depth < m.depth
  }

  /** The last of the first `j` marks that may be the parent of `m`. */
  function LastShallower(ms: seq<Mark>, m: Mark, j: nat): (r: Option<nat>)
    requires j <= |ms|
    ensures r.Some? ==> r.value < j && ShallowerIn(ms[r.value], m)
    ensures r.Some? ==> forall i :: r.value < i < j ==> !ShallowerIn(ms[i], m)
    ensures r.None? ==> forall i :: 0 <= i < j ==> !ShallowerIn(ms[i], m)
    decreases j
  {
    if j == 0 then None
    else if ShallowerIn(ms[j - 1], m) then Some(j - 1)
    else LastShallower(ms, m, j - 1)
  }

  /** The last shallower mark is the shallower one with no shallower one after it. */
  lemma {:induction false} LastShallowerIs(ms: seq<Mark>, m: Mark, p: nat, j: nat)
    requires p < j <= |ms| && ShallowerIn(ms[p], m)
    requires forall i :: p < i < j ==> !ShallowerIn(ms[i], m)
    ensures LastShallower(ms, m, j) == Some(p)
    decreases j
  {
    if j - 1 != p {
      LastShallowerIs(ms, m, p, j - 1);
    }
  }

  /** Reference definition of the tree shape: an entry's parent is the last earlier
      entry of its section that is less deep; an entry without one is a root. */
  function RefParents(ms: seq<Mark>): seq<Option<nat>> {
    seq(|ms|, i requires 0 <= i < |ms| => LastShallower(ms, ms[i], i))
  }

  lemma {:induction false} LastShallowerPrefix(ms: seq<Mark>, extra: seq<Mark>, m: Mark, j: nat)
    requires j <= |ms|
    ensures LastShallower(ms + extra, m, j) == LastShallower(ms, m, j)
    decreases j
  {
    if j > 0 {
      assert (ms + extra)[j - 1] == ms[j - 1];
      LastShallowerPrefix(ms, extra, m, j - 1);
    }
  }

  /** A later entry never changes the parent of an earlier one. */
  lemma RefParentsSnoc(ms: seq<Mark>, m: Mark)
    ensures RefParents(ms + [m]) == RefParents(ms) + [LastShallower(ms, m, |ms|)]
  {
    var l := RefParents(ms + [m]);
    var r := RefParents(ms) + [LastShallower(ms, m, |ms|)];
    forall i | 0 <= i < |ms|
      ensures l[i] == r[i]
    {
      assert (ms + [m])[i] == ms[i];
      LastShallowerPrefix(ms, [m], ms[i], i);
    }
    LastShallowerPrefix(ms, [m], m, |ms|);
  }

  /** The marks of the entries the lines contribute, in line order; every scope
      header starts a new section. */
  function EntryMarks(section: nat, ks: seq<LineKind>): seq<Mark>
    decreases |ks|
  {
    if |ks| == 0 then []
    else LineMarks(section, ks[0]) + EntryMarks(SectionAfter(section, ks[0]), ks[1..])
  }

  function LineMarks(section: nat, k: LineKind): seq<Mark> {
    match k
    case EntryLine(e) => [Mark(e.depth, section)]
    case _ => []
  }

  function SectionAfter(section: nat, k: LineKind): nat {
    if k.ScopeLine? then section + 1 else section
  }

  /** The pre-order position of the node stack entry `k` stands for. */
  function StackPos(st: ParseState, k: nat): nat
    requires Valid(st) && k < |st.stack|
  {
    var n := |st.roots|;
    SpineAt(st.roots[n - 1], Size(st.roots[..n - 1]), k)
  }

  /** The node an insertion attaches to: the deepest stack entry that is less deep,
      or none, which makes the new node a root. */
  function AttachPoint(st: ParseState, depth: nat): Option<nat>
    requires Valid(st)
  {
    var kept := Unwind(st.stack, depth);
    if depth == 0 || |kept| == 0 then None else Some(StackPos(st, |kept| - 1))
  }

  /** Inserting a leaf gives it the attach point as parent and changes no other parent. */
  lemma InsertParents(st: ParseState, depth: nat, leaf: DependencyInfo)
    requires Valid(st) && leaf.children == []
    ensures Parents(Insert(st, depth, leaf).roots) == Parents(st.roots) + [AttachPoint(st, depth)]
  {
    var kept := Unwind(st.stack, depth);
    if depth == 0 || |kept| == 0 {
      ParentsAppendOne(st.roots, leaf);
    } else {
      InsertBelowParents(st, depth, leaf);
    }
  }

  /** ... when the leaf goes below a node of the last root. */
  lemma InsertBelowParents(st: ParseState, depth: nat, leaf: DependencyInfo)
    requires Valid(st) && leaf.children == [] && depth > 0 && |Unwind(st.stack, depth)| > 0
    ensures Parents(Insert(st, depth, leaf).roots) == Parents(st.roots) + [AttachPoint(st, depth)]
  {
    var kept := Unwind(st.stack, depth);
    var n := |st.roots|;
    var front := st.roots[..n - 1];
    var last := st.roots[n - 1];
    var last' := AppendAtSpine(last, |kept| - 1, leaf);
    var up := AttachPoint(st, depth);
    assert st.roots == front + [last];
    assert Insert(st, depth, leaf).roots == front + [last'];
    AppendAtSpineParents(last, |kept| - 1, leaf, None, Size(front));
    assert up == Some(SpineAt(last, Size(front), |kept| - 1));
    assert TreeParents(leaf, up, Size(front) + TreeSize(last)) == [up];
    ReplaceLastParents(front, last, last', up);
  }

  /** The parents of a forest with one more root at the end. */
  lemma ParentsAppendOne(front: seq<DependencyInfo>, last: DependencyInfo)
    ensures Parents(front + [last]) == Parents(front) + TreeParents(last, None, Size(front))
  {
    ParentsAppend(front, [last], None, 0);
    ParentsSingle(last, None, Size(front));
  }

  /** Replacing the last root by one whose parents gain one more entry adds just that
      entry to the parents of the whole forest. */
  lemma ReplaceLastParents(front: seq<DependencyInfo>, last: DependencyInfo, last': DependencyInfo, up: Option<nat>)
    requires TreeParents(last', None, Size(front)) == TreeParents(last, None, Size(front)) + [up]
    ensures Parents(front + [last']) == Parents(front + [last]) + [up]
  {
    var b := Size(front);
    calc {
      Parents(front + [last']);
    == { ParentsAppendOne(front, last'); }
      Parents(front) + TreeParents(last', None, b);
    ==
      Parents(front) + (TreeParents(last, None, b) + [up]);
    == { ConcatAssoc(Parents(front), TreeParents(last, None, b), [up]); }
      Parents(front) + TreeParents(last, None, b) + [up];
    == { ParentsAppendOne(front, last); }
      Parents(front + [last]) + [up];
    }
  }

  /** Where the stack entries point after an insertion: the kept ones where they did,
      the new top at the new node. */
  lemma InsertStackPos(st: ParseState, depth: nat, leaf: DependencyInfo, k: nat)
    requires Valid(st) && leaf.children == []
    requires k < |Insert(st, depth, leaf).stack|
    ensures Valid(Insert(st, depth, leaf))
    ensures k + 1 < |Insert(st, depth, leaf).stack| ==> k < |st.stack| && StackPos(Insert(st, depth, leaf), k) == StackPos(st, k)
    ensures k + 1 == |Insert(st, depth, leaf).stack| ==> StackPos(Insert(st, depth, leaf), k) == Size(st.roots)
  {
    InsertValid(st, depth, leaf);
    var kept := Unwind(st.stack, depth);
    var r := Insert(st, depth, leaf);
    if depth == 0 || |kept| == 0 {
      assert r.roots[..|r.roots| - 1] == st.roots;
    } else if k + 1 < |r.stack| {
      InsertBelowKeepsPos(st, depth, leaf, k);
    } else {
      InsertBelowNewPos(st, depth, leaf);
    }
  }

  /** ... for a kept entry when the leaf goes below a node of the last root. */
  lemma InsertBelowKeepsPos(st: ParseState, depth: nat, leaf: DependencyInfo, k: nat)
    requires Valid(st) && leaf.children == [] && depth > 0 && |Unwind(st.stack, depth)| > 0
    requires Valid(Insert(st, depth, leaf)) && k + 1 < |Insert(st, depth, leaf).stack|
    ensures k < |st.stack| && StackPos(Insert(st, depth, leaf), k) == StackPos(st, k)
  {
    var kept := Unwind(st.stack, depth);
    var n := |st.roots|;
    var front := st.roots[..n - 1];
    assert Insert(st, depth, leaf).roots[..n - 1] == front;
    AppendAtSpineKeepsSpine(st.roots[n - 1], |kept| - 1, leaf, Size(front), k);
  }

  /** ... for the new top when the leaf goes below a node of the last root. */
  lemma InsertBelowNewPos(st: ParseState, depth: nat, leaf: DependencyInfo)
    requires Valid(st) && leaf.children == [] && depth > 0 && |Unwind(st.stack, depth)| > 0
    requires Valid(Insert(st, depth, leaf))
    ensures StackPos(Insert(st, depth, leaf), |Insert(st, depth, leaf).stack| - 1) == Size(st.roots)
  {
    var kept := Unwind(st.stack, depth);
    var n := |st.roots|;
    var front := st.roots[..n - 1];
    var last := st.roots[n - 1];
    assert Insert(st, depth, leaf).roots[..n - 1] == front;
    AppendAtSpineNewSpine(last, |kept| - 1, leaf, Size(front));
    assert st.roots == front + [last];
    SizeAppend(front, [last]);
    SizeSingle(last);
  }

  /** The parser state after the entries `ms` of which the last section is `section`:
      the forest has one node per entry and realises the reference parents, and the
      stack stands for the entries of the section that are still open, each deeper
      than everything of its section between it and the entry below it. */
  predicate Tracks(st: ParseState, ms: seq<Mark>, section: nat) {
    && Valid(st)
    && Size(st.roots) == |ms|
    && Parents(st.roots) == RefParents(ms)
    && (forall i :: 0 <= i < |ms| ==> ms[i].section <= section)
    && (st.stack == [] ==> forall i :: 0 <= i < |ms| ==> ms[i].section < section)
    && (st.stack != [] ==> StackPos(st, |st.stack| - 1) + 1 == |ms|)
    && (forall k :: 0 <= k < |st.stack| ==> StackPos(st, k) < |ms| && ms[StackPos(st, k)] == Mark(st.stack[k], section))
    && (forall k, i :: 0 <= k < |st.stack| && 0 <= i < |ms| && Below(st, k, i) && ms[i].section == section ==> ms[i].depth >= st.stack[k])
  }

  /** Position `i` lies strictly between stack entry `k` and the entry below it. */
  predicate Below(st: ParseState, k: nat, i: nat)
    requires Valid(st) && k < |st.stack|
  {
    i < StackPos(st, k) && (k == 0 || StackPos(st, k - 1) < i)
  }

  /** Every entry of the section after stack entry `k - 1` (or from the section's
      start, for `k == 0`) is at least `depth` deep when the entries from `k` up are. */
  lemma {:induction false} DeepAfter(st: ParseState, ms: seq<Mark>, section: nat, depth: nat, k: nat, i: nat)
    requires Tracks(st, ms, section) && k < |st.stack|
    requires forall q :: k <= q < |st.stack| ==> st.stack[q] >= depth
    requires (k == 0 || StackPos(st, k - 1) < i) && i < |ms| && ms[i].section == section
    ensures ms[i].depth >= depth
    decreases |st.stack| - k
  {
    if i < StackPos(st, k) {
      assert Below(st, k, i);
    } else if i > StackPos(st, k) {
      DeepAfter(st, ms, section, depth, k + 1, i);
    }
  }

  /** The attach point is the reference parent. */
  lemma AttachIsRef(st: ParseState, ms: seq<Mark>, section: nat, depth: nat)
    requires Tracks(st, ms, section)
    ensures AttachPoint(st, depth) == LastShallower(ms, Mark(depth, section), |ms|)
  {
    var kept := Unwind(st.stack, depth);
    if depth > 0 && |kept| > 0 {
      AttachIsRefKept(st, ms, section, depth);
    } else if depth > 0 && st.stack != [] {
      AttachIsRefRoot(st, ms, section, depth);
    } else {
      AttachIsRefNone(st, ms, section, depth);
    }
  }

  /** A root or an empty stack: no entry is shallower in the section. */
  lemma AttachIsRefNone(st: ParseState, ms: seq<Mark>, section: nat, depth: nat)
    requires Tracks(st, ms, section) && (depth == 0 || st.stack == [])
    ensures LastShallower(ms, Mark(depth, section), |ms|) == None
  {
  }

  /** A stack entry is kept: the deepest kept one is the last shallower entry. */
  lemma AttachIsRefKept(st: ParseState, ms: seq<Mark>, section: nat, depth: nat)
    requires Tracks(st, ms, section) && |Unwind(st.stack, depth)| > 0
    ensures LastShallower(ms, Mark(depth, section), |ms|) == Some(StackPos(st, |Unwind(st.stack, depth)| - 1))
  {
    var kept := Unwind(st.stack, depth);
    var p := StackPos(st, |kept| - 1);
    assert ms[p] == Mark(kept[|kept| - 1], section);
    DeepAfterAll(st, ms, section, depth, |kept|);
    LastShallowerIs(ms, Mark(depth, section), p, |ms|);
  }

  /** Everything after stack entry `k - 1` is at least `depth` deep when the entries
      from `k` up are. */
  lemma DeepAfterAll(st: ParseState, ms: seq<Mark>, section: nat, depth: nat, k: nat)
    requires Tracks(st, ms, section) && 0 < k <= |st.stack|
    requires forall q :: k <= q < |st.stack| ==> st.stack[q] >= depth
    ensures forall i :: StackPos(st, k - 1) < i < |ms| && ms[i].section == section ==> ms[i].depth >= depth
  {
    if k < |st.stack| {
      forall i | StackPos(st, k - 1) < i < |ms| && ms[i].section == section
        ensures ms[i].depth >= depth
      {
        DeepAfter(st, ms, section, depth, k, i);
      }
    }
  }

  /** No stack entry is kept: no entry of the section is shallower. */
  lemma AttachIsRefRoot(st: ParseState, ms: seq<Mark>, section: nat, depth: nat)
    requires Tracks(st, ms, section) && st.stack != [] && |Unwind(st.stack, depth)| == 0
    ensures LastShallower(ms, Mark(depth, section), |ms|) == None
  {
    forall i | 0 <= i < |ms| && ms[i].section == section
      ensures ms[i].depth >= depth
    {
      DeepAfter(st, ms, section, depth, 0, i);
    }
  }

  /** Inserting an entry keeps the state tracking the entries. */
  lemma InsertTracks(st: ParseState, ms: seq<Mark>, section: nat, depth: nat, leaf: DependencyInfo)
    requires Tracks(st, ms, section) && leaf.children == []
    ensures Tracks(Insert(st, depth, leaf), ms + [Mark(depth, section)], section)
  {
    var r := Insert(st, depth, leaf);
    var ms' := ms + [Mark(depth, section)];
    InsertValid(st, depth, leaf);
    InsertFlatten(st, depth, leaf);
    SizeFlatten(st.roots);
    SizeFlatten(r.roots);
    InsertParents(st, depth, leaf);
    AttachIsRef(st, ms, section, depth);
    RefParentsSnoc(ms, Mark(depth, section));
    InsertStackTracks(st, ms, section, depth, leaf);
  }

  /** The stack half of `InsertTracks`. */
  lemma InsertStackTracks(st: ParseState, ms: seq<Mark>, section: nat, depth: nat, leaf: DependencyInfo)
    requires Tracks(st, ms, section) && leaf.children == []
    ensures Valid(Insert(st, depth, leaf))
    ensures var r := Insert(st, depth, leaf); var ms' := ms + [Mark(depth, section)];
      && (r.stack != [] ==> StackPos(r, |r.stack| - 1) + 1 == |ms'|)
      && (forall k :: 0 <= k < |r.stack| ==> StackPos(r, k) < |ms'| && ms'[StackPos(r, k)] == Mark(r.stack[k], section))
      && (forall k, i :: 0 <= k < |r.stack| && 0 <= i < |ms'| && Below(r, k, i) && ms'[i].section == section ==> ms'[i].depth >= r.stack[k])
  {
    InsertValid(st, depth, leaf);
    var r := Insert(st, depth, leaf);
    var ms' := ms + [Mark(depth, section)];
    forall k | 0 <= k < |r.stack|
      ensures StackPos(r, k) < |ms'| && ms'[StackPos(r, k)] == Mark(r.stack[k], section)
    {
      InsertStackMark(st, ms, section, depth, leaf, k);
    }
    forall k, i | 0 <= k < |r.stack| && 0 <= i < |ms'| && Below(r, k, i) && ms'[i].section == section
      ensures ms'[i].depth >= r.stack[k]
    {
      InsertStackPos(st, depth, leaf, k);
      assert ms'[i] == ms[i];
      InsertStackGap(st, ms, section, depth, leaf, k, i);
    }
    InsertStackPos(st, depth, leaf, |r.stack| - 1);
  }

  /** After an insertion every stack entry still stands for an entry of its depth. */
  lemma InsertStackMark(st: ParseState, ms: seq<Mark>, section: nat, depth: nat, leaf: DependencyInfo, k: nat)
    requires Tracks(st, ms, section) && leaf.children == []
    requires k < |Insert(st, depth, leaf).stack|
    ensures Valid(Insert(st, depth, leaf))
    ensures var r := Insert(st, depth, leaf); var ms' := ms + [Mark(depth, section)];
      StackPos(r, k) < |ms'| && ms'[StackPos(r, k)] == Mark(r.stack[k], section)
  {
    InsertStackPos(st, depth, leaf, k);
  }

  /** After an insertion the entries below each stack entry are still deeper. */
  lemma InsertStackGap(st: ParseState, ms: seq<Mark>, section: nat, depth: nat, leaf: DependencyInfo, k: nat, i: nat)
    requires Tracks(st, ms, section) && leaf.children == []
    requires Valid(Insert(st, depth, leaf)) && k < |Insert(st, depth, leaf).stack|
    requires Below(Insert(st, depth, leaf), k, i) && i < |ms| && ms[i].section == section
    ensures ms[i].depth >= Insert(st, depth, leaf).stack[k]
  {
    var r := Insert(st, depth, leaf);
    if k + 1 < |r.stack| {
      InsertStackGapKept(st, ms, section, depth, leaf, k, i);
    } else if depth > 0 {
      InsertStackGapTop(st, ms, section, depth, leaf, i);
    }
  }

  /** ... for a kept entry: nothing changed below it. */
  lemma InsertStackGapKept(st: ParseState, ms: seq<Mark>, section: nat, depth: nat, leaf: DependencyInfo, k: nat, i: nat)
    requires Tracks(st, ms, section) && leaf.children == []
    requires Valid(Insert(st, depth, leaf)) && k + 1 < |Insert(st, depth, leaf).stack|
    requires Below(Insert(st, depth, leaf), k, i) && i < |ms| && ms[i].section == section
    ensures ms[i].depth >= Insert(st, depth, leaf).stack[k]
  {
    InsertStackPos(st, depth, leaf, k);
    if k > 0 {
      InsertStackPos(st, depth, leaf, k - 1);
    }
    assert Below(st, k, i);
  }

  /** ... for the new top, which sits right after the deepest kept entry. */
  lemma InsertStackGapTop(st: ParseState, ms: seq<Mark>, section: nat, depth: nat, leaf: DependencyInfo, i: nat)
    requires Tracks(st, ms, section) && leaf.children == [] && depth > 0
    requires Valid(Insert(st, depth, leaf))
    requires Below(Insert(st, depth, leaf), |Insert(st, depth, leaf).stack| - 1, i) && i < |ms| && ms[i].section == section
    ensures ms[i].depth >= depth
  {
    var kept := Unwind(st.stack, depth);
    var top := |Insert(st, depth, leaf).stack| - 1;
    if top > 0 {
      InsertStackPos(st, depth, leaf, top - 1);
    }
    DeepAfterKept(st, ms, section, depth, i);
  }

  /** Everything of the section after the deepest entry that survives unwinding to
      `depth` is at least `depth` deep: the entries above it were popped. */
  lemma DeepAfterKept(st: ParseState, ms: seq<Mark>, section: nat, depth: nat, i: nat)
    requires Tracks(st, ms, section)
    requires i < |ms| && ms[i].section == section
    requires |Unwind(st.stack, depth)| == 0 || StackPos(st, |Unwind(st.stack, depth)| - 1) < i
    ensures ms[i].depth >= depth
  {
    var kept := Unwind(st.stack, depth);
    if |kept| < |st.stack| {
      DeepAfter(st, ms, section, depth, |kept|, i);
    }
  }

  /** One line keeps the state tracking the entries, with a new section after a header. */
  lemma StepTracks(st: ParseState, ms: seq<Mark>, section: nat, k: LineKind)
    requires Tracks(st, ms, section)
    ensures Tracks(Step(st, k), ms + LineMarks(section, k), SectionAfter(section, k))
  {
    match k
    case Skipped =>
      assert ms + [] == ms;
    case ScopeLine(w) =>
      assert ms + [] == ms;
    case EntryLine(e) =>
      InsertTracks(st, ms, section, e.depth, NodeOf(e, st.scope));
  }

  /** Parsing the remaining lines extends the reference parents by theirs. */
  lemma {:induction false} ParseKindsParents(st: ParseState, ms: seq<Mark>, section: nat, ks: seq<LineKind>)
    requires Tracks(st, ms, section)
    ensures Parents(ParseKinds(st, ks).roots) == RefParents(ms + EntryMarks(section, ks))
    decreases |ks|
  {
    if |ks| == 0 {
      assert ms + [] == ms;
    } else {
      StepTracks(st, ms, section, ks[0]);
      ParseKindsParents(Step(st, ks[0]), ms + LineMarks(section, ks[0]), SectionAfter(section, ks[0]), ks[1..]);
      ConcatAssoc(ms, LineMarks(section, ks[0]), EntryMarks(SectionAfter(section, ks[0]), ks[1..]));
    }
  }

  /** The empty state tracks the empty entry list. */
  lemma InitialTracks()
    ensures Tracks(Initial, [], 0)
  {
  }

  /** A coordinate line followed by a line one level deeper: one root with one child. */
  lemma ChildExample()
    ensures ParseKinds(Initial, [EntryLine(Entry(0, "a:b", "1.0", false)), EntryLine(Entry(1, "c:d", "2.0", false))]).roots
         == [DependencyInfo("a:b", "1.0", None, [DependencyInfo("c:d", "2.0", None, [], false)], false)]
  {
    var a := EntryLine(Entry(0, "a:b", "1.0", false));
    var c := EntryLine(Entry(1, "c:d", "2.0", false));
    var s1 := ParseState([DependencyInfo("a:b", "1.0", None, [], false)], [0], None);
    ChildExampleFirst();
    ChildExampleSecond();
    assert [a, c][1..] == [c];
    assert ParseKinds(Initial, [a, c]) == ParseKinds(s1, [c]);
  }

  /** The first line of `ChildExample` opens a root. */
  lemma ChildExampleFirst()
    ensures Step(Initial, EntryLine(Entry(0, "a:b", "1.0", false)))
         == ParseState([DependencyInfo("a:b", "1.0", None, [], false)], [0], None)
  {
  }

  /** The second line of `ChildExample` goes below that root. */
  lemma ChildExampleSecond()
    ensures var s1 := ParseState([DependencyInfo("a:b", "1.0", None, [], false)], [0], None);
      Step(s1, EntryLine(Entry(1, "c:d", "2.0", false))).roots
        == [DependencyInfo("a:b", "1.0", None, [DependencyInfo("c:d", "2.0", None, [], false)], false)]
  {
    var s1 := ParseState([DependencyInfo("a:b", "1.0", None, [], false)], [0], None);
    var child := DependencyInfo("c:d", "2.0", None, [], false);
    assert Unwind(s1.stack, 1) == [0];
    assert s1.roots[..0] == [];
    assert AppendAtSpine(s1.roots[0], 0, child) == DependencyInfo("a:b", "1.0", None, [child], false);
  }

  /** A root with children `b` and `c` and the stack at `c`: a node one level deep
      becomes the root's third child, not a child of `c`. */
  lemma SiblingExample(a: DependencyInfo, b: DependencyInfo, c: DependencyInfo, leaf: DependencyInfo)
    requires a.children == [b, c] && c.children == [] && leaf.children == []
    ensures Insert(ParseState([a], [0, 1], None), 1, leaf).roots == [a.(children := [b, c, leaf])]
  {
    assert [0, 1][..1] == [0];
    assert Unwind([0, 1], 1) == [0];
    assert a.children + [leaf] == [b, c, leaf];
    assert [a][..0] == [];
  }

  // ---------------------------------------------------------------------------
  // Fetching and retrying
  // ---------------------------------------------------------------------------

  /** The arguments of `show dependencies`, with `-m <module>` for a non-empty module. */
  function DependencyArgs(moduleName: Option<string>): (r: seq<string>)
    ensures |r| >= 2 && r[..2] == ["show", "dependencies"]
    ensures |r| == 4 <==> moduleName.Some? && moduleName.value != ""
    ensures |r| != 4 ==> |r| == 2
    ensures |r| == 4 ==> r[2..] == ["-m", moduleName.value]
  {
    if moduleName.Some? && moduleName.value != "" then ["show", "dependencies", "-m", moduleName.value]
    else ["show", "dependencies"]
  }

  /** `getDependencies`: any failure of the tool gives the empty forest. */
  function GetDependencies(exec: Executor, workspacePath: string, moduleName: Option<string>): (r: seq<DependencyInfo>)
    ensures exec("amper", DependencyArgs(moduleName), Some(workspacePath)).Failure? ==> r == []
    ensures exec("amper", DependencyArgs(moduleName), Some(workspacePath)).Success? ==>
      Flatten(r) == EntryNodes(None, Classify(Split(exec("amper", DependencyArgs(moduleName), Some(workspacePath)).value, '\n')))
  {
    match exec("amper", DependencyArgs(moduleName), Some(workspacePath))
    case Success(output) => ParseDependencyOutput(output)
    case Failure(_) => []
  }

  /** The outcome of a load: the list kept and the delays waited between fetches. */
  datatype LoadOutcome = LoadOutcome(dependencies: seq<DependencyInfo>, delays: seq<nat>)

  const MaxRetries: nat := 2

  /** The retry decision of `loadDependencies`. `fetch(k)` is what the k-th fetch
      returns; a fetch never fails, since `GetDependencies` turns errors into `[]`. */
  function LoadDependencies(fetch: nat -> seq<DependencyInfo>, retryCount: nat): (r: LoadOutcome)
    ensures retryCount <= MaxRetries ==> |r.delays| <= MaxRetries - retryCount
    ensures retryCount >= MaxRetries ==> r.delays == []
    ensures forall k :: 0 <= k < |r.delays| ==> r.delays[k] == 3000 * (retryCount + k + 1) && fetch(retryCount + k) == []
    ensures r.dependencies == fetch(retryCount + |r.delays|)
    ensures r.dependencies == [] ==> retryCount + |r.delays| >= MaxRetries
    decreases if retryCount < MaxRetries then MaxRetries - retryCount else 0
  {
    var deps := fetch(retryCount);
    if deps == [] && retryCount < MaxRetries then
      var rest := LoadDependencies(fetch, retryCount + 1);
      LoadOutcome(rest.dependencies, [3000 * (retryCount + 1)] + rest.delays)
    else LoadOutcome(deps, [])
  }

  /** The provider's loading state. */
  datatype LoaderState = LoaderState(workspacePath: Option<string>, isLoading: bool, dependencies: seq<DependencyInfo>)

  predicate HasWorkspace(st: LoaderState) {
    st.workspacePath.Some? && st.workspacePath.value != ""
  }

  /** A load request: ignored while a load runs or without a workspace; otherwise
      the outcome of the retry chain is stored and loading ends. */
  function Load(st: LoaderState, fetch: nat -> seq<DependencyInfo>): (r: LoaderState)
    ensures st.isLoading || !HasWorkspace(st) ==> r == st
    ensures !st.isLoading && HasWorkspace(st) ==>
      && r.workspacePath == st.workspacePath && !r.isLoading
      && (r.dependencies == [] <==> fetch(0) == [] && fetch(1) == [] && fetch(2) == [])
  {
    if st.isLoading || !HasWorkspace(st) then st
    else
      var o := LoadDependencies(fetch, 0);
      LoaderState(st.workspacePath, false, o.dependencies)
  }

  /** At most three fetches, waiting 3000 ms and then 6000 ms before the retries. */
  lemma LoadFromStart(fetch: nat -> seq<DependencyInfo>)
    ensures |LoadDependencies(fetch, 0).delays| <= 2
    ensures LoadDependencies(fetch, 0).delays <= [3000, 6000]
  {
    var d := LoadDependencies(fetch, 0).delays;
    if |d| == 1 {
      assert d == [3000];
    } else if |d| == 2 {
      assert d == [3000, 6000];
    }
  }
}
