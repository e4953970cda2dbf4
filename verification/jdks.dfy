/** JDKs Amper has downloaded: the cache directory chosen per platform, the entries
    of that directory that look like a JDK or a JRE, and the version read from each
    entry's name. The directory listing is an input. */
module JdkRepository {
  import opened Wrappers
  import opened Text
  import opened Seqs

  datatype OsPlatform = Win32 | Darwin | OtherPlatform

  function NonEmptyPart(p: string): Option<string> {
    if p == "" then None else Some(p)
  }

  /** `path.join` without normalisation: empty segments are dropped and the rest are
      joined with the platform's separator. */
  function PathJoin(sep: char, parts: seq<string>): string {
    Join(FilterMap(NonEmptyPart, parts), [sep])
  }

  /** The separator `path.join` puts between segments on the platform. */
  function Separator(platform: OsPlatform): char {
    if platform == Win32 then '\\' else '/'
  }

  /** `getAmperCachePath`, given the platform, `LOCALAPPDATA` and the home directory. */
  function AmperCachePath(platform: OsPlatform, localAppData: Option<string>, home: string): string {
    var sep := Separator(platform);
    match platform
    case Win32 => PathJoin(sep, [localAppData.GetOr(""), "JetBrains", "Amper"])
    case Darwin => PathJoin(sep, [home, "Library", "Caches", "JetBrains", "Amper"])
    case OtherPlatform => PathJoin(sep, [home, ".cache", "JetBrains", "Amper"])
  }

  /** Two segments, the second non-empty: the first is dropped when it is empty. */
  lemma PathJoinTwo(sep: char, a: string, b: string)
    requires b != ""
    ensures PathJoin(sep, [a, b]) == if a == "" then b else a + [sep] + b
  {
    if a == "" {
      assert [a, b][1..] == [b];
      PathJoinNonEmpty(sep, [b]);
      assert [b][1..] == [];
    } else {
      PathJoinNonEmpty(sep, [a, b]);
      JoinTwo(a, b, [sep]);
    }
  }

  /** Segments that are all non-empty are joined as they are. */
  lemma {:induction false} PathJoinNonEmpty(sep: char, parts: seq<string>)
    requires forall i :: 0 <= i < |parts| ==> parts[i] != ""
    ensures PathJoin(sep, parts) == Join(parts, [sep])
    decreases |parts|
  {
    if |parts| > 0 {
      PathJoinNonEmpty(sep, parts[1..]);
    }
  }

  /** The first part stays in front when the rest is regrouped. */
  lemma Regroup(a: string, b: string, c: string, d: string, e: string)
    ensures a + b + c + d + e == a + (b + c + d + e)
  {
    ConcatAssoc(a, b, c);
    ConcatAssoc(a, b + c, d);
    ConcatAssoc(a, b + c + d, e);
  }

  /** On Windows the path is under `LOCALAPPDATA`, or relative when it is unset or
      empty. */
  lemma Win32CachePath(localAppData: Option<string>, home: string)
    ensures localAppData.GetOr("") == "" ==> AmperCachePath(Win32, localAppData, home) == "JetBrains\\Amper"
    ensures localAppData.GetOr("") != "" ==>
      AmperCachePath(Win32, localAppData, home) == localAppData.value + "\\JetBrains\\Amper"
  {
    var base := localAppData.GetOr("");
    var parts := [base, "JetBrains", "Amper"];
    if base == "" {
      assert parts[1..] == ["JetBrains", "Amper"];
      PathJoinNonEmpty('\\', parts[1..]);
      JoinTwo("JetBrains", "Amper", "\\");
      assert "JetBrains" + "\\" + "Amper" == "JetBrains\\Amper";
    } else {
      PathJoinNonEmpty('\\', parts);
      JoinThree(base, "JetBrains", "Amper", "\\");
      Regroup(base, "\\", "JetBrains", "\\", "Amper");
      assert "\\" + "JetBrains" + "\\" + "Amper" == "\\JetBrains\\Amper";
    }
  }

  /** On macOS the path is under the home directory's `Library/Caches`. */
  lemma DarwinCachePath(localAppData: Option<string>, home: string)
    requires home != ""
    ensures AmperCachePath(Darwin, localAppData, home) == home + "/" + "Library" + "/" + "Caches" + "/" + "JetBrains" + "/" + "Amper"
  {
    PathJoinNonEmpty('/', [home, "Library", "Caches", "JetBrains", "Amper"]);
    JoinFive(home, "Library", "Caches", "JetBrains", "Amper", "/");
  }

  /** Elsewhere the path is under the home directory's `.cache`. */
  lemma OtherCachePath(localAppData: Option<string>, home: string)
    requires home != ""
    ensures AmperCachePath(OtherPlatform, localAppData, home) == home + "/" + ".cache" + "/" + "JetBrains" + "/" + "Amper"
  {
    PathJoinNonEmpty('/', [home, ".cache", "JetBrains", "Amper"]);
    JoinFour(home, ".cache", "JetBrains", "Amper", "/");
  }

  // ---------------------------------------------------------------------------
  // Version: (\d+\.\d+\.\d+), leftmost
  // ---------------------------------------------------------------------------

  /** The match starting at `k`. Each digit run is greedy, and a shorter run would
      leave a digit where a dot is needed, so only maximal runs can match; the last
      run needs nothing after it and takes every digit. */
  function VersionAt(t: string, k: nat): (r: Option<string>)
    requires k <= |t|
    ensures r.Some? ==> |r.value| >= 5 && k + |r.value| <= |t| && r.value == t[k..k + |r.value|]
  {
    var d1 := RunEnd(t, k, IsDigit);
    if d1 > k && d1 < |t| && t[d1] == '.' then
      var d2 := RunEnd(t, d1 + 1, IsDigit);
      if d2 > d1 + 1 && d2 < |t| && t[d2] == '.' then
        var d3 := RunEnd(t, d2 + 1, IsDigit);
        if d3 > d2 + 1 then Some(t[k..d3]) else None
      else None
    else None
  }

  function VersionStarts(t: string): nat -> bool {
    (k: nat) => k <= |t| && VersionAt(t, k).Some?
  }

  const Unknown := "Unknown"

  /** `extractVersion`: the leftmost match, or `Unknown`. */
  function ExtractVersion(dirName: string): (r: string)
  {
    match FirstWhere(VersionStarts(dirName), 0, |dirName|)
    case Some(k) => VersionAt(dirName, k).value
    case None => Unknown
  }

  /** `Unknown` comes back exactly when no position starts a version. */
  lemma ExtractVersionUnknown(dirName: string)
    ensures ExtractVersion(dirName) == Unknown <==> forall k :: 0 <= k <= |dirName| ==> VersionAt(dirName, k).None?
  {
    match FirstWhere(VersionStarts(dirName), 0, |dirName|)
    case Some(k) =>
      assert VersionStarts(dirName)(k);
      assert VersionAt(dirName, k).value[0] == dirName[k];
      assert IsDigit(dirName[k]);
    case None =>
      forall k | 0 <= k <= |dirName|
        ensures VersionAt(dirName, k).None?
      {
        assert !VersionStarts(dirName)(k);
      }
  }

  /** A version is the leftmost match: a substring of the name that no earlier
      position matches. */
  lemma ExtractVersionFirst(dirName: string)
    requires ExtractVersion(dirName) != Unknown
    ensures exists k :: (
      && 0 <= k <= |dirName| && VersionAt(dirName, k) == Some(ExtractVersion(dirName))
      && forall q :: 0 <= q < k ==> VersionAt(dirName, q).None?)
  {
    var k := FirstWhere(VersionStarts(dirName), 0, |dirName|).value;
    forall q | 0 <= q < k
      ensures VersionAt(dirName, q).None?
    {
      assert !VersionStarts(dirName)(q);
    }
  }

  /** The three digit groups of a name are read, whatever precedes them without a
      digit and whatever follows that does not start with a digit. */
  lemma ExtractVersionOf(pre: string, a: string, b: string, c: string, post: string)
    requires forall i :: 0 <= i < |pre| ==> !IsDigit(pre[i])
    requires |a| > 0 && All(a, IsDigit) && |b| > 0 && All(b, IsDigit) && |c| > 0 && All(c, IsDigit)
    requires post == "" || !IsDigit(post[0])
    ensures ExtractVersion(pre + a + "." + b + "." + c + post) == a + "." + b + "." + c
  {
    var v := a + "." + b + "." + c;
    var t := pre + v + post;
    var k := |pre|;
    NameRegroup(pre, a, b, c, post);
    assert t[k..k + |v|] == v;
    assert t[k + |v|..] == post;
    assert forall q :: 0 <= q < k ==> t[q] == pre[q];
    VersionAtGroups(t, k, a, b, c);
    assert VersionStarts(t)(k);
    NoVersionBefore(t, k);
    FirstWhereIs(VersionStarts(t), 0, |t|, k);
  }

  /** The version text can be read as one part of the name. */
  lemma NameRegroup(pre: string, a: string, b: string, c: string, post: string)
    ensures pre + a + "." + b + "." + c + post == pre + (a + "." + b + "." + c) + post
  {
    var d := ".";
    ConcatAssoc(pre, a, d);
    ConcatAssoc(pre, a + d, b);
    ConcatAssoc(pre, a + d + b, d);
    ConcatAssoc(pre, a + d + b + d, c);
  }

  /** No version starts at a position before `k` when no digit stands there. */
  lemma NoVersionBefore(t: string, k: nat)
    requires k <= |t|
    requires forall q :: 0 <= q < k ==> !IsDigit(t[q])
    ensures forall q :: 0 <= q < k ==> !VersionStarts(t)(q)
  {
    forall q | 0 <= q < k
      ensures !VersionStarts(t)(q)
    {
      RunEndIs(t, q, q, IsDigit);
    }
  }

  lemma VersionAtGroups(t: string, k: nat, a: string, b: string, c: string)
    requires |a| > 0 && All(a, IsDigit) && |b| > 0 && All(b, IsDigit) && |c| > 0 && All(c, IsDigit)
    requires k + |a| + |b| + |c| + 2 <= |t|
    requires t[k..k + |a| + |b| + |c| + 2] == a + "." + b + "." + c
    requires k + |a| + |b| + |c| + 2 == |t| || !IsDigit(t[k + |a| + |b| + |c| + 2])
    ensures VersionAt(t, k) == Some(a + "." + b + "." + c)
  {
    var d1 := k + |a|;
    var d2 := d1 + 1 + |b|;
    var d3 := d2 + 1 + |c|;
    GroupLayout(t, k, a, b, c);
    DigitRunAt(t, k, a);
    DigitRunAt(t, d1 + 1, b);
    DigitRunAt(t, d2 + 1, c);
    VersionAtRuns(t, k, d1, d2, d3);
  }

  /** Three digit runs with a dot after each of the first two make a version. */
  lemma VersionAtRuns(t: string, k: nat, d1: nat, d2: nat, d3: nat)
    requires k < d1 < |t| && t[d1] == '.' && RunEnd(t, k, IsDigit) == d1
    requires d1 + 1 < d2 < |t| && t[d2] == '.' && RunEnd(t, d1 + 1, IsDigit) == d2
    requires d2 + 1 < d3 <= |t| && RunEnd(t, d2 + 1, IsDigit) == d3
    ensures VersionAt(t, k) == Some(t[k..d3])
  {
  }

  /** Where the groups and dots of a version text placed at `k` sit. */
  lemma GroupLayout(t: string, k: nat, a: string, b: string, c: string)
    requires k + |a| + |b| + |c| + 2 <= |t|
    requires t[k..k + |a| + |b| + |c| + 2] == a + "." + b + "." + c
    ensures var d1, d2 := k + |a|, k + |a| + 1 + |b|;
      && t[k..d1] == a && t[d1] == '.'
      && t[d1 + 1..d2] == b && t[d2] == '.'
      && t[d2 + 1..d2 + 1 + |c|] == c
  {
    var d3 := k + |a| + |b| + |c| + 2;
    var v := t[k..d3];
    VersionParts(v, a, b, c);
    SubSlice(t, k, d3, 0, |a|);
    SubSlice(t, k, d3, |a| + 1, |a| + 1 + |b|);
    SubSlice(t, k, d3, |a| + 2 + |b|, |v|);
    assert t[k + |a|] == v[|a|] && t[k + |a| + 1 + |b|] == v[|a| + 1 + |b|];
  }

  /** Where each group and dot of a version text sits. */
  lemma VersionParts(v: string, a: string, b: string, c: string)
    requires v == a + "." + b + "." + c
    ensures |v| == |a| + |b| + |c| + 2
    ensures v[0..|a|] == a && v[|a|] == '.'
    ensures v[|a| + 1..|a| + 1 + |b|] == b && v[|a| + 1 + |b|] == '.'
    ensures v[|a| + 2 + |b|..|v|] == c
  {
  }

  /** A run of digits ends where the digit text `g` placed at `s` ends, when no digit
      follows it. */
  lemma DigitRunAt(t: string, s: nat, g: string)
    requires s + |g| <= |t| && t[s..s + |g|] == g && All(g, IsDigit)
    requires s + |g| == |t| || !IsDigit(t[s + |g|])
    ensures RunEnd(t, s, IsDigit) == s + |g|
  {
    forall i | s <= i < s + |g|
      ensures IsDigit(t[i])
    {
      assert t[i] == g[i - s];
    }
    RunEndIs(t, s, s + |g|, IsDigit);
  }

  // ---------------------------------------------------------------------------
  // The installed JDKs
  // ---------------------------------------------------------------------------

  datatype JdkType = Jdk | Jre

  datatype JdkInfo = JdkInfo(id: string, name: string, version: string, path: string, jdkType: JdkType)

  /** One entry of the cache directory: its name and whether it is a directory. */
  datatype DirEntry = DirEntry(name: string, isDirectory: bool)

  /** The name test is case-sensitive. */
  predicate LooksLikeJdk(name: string) {
    Contains(name, "jre") || Contains(name, "jdk") || Contains(name, "zulu")
  }

  /** The classification lower-cases the name first. */
  function TypeOf(name: string): (r: JdkType)
    ensures r == Jre <==> Contains(JsToLowerCase(name), "jre")
  {
    if Contains(JsToLowerCase(name), "jre") then Jre else Jdk
  }

  /** One listed entry: kept when its name looks like a JDK and it is a directory,
      with the path joined by the platform's separator. */
  function JdkOf(platform: OsPlatform, cachePath: string, e: DirEntry): (r: Option<JdkInfo>)
    ensures r.Some? <==> LooksLikeJdk(e.name) && e.isDirectory
    ensures r.Some? ==> r.value.id == e.name && r.value.name == e.name
    ensures r.Some? ==> r.value.version == ExtractVersion(e.name) && r.value.jdkType == TypeOf(e.name)
    ensures r.Some? && cachePath != "" ==> r.value.path == cachePath + [Separator(platform)] + e.name
    ensures r.Some? && cachePath == "" ==> r.value.path == e.name
  {
    if LooksLikeJdk(e.name) && e.isDirectory then
      PathJoinTwo(Separator(platform), cachePath, e.name);
      Some(JdkInfo(e.name, e.name, ExtractVersion(e.name), PathJoin(Separator(platform), [cachePath, e.name]), TypeOf(e.name)))
    else None
  }

  /** `getInstalledJdks` on the platform, given `LOCALAPPDATA`, the home directory and
      the listing of the cache directory (none when it does not exist). */
  function GetInstalledJdks(platform: OsPlatform, localAppData: Option<string>, home: string, listing: Option<seq<DirEntry>>): (r: seq<JdkInfo>)
    ensures listing.None? ==> r == []
    ensures listing.Some? ==> |r| <= |listing.value|
    ensures listing.Some? ==> forall j :: 0 <= j < |r| ==>
      exists i :: 0 <= i < |listing.value| && JdkOf(platform, AmperCachePath(platform, localAppData, home), listing.value[i]) == Some(r[j])
  {
    var cachePath := AmperCachePath(platform, localAppData, home);
    match listing
    case None => []
    case Some(entries) => FilterMap((e: DirEntry) => JdkOf(platform, cachePath, e), entries)
  }

  /** One entry yields a JDK exactly when its name looks like one and it is a
      directory. */
  lemma InstalledSingle(platform: OsPlatform, localAppData: Option<string>, home: string, e: DirEntry)
    ensures |GetInstalledJdks(platform, localAppData, home, Some([e]))| == if LooksLikeJdk(e.name) && e.isDirectory then 1 else 0
  {
    assert [e][1..] == [];
  }

  /** Listings are read entry by entry, in listing order. */
  lemma InstalledAppend(platform: OsPlatform, localAppData: Option<string>, home: string, a: seq<DirEntry>, b: seq<DirEntry>)
    ensures GetInstalledJdks(platform, localAppData, home, Some(a + b)) == GetInstalledJdks(platform, localAppData, home, Some(a)) + GetInstalledJdks(platform, localAppData, home, Some(b))
  {
    FilterMapAppend((e: DirEntry) => JdkOf(platform, AmperCachePath(platform, localAppData, home), e), a, b);
  }

  /** Every entry that passes is listed. */
  lemma InstalledKeeps(platform: OsPlatform, localAppData: Option<string>, home: string, entries: seq<DirEntry>, i: nat)
    requires i < |entries| && LooksLikeJdk(entries[i].name) && entries[i].isDirectory
    ensures JdkOf(platform, AmperCachePath(platform, localAppData, home), entries[i]).value in GetInstalledJdks(platform, localAppData, home, Some(entries))
  {
    FilterMapKeeps((e: DirEntry) => JdkOf(platform, AmperCachePath(platform, localAppData, home), e), entries, i);
  }

  /** On Windows a JDK's path is `LOCALAPPDATA\JetBrains\Amper\<name>`, with
      backslashes throughout. */
  lemma Win32JdkPath(localAppData: Option<string>, home: string, e: DirEntry)
    requires localAppData.GetOr("") != "" && LooksLikeJdk(e.name) && e.isDirectory
    ensures JdkOf(Win32, AmperCachePath(Win32, localAppData, home), e).value.path == localAppData.value + "\\JetBrains\\Amper\\" + e.name
  {
    Win32CachePath(localAppData, home);
    var c := AmperCachePath(Win32, localAppData, home);
    assert c + ['\\'] + e.name == localAppData.value + "\\JetBrains\\Amper\\" + e.name;
  }

  /** The name test and the classification differ in case: an upper-case `JRE` next
      to `zulu` passes the test and is classified as a JRE. */
  lemma UpperCaseJre()
    ensures LooksLikeJdk("zulu-JRE") && !Contains("zulu-JRE", "jre") && TypeOf("zulu-JRE") == Jre
  {
    var n := "zulu-JRE";
    assert OccursAt(n, "zulu", 0);
    ZuluJreLower();
    assert OccursAt("zulu-jre", "jre", 5);
    ZuluJreCased();
  }

  /** `zulu-JRE` lower-cases to `zulu-jre`. */
  lemma ZuluJreLower()
    ensures JsToLowerCase("zulu-JRE") == "zulu-jre"
  {
    assert "zulu-JRE" == "zulu-" + "JRE";
    JsToLowerCaseAppend("zulu-", "JRE");
    JsToLowerCaseKeeps("zulu-");
    assert "JRE"[1..] == "RE" && "RE"[1..] == "E" && "E"[1..] == "";
  }

  /** `zulu-JRE` itself holds no `jre`. */
  lemma ZuluJreCased()
    ensures !Contains("zulu-JRE", "jre")
  {
    var n := "zulu-JRE";
    forall i | 0 <= i <= |n| - 3
      ensures !OccursAt(n, "jre", i)
    {
      assert n[i..i + 3][0] == n[i];
    }
  }
}
