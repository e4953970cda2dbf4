/** String helpers shared by every parser: the character classes the regexes use,
    trimming, searching, splitting and joining. Strings are `seq<char>`. */
module Text {
  import opened Wrappers

  // ---------------------------------------------------------------------------
  // Character classes
  // ---------------------------------------------------------------------------

  /** JavaScript's `\s` class, which is also what `String.prototype.trim` removes. */
  predicate IsJsSpace(c: char) {
    || c == '\t' || c == '\n' || c == '\U{000B}' || c == '\U{000C}' || c == '\r' || c == ' '
    || c == '\U{00A0}' || c == '\U{1680}' || ('\U{2000}' <= c <= '\U{200A}')
    || c == '\U{2028}' || c == '\U{2029}' || c == '\U{202F}' || c == '\U{205F}'
    || c == '\U{3000}' || c == '\U{FEFF}'
  }

  /** Rust's `char::is_whitespace` (the Unicode White_Space property), used by
      `str::trim` and by `\s` in the `regex` crate. Unlike JavaScript it includes
      U+0085 and excludes U+FEFF. */
  predicate IsRustSpace(c: char) {
    || ('\t' <= c <= '\r') || c == ' ' || c == '\U{0085}' || c == '\U{00A0}' || c == '\U{1680}'
    || ('\U{2000}' <= c <= '\U{200A}') || c == '\U{2028}' || c == '\U{2029}'
    || c == '\U{202F}' || c == '\U{205F}' || c == '\U{3000}'
  }

  /** The characters a JavaScript `.` refuses to match. */
  predicate IsLineTerminator(c: char) {
    c == '\n' || c == '\r' || c == '\U{2028}' || c == '\U{2029}'
  }

  predicate IsDigit(c: char) { '0' <= c <= '9' }

  predicate IsAsciiUpper(c: char) { 'A' <= c <= 'Z' }

  predicate IsAsciiLetter(c: char) { IsAsciiUpper(c) || 'a' <= c <= 'z' }

  /** The regex class `\w`: `[A-Za-z0-9_]`. */
  predicate IsWordChar(c: char) { IsAsciiLetter(c) || IsDigit(c) || c == '_' }

  predicate NotJsSpace(c: char) { !IsJsSpace(c) }

  predicate NotLineTerminator(c: char) { !IsLineTerminator(c) }

  /** Every character of `s` satisfies `p`. */
  predicate All(s: string, p: char -> bool) {
    forall i :: 0 <= i < |s| ==> p(s[i])
  }

  /** A slice of a string of the class is of the class, and misses what it misses. */
  lemma SliceKeepsAll(s: string, i: nat, j: nat)
    requires i <= j <= |s|
    ensures forall p: char -> bool :: All(s, p) ==> All(s[i..j], p)
    ensures forall c :: c !in s ==> c !in s[i..j]
  {
    forall p: char -> bool | All(s, p)
      ensures All(s[i..j], p)
    {
      assert forall k :: 0 <= k < j - i ==> s[i..j][k] == s[i + k];
    }
  }

  /** A character outside the class does not occur in a string of the class. */
  lemma AllExcludes(s: string, p: char -> bool, c: char)
    requires All(s, p) && !p(c)
    ensures c !in s
  {
    forall i | 0 <= i < |s|
      ensures s[i] != c
    {
      assert p(s[i]);
    }
  }

  // ---------------------------------------------------------------------------
  // Runs (what a greedy `c+` / `c*` consumes)
  // ---------------------------------------------------------------------------

  /** End of the maximal run of characters satisfying `p` that starts at `i`. */
  function RunEnd(s: string, i: nat, p: char -> bool): (j: nat)
    requires i <= |s|
    ensures i <= j <= |s|
    ensures forall k :: i <= k < j ==> p(s[k])
    ensures j == |s| || !p(s[j])
    decreases |s| - i
  {
    if i < |s| && p(s[i]) then RunEnd(s, i + 1, p) else i
  }

  /** A run is determined by where it starts: any index inside it ends at the same place. */
  lemma {:induction false} RunEndFromInside(s: string, i: nat, k: nat, p: char -> bool)
    requires i <= |s|
    requires i <= k <= RunEnd(s, i, p)
    ensures RunEnd(s, k, p) == RunEnd(s, i, p)
    decreases |s| - i
  {
    if i < k {
      RunEndFromInside(s, i + 1, k, p);
    }
  }

  /** A run is determined by its ends: a stretch of `p`-characters that stops at a
      non-`p` character (or the end) is the run `RunEnd` finds. */
  lemma RunEndIs(s: string, i: nat, j: nat, p: char -> bool)
    requires i <= j <= |s|
    requires forall k :: i <= k < j ==> p(s[k])
    requires j == |s| || !p(s[j])
    ensures RunEnd(s, i, p) == j
  {
  }

  // ---------------------------------------------------------------------------
  // Prefixes, suffixes, occurrences
  // ---------------------------------------------------------------------------

  predicate StartsWith(s: string, prefix: string) {
    |prefix| <= |s| && s[..|prefix|] == prefix
  }

  predicate EndsWith(s: string, suffix: string) {
    |suffix| <= |s| && s[|s| - |suffix|..] == suffix
  }

  predicate OccursAt(s: string, sub: string, i: int) {
    0 <= i && i + |sub| <= |s| && s[i..i + |sub|] == sub
  }

  /** `sub` occurs at `i` when ASCII letters are compared without case (a regex's
      `i` flag; the words it is used on are ASCII, and JavaScript never folds a
      non-ASCII character onto an ASCII one). */
  predicate OccursAtIgnoringCase(s: string, sub: string, i: nat) {
    i + |sub| <= |s| && forall k :: 0 <= k < |sub| ==> LowerChar(s[i + k]) == LowerChar(sub[k])
  }

  /** `String.prototype.includes` / `str::contains`. */
  predicate Contains(s: string, sub: string) {
    exists i | 0 <= i <= |s| - |sub| :: OccursAt(s, sub, i)
  }

  /** First occurrence of `sub` at or after `from`. */
  function FindFrom(s: string, sub: string, from: nat): (r: Option<nat>)
    requires from <= |s|
    ensures r.Some? ==> from <= r.value && OccursAt(s, sub, r.value)
    ensures r.Some? ==> forall k :: from <= k < r.value ==> !OccursAt(s, sub, k)
    ensures r.None? ==> forall k :: from <= k ==> !OccursAt(s, sub, k)
    decreases |s| - from
  {
    if OccursAt(s, sub, from) then Some(from)
    else if from + |sub| >= |s| then None
    else FindFrom(s, sub, from + 1)
  }

  /** `indexOf` / `str::find`. */
  function IndexOf(s: string, sub: string): (r: Option<nat>)
    ensures r.Some? <==> Contains(s, sub)
    ensures r.Some? ==> OccursAt(s, sub, r.value) && forall k :: 0 <= k < r.value ==> !OccursAt(s, sub, k)
  {
    FindFrom(s, sub, 0)
  }

  /** Position of the first `c` in `s`. */
  function IndexOfChar(s: string, c: char): (r: Option<nat>)
    ensures r.Some? ==> r.value < |s| && s[r.value] == c && c !in s[..r.value]
    ensures r.None? ==> c !in s
  {
    if c in s then
      var i := RunEnd(s, 0, x => x != c);
      Some(i)
    else None
  }

  lemma IndexOfCharIs(s: string, c: char, p: nat)
    requires p < |s| && s[p] == c && c !in s[..p]
    ensures IndexOfChar(s, c) == Some(p)
  {
    assert s[..p + 1][p] == c;
  }

  /** Position of the last `c` in `s` (`str::rfind`). */
  function LastIndexOfChar(s: string, c: char): (r: Option<nat>)
    ensures r.Some? ==> r.value < |s| && s[r.value] == c && c !in s[r.value + 1..]
    ensures r.None? ==> c !in s
    decreases |s|
  {
    if |s| == 0 then None
    else if s[|s| - 1] == c then Some(|s| - 1)
    else
      var r := LastIndexOfChar(s[..|s| - 1], c);
      assert s == s[..|s| - 1] + [s[|s| - 1]];
      r
  }

  /** The last `c` is the one after which no `c` follows. */
  lemma LastIndexOfCharIs(s: string, c: char, p: nat)
    requires p < |s| && s[p] == c && c !in s[p + 1..]
    ensures LastIndexOfChar(s, c) == Some(p)
  {
  }

  // ---------------------------------------------------------------------------
  // Trimming
  // ---------------------------------------------------------------------------

  /** `r` is `s` with every leading and trailing `p`-character removed. */
  predicate IsTrimOf(s: string, r: string, p: char -> bool) {
    exists i, j | 0 <= i <= j <= |s| ::
      && r == s[i..j]
      && (forall k :: 0 <= k < i ==> p(s[k]))
      && (forall k :: j <= k < |s| ==> p(s[k]))
      && (|r| > 0 ==> !p(r[0]) && !p(r[|r| - 1]))
  }

  function TrimStart(s: string, p: char -> bool): (r: string)
    ensures |r| <= |s| && r == s[|s| - |r|..]
    ensures forall k :: 0 <= k < |s| - |r| ==> p(s[k])
    ensures |r| > 0 ==> !p(r[0])
  {
    s[RunEnd(s, 0, p)..]
  }

  function TrimEnd(s: string, p: char -> bool): (r: string)
    ensures |r| <= |s| && r == s[..|r|]
    ensures forall k :: |r| <= k < |s| ==> p(s[k])
    ensures |r| > 0 ==> !p(r[|r| - 1])
    decreases |s|
  {
    if |s| > 0 && p(s[|s| - 1]) then TrimEnd(s[..|s| - 1], p) else s
  }

  function Trim(s: string, p: char -> bool): (r: string)
    ensures IsTrimOf(s, r, p)
    ensures |r| <= |s|
  {
    var a := TrimStart(s, p);
    var r := TrimEnd(a, p);
    var i := |s| - |a|;
    assert r == s[i..i + |r|];
    assert |r| > 0 ==> r[0] == a[0];
    r
  }

  /** JavaScript's `String.prototype.trim`. */
  function JsTrim(s: string): (r: string)
    ensures IsTrimOf(s, r, IsJsSpace)
  {
    Trim(s, IsJsSpace)
  }

  /** Rust's `str::trim`. */
  function RustTrim(s: string): (r: string)
    ensures IsTrimOf(s, r, IsRustSpace)
  {
    Trim(s, IsRustSpace)
  }

  /** Trimming text that has nothing to trim gives it back. */
  lemma TrimOfTrimmed(s: string, p: char -> bool)
    requires |s| > 0 ==> !p(s[0]) && !p(s[|s| - 1])
    ensures Trim(s, p) == s
  {
  }

  // ---------------------------------------------------------------------------
  // Splitting and joining
  // ---------------------------------------------------------------------------

  /** `Array.prototype.join` / `[String]::join`. */
  function Join(parts: seq<string>, sep: string): string
    decreases |parts|
  {
    if |parts| == 0 then ""
    else if |parts| == 1 then parts[0]
    else parts[0] + sep + Join(parts[1..], sep)
  }

  /** `String.prototype.split` / `str::split` on one character: never empty,
      no piece holds the separator, and joining the pieces gives `s` back. */
  function Split(s: string, sep: char): (r: seq<string>)
    ensures |r| >= 1
    ensures forall i :: 0 <= i < |r| ==> sep !in r[i]
    ensures Join(r, [sep]) == s
    decreases |s|
  {
    match IndexOfChar(s, sep)
    case None => [s]
    case Some(i) =>
      var rest := Split(s[i + 1..], sep);
      assert s == s[..i] + [sep] + s[i + 1..];
      [s[..i]] + rest
  }

  /** A class every joined character belongs to holds for every part. */
  lemma {:induction false} AllOfJoinedPart(parts: seq<string>, sep: string, p: char -> bool, i: nat)
    requires i < |parts| && All(Join(parts, sep), p)
    ensures All(parts[i], p)
    decreases |parts|
  {
    var s := Join(parts, sep);
    if |parts| > 1 {
      var rest := Join(parts[1..], sep);
      assert s == parts[0] + sep + rest;
      if i == 0 {
        forall k | 0 <= k < |parts[0]|
          ensures p(parts[0][k])
        {
          assert s[k] == parts[0][k];
        }
      } else {
        forall k | 0 <= k < |rest|
          ensures p(rest[k])
        {
          assert s[|parts[0]| + |sep| + k] == rest[k];
        }
        AllOfJoinedPart(parts[1..], sep, p, i - 1);
      }
    }
  }

  lemma JoinTwo(a: string, b: string, sep: string)
    ensures Join([a, b], sep) == a + sep + b
  {
    assert [a, b][1..] == [b];
  }

  lemma JoinThree(a: string, b: string, c: string, sep: string)
    ensures Join([a, b, c], sep) == a + sep + b + sep + c
  {
    assert [a, b, c][1..] == [b, c];
    JoinTwo(b, c, sep);
  }

  lemma JoinFour(a: string, b: string, c: string, d: string, sep: string)
    ensures Join([a, b, c, d], sep) == a + sep + b + sep + c + sep + d
  {
    assert [a, b, c, d][1..] == [b, c, d];
    JoinThree(b, c, d, sep);
  }

  lemma JoinFive(a: string, b: string, c: string, d: string, e: string, sep: string)
    ensures Join([a, b, c, d, e], sep) == a + sep + b + sep + c + sep + d + sep + e
  {
    assert [a, b, c, d, e][1..] == [b, c, d, e];
    JoinFour(b, c, d, e, sep);
  }

  lemma {:induction false} JoinAppend(xs: seq<string>, ys: seq<string>, sep: string)
    requires |xs| > 0 && |ys| > 0
    ensures Join(xs + ys, sep) == Join(xs, sep) + sep + Join(ys, sep)
    decreases |xs|
  {
    if |xs| == 1 {
      assert xs + ys == [xs[0]] + ys;
    } else {
      JoinAppend(xs[1..], ys, sep);
      assert (xs + ys)[1..] == xs[1..] + ys;
    }
  }

  /** The other half of the round trip: splitting joined separator-free pieces
      gives the pieces back. */
  lemma {:induction false} SplitJoin(parts: seq<string>, sep: char)
    requires |parts| >= 1
    requires forall i :: 0 <= i < |parts| ==> sep !in parts[i]
    ensures Split(Join(parts, [sep]), sep) == parts
    decreases |parts|
  {
    var s := Join(parts, [sep]);
    if |parts| == 1 {
      assert s == parts[0];
    } else {
      var rest := Join(parts[1..], [sep]);
      assert s == parts[0] + [sep] + rest;
      var i := |parts[0]|;
      assert s[i] == sep;
      assert s[..i] == parts[0];
      assert IndexOfChar(s, sep) == Some(i);
      assert s[i + 1..] == rest;
      SplitJoin(parts[1..], sep);
    }
  }

  /** Splitting is compositional over the separator. */
  lemma SplitAround(a: string, b: string, sep: char)
    ensures Split(a + [sep] + b, sep) == Split(a, sep) + Split(b, sep)
  {
    var xs, ys := Split(a, sep), Split(b, sep);
    JoinAppend(xs, ys, [sep]);
    SplitJoin(xs + ys, sep);
  }

  /** Splitting text without the separator gives one piece. */
  lemma SplitNoSeparator(s: string, sep: char)
    requires sep !in s
    ensures Split(s, sep) == [s]
  {
  }

  // ---------------------------------------------------------------------------
  // Case, replacement, numbers
  // ---------------------------------------------------------------------------

  function LowerChar(c: char): char {
    if IsAsciiUpper(c) then (c as int + 32) as char else c
  }

  /** Lower-casing of ASCII letters only: the case folding of a regex's `i` flag
      without `u`, and `toLowerCase` on text that is all ASCII. */
  function ToLower(s: string): (r: string)
    ensures |r| == |s|
    ensures forall i :: 0 <= i < |s| ==> !IsAsciiUpper(r[i])
    ensures forall i :: 0 <= i < |s| && !IsAsciiUpper(s[i]) ==> r[i] == s[i]
  {
    seq(|s|, i requires 0 <= i < |s| => LowerChar(s[i]))
  }

  /** What `toLowerCase` makes of one character, as far as ASCII text can tell:
      ASCII capitals become small letters, U+212A KELVIN SIGN becomes `k`, and
      U+0130 LATIN CAPITAL LETTER I WITH DOT ABOVE becomes `i` followed by U+0307.
      These are the only characters whose lower-case form holds an ASCII letter;
      every other character is kept. */
  function LowerForm(c: char): (r: string)
    ensures 1 <= |r| <= 2
    ensures forall i :: 0 <= i < |r| ==> !IsAsciiUpper(r[i])
    ensures !IsAsciiUpper(c) && c != '\U{212A}' && c != '\U{0130}' ==> r == [c]
  {
    if IsAsciiUpper(c) then [(c as int + 32) as char]
    else if c == '\U{212A}' then "k"
    else if c == '\U{0130}' then "i\U{0307}"
    else [c]
  }

  /** `String.prototype.toLowerCase`, character by character (`LowerForm`). */
  function JsToLowerCase(s: string): (r: string)
    ensures |r| >= |s|
    ensures forall i :: 0 <= i < |r| ==> !IsAsciiUpper(r[i])
    decreases |s|
  {
    if |s| == 0 then "" else LowerForm(s[0]) + JsToLowerCase(s[1..])
  }

  /** Lower-casing works piecewise. */
  lemma {:induction false} JsToLowerCaseAppend(a: string, b: string)
    ensures JsToLowerCase(a + b) == JsToLowerCase(a) + JsToLowerCase(b)
    decreases |a|
  {
    if |a| > 0 {
      assert (a + b)[1..] == a[1..] + b;
      JsToLowerCaseAppend(a[1..], b);
    } else {
      assert a + b == b;
    }
  }

  /** The same for four pieces. */
  lemma JsToLowerCaseAppend4(a: string, b: string, c: string, d: string)
    ensures JsToLowerCase(a + b + c + d) == JsToLowerCase(a) + JsToLowerCase(b) + JsToLowerCase(c) + JsToLowerCase(d)
  {
    JsToLowerCaseAppend(a, b);
    JsToLowerCaseAppend(a + b, c);
    JsToLowerCaseAppend(a + b + c, d);
  }

  /** Without U+212A and U+0130, `toLowerCase` agrees with the ASCII lower-casing. */
  lemma {:induction false} JsToLowerCaseAscii(s: string)
    requires forall i :: 0 <= i < |s| ==> s[i] != '\U{212A}' && s[i] != '\U{0130}'
    ensures JsToLowerCase(s) == ToLower(s)
    decreases |s|
  {
    if |s| > 0 {
      JsToLowerCaseAscii(s[1..]);
      assert ToLower(s) == [LowerChar(s[0])] + ToLower(s[1..]);
    }
  }

  /** Text without capitals, Kelvin sign or dotted capital I is its own lower case. */
  lemma {:induction false} JsToLowerCaseKeeps(s: string)
    requires forall i :: 0 <= i < |s| ==> !IsAsciiUpper(s[i]) && s[i] != '\U{212A}' && s[i] != '\U{0130}'
    ensures JsToLowerCase(s) == s
    decreases |s|
  {
    if |s| > 0 {
      JsToLowerCaseKeeps(s[1..]);
      assert s == [s[0]] + s[1..];
    }
  }

  /** A piece of a concatenation occurs in it. */
  lemma ContainsMiddle(a: string, w: string, b: string)
    ensures Contains(a + w + b, w)
  {
    assert (a + w + b)[|a|..|a| + |w|] == w;
    assert OccursAt(a + w + b, w, |a|);
  }

  /** The Kelvin sign lower-cases to a plain `k`. */
  lemma KelvinLowersToK()
    ensures JsToLowerCase("JD\U{212A}") == "jdk"
  {
    assert "JD\U{212A}"[1..] == "D\U{212A}";
    assert "D\U{212A}"[1..] == "\U{212A}";
    assert "\U{212A}"[1..] == "";
  }

  /** Text that holds an upper-case ASCII letter never occurs in lower-cased text. */
  lemma JsLowerHasNoUpperWord(s: string, w: string, k: nat)
    requires k < |w| && IsAsciiUpper(w[k])
    ensures !Contains(JsToLowerCase(s), w)
  {
    var l := JsToLowerCase(s);
    forall i | 0 <= i <= |l| - |w|
      ensures !OccursAt(l, w, i)
    {
      assert l[i + k] != w[k];
      assert l[i..i + |w|][k] == l[i + k];
    }
  }

  /** Every `from` character becomes `to` (`replace(/x/g, y)` / `str::replace` on a char). */
  function ReplaceChar(s: string, from: char, to: char): (r: string)
    ensures |r| == |s|
    ensures forall i :: 0 <= i < |s| ==> r[i] == (if s[i] == from then to else s[i])
  {
    seq(|s|, i requires 0 <= i < |s| => if s[i] == from then to else s[i])
  }

  /** Decimal value of a digit string (`parseInt(d, 10)` on what `\d+` captured). */
  function DecimalValue(digits: string): nat
    requires All(digits, IsDigit)
    decreases |digits|
  {
    if |digits| == 0 then 0
    else 10 * DecimalValue(digits[..|digits| - 1]) + (digits[|digits| - 1] as int - '0' as int)
  }
}
