/** Project templates: discovery reads `template.<id>.name=` and
    `template.<id>.description=` lines from a properties bundle, keeps the templates
    that have both, and sorts them by label; the repository caches what it found and
    falls back to a fixed default list. */
module TemplateRepository {
  import opened Wrappers
  import opened Text
  import opened Seqs

  datatype Template = Template(id: string, labelText: string, description: string)

  // ---------------------------------------------------------------------------
  // One bundle line: ^template\.([^.]+)\.(name|description)=(.+)$
  // ---------------------------------------------------------------------------

  datatype Field = Name | Description

  /** The three captures of a template line. */
  datatype Entry = Entry(id: string, field: Field, value: string)

  predicate NotDot(c: char) { c != '.' }

  function FieldWord(f: Field): string {
    match f
    case Name => "name"
    case Description => "description"
  }

  /** The value `(.+)$` captures from `k`: at least one character, none of them a
      line terminator. */
  function ValueFrom(t: string, k: nat): (r: Option<string>)
    ensures r.Some? ==> k < |t| && r.value == t[k..]
  {
    if k < |t| && All(t[k..], NotLineTerminator) then Some(t[k..]) else None
  }

  /** The line regex on a trimmed line. The id run is greedy and stops only at a
      dot, which is what the pattern needs next, so a shorter id never helps; the
      two field words cannot both follow the same dot. */
  function MatchEntry(t: string): (r: Option<Entry>)
    ensures r.Some? ==> |r.value.id| > 0 && All(r.value.id, NotDot)
    ensures r.Some? ==> |r.value.value| > 0 && All(r.value.value, NotLineTerminator)
  {
    if |t| >= 9 && t[..9] == "template." then
      var p := RunEnd(t, 9, NotDot);
      if p == 9 || p == |t| then None
      else
        var id := t[9..p];
        if OccursAt(t, "name=", p + 1) then
          match ValueFrom(t, p + 6)
          case Some(v) => Some(Entry(id, Name, v))
          case None => None
        else if OccursAt(t, "description=", p + 1) then
          match ValueFrom(t, p + 13)
          case Some(v) => Some(Entry(id, Description, v))
          case None => None
        else None
    else None
  }

  /** The line that sets one field of one template. */
  function EntryText(e: Entry): string {
    "template." + e.id + "." + FieldWord(e.field) + "=" + e.value
  }

  /** Matching inverts writing, for every dot-free id and every non-empty value on
      one line; the value may hold `=` and dots. */
  lemma MatchEntryText(e: Entry)
    requires |e.id| > 0 && All(e.id, NotDot)
    requires |e.value| > 0 && All(e.value, NotLineTerminator)
    ensures MatchEntry(EntryText(e)) == Some(e)
  {
    var t := EntryText(e);
    var p := 9 + |e.id|;
    var w := FieldWord(e.field);
    assert t == "template." + e.id + "." + (w + "=" + e.value);
    assert t[..9] == "template.";
    assert t[9..p] == e.id;
    assert t[p] == '.';
    RunEndIs(t, 9, p, NotDot);
    assert t[p + 1..] == w + "=" + e.value;
    MatchEntryAt(t, p, e);
  }

  /** The fields after the id's dot decide the match. */
  lemma MatchEntryAt(t: string, p: nat, e: Entry)
    requires 9 < p < |t| && t[..9] == "template." && RunEnd(t, 9, NotDot) == p && t[9..p] == e.id
    requires t[p + 1..] == FieldWord(e.field) + "=" + e.value
    requires |e.value| > 0 && All(e.value, NotLineTerminator)
    ensures MatchEntry(t) == Some(e)
  {
    if e.field == Name {
      NameFieldAt(t, p, e.value);
    } else {
      DescriptionFieldAt(t, p, e.value);
    }
  }

  /** `name=` follows the dot: the value is the rest of the line. */
  lemma NameFieldAt(t: string, p: nat, v: string)
    requires p < |t| && t[p + 1..] == "name=" + v
    requires |v| > 0 && All(v, NotLineTerminator)
    ensures OccursAt(t, "name=", p + 1) && ValueFrom(t, p + 6) == Some(v)
  {
    var rest := t[p + 1..];
    assert rest[..5] == "name=";
    assert t[p + 1..p + 6] == rest[..5];
    assert t[p + 6..] == v;
  }

  /** `description=` follows the dot: `name=` does not, and the value is the rest
      of the line. */
  lemma DescriptionFieldAt(t: string, p: nat, v: string)
    requires p < |t| && t[p + 1..] == "description=" + v
    requires |v| > 0 && All(v, NotLineTerminator)
    ensures !OccursAt(t, "name=", p + 1)
    ensures OccursAt(t, "description=", p + 1) && ValueFrom(t, p + 13) == Some(v)
  {
    var rest := t[p + 1..];
    assert t[p + 1] == rest[0] == 'd';
    assert rest[..12] == "description=";
    assert t[p + 1..p + 13] == rest[..12];
    assert t[p + 13..] == v;
  }

  /** Each line is trimmed; empty lines and `#` comments are skipped. */
  function LineEntry(line: string): Option<Entry> {
    var t := JsTrim(line);
    if t == "" || t[0] == '#' then None else MatchEntry(t)
  }

  /** Comment lines are skipped, whatever they hold. */
  lemma CommentSkipped(line: string)
    requires |JsTrim(line)| > 0 && JsTrim(line)[0] == '#'
    ensures LineEntry(line) == None
  {
  }

  /** A line whose field is neither word is ignored. */
  lemma OtherFieldIgnored()
    ensures MatchEntry("template.a.icon=x") == None
  {
    var t := "template.a.icon=x";
    assert t[..9] == "template." && t[9] == 'a' && t[10] == '.';
    RunEndIs(t, 9, 10, NotDot);
    assert t[11] == 'i';
  }

  // ---------------------------------------------------------------------------
  // Collecting fields per id
  // ---------------------------------------------------------------------------

  /** What is known of one id so far. */
  datatype Partial = Partial(id: string, labelText: Option<string>, description: Option<string>)

  function PartialIds(ps: seq<Partial>): (r: seq<string>)
    ensures |r| == |ps|
    ensures forall i :: 0 <= i < |ps| ==> r[i] == ps[i].id
  {
    seq(|ps|, i requires 0 <= i < |ps| => ps[i].id)
  }

  function SetField(p: Partial, e: Entry): Partial {
    match e.field
    case Name => p.(labelText := Some(e.value))
    case Description => p.(description := Some(e.value))
  }

  /** One entry: a new id is added (a `Map` keeps insertion order), then the field
      is set, replacing any earlier value. */
  function Apply(ps: seq<Partial>, e: Entry): (r: seq<Partial>)
    ensures PartialIds(r) == if e.id in PartialIds(ps) then PartialIds(ps) else PartialIds(ps) + [e.id]
    ensures forall i :: 0 <= i < |r| && r[i].id != e.id ==> i < |ps| && r[i] == ps[i]
    ensures forall i :: 0 <= i < |r| && r[i].id == e.id ==> r[i] == SetField(if i < |ps| then ps[i] else Partial(e.id, None, None), e)
  {
    if e.id in PartialIds(ps) then
      var r := seq(|ps|, i requires 0 <= i < |ps| => if ps[i].id == e.id then SetField(ps[i], e) else ps[i]);
      assert PartialIds(r) == PartialIds(ps);
      r
    else
      var r := ps + [SetField(Partial(e.id, None, None), e)];
      assert PartialIds(r) == PartialIds(ps) + [e.id];
      r
  }

  function Collect(es: seq<Entry>): seq<Partial>
    decreases |es|
  {
    if |es| == 0 then [] else Apply(Collect(es[..|es| - 1]), es[|es| - 1])
  }

  function EntryIds(es: seq<Entry>): (r: seq<string>)
    ensures |r| == |es|
    ensures forall i :: 0 <= i < |es| ==> r[i] == es[i].id
  {
    seq(|es|, i requires 0 <= i < |es| => es[i].id)
  }

  /** Reference definition: the value of the last entry for this id and field. */
  function LastValue(es: seq<Entry>, id: string, f: Field): Option<string>
    decreases |es|
  {
    if |es| == 0 then None
    else if es[|es| - 1].id == id && es[|es| - 1].field == f then Some(es[|es| - 1].value)
    else LastValue(es[..|es| - 1], id, f)
  }

  /** The collected fields are the last ones written, ids in first-appearance order. */
  predicate CollectedFrom(ps: seq<Partial>, es: seq<Entry>) {
    && PartialIds(ps) == FirstOccurrences(EntryIds(es))
    && forall i :: 0 <= i < |ps| ==>
      && ps[i].labelText == LastValue(es, ps[i].id, Name)
      && ps[i].description == LastValue(es, ps[i].id, Description)
  }

  lemma {:induction false} CollectIds(es: seq<Entry>)
    ensures PartialIds(Collect(es)) == FirstOccurrences(EntryIds(es))
    decreases |es|
  {
    if |es| > 0 {
      var init := es[..|es| - 1];
      CollectIds(init);
      assert EntryIds(es)[..|es| - 1] == EntryIds(init);
    }
  }

  /** One more entry changes only the value it writes. */
  lemma LastValueStep(init: seq<Entry>, e: Entry, id: string, f: Field)
    ensures LastValue(init + [e], id, f) == if e.id == id && e.field == f then Some(e.value) else LastValue(init, id, f)
  {
    assert (init + [e])[..|init|] == init;
  }

  lemma {:induction false} CollectLastWins(es: seq<Entry>)
    ensures CollectedFrom(Collect(es), es)
    decreases |es|
  {
    CollectIds(es);
    if |es| > 0 {
      var init, e := es[..|es| - 1], es[|es| - 1];
      InitLast(es);
      CollectLastWins(init);
      var ps := Collect(es);
      assert ps == Apply(Collect(init), e);
      forall i | 0 <= i < |ps|
        ensures ps[i].labelText == LastValue(es, ps[i].id, Name)
        ensures ps[i].description == LastValue(es, ps[i].id, Description)
      {
        ApplyLastWins(Collect(init), init, e, i);
      }
    }
  }

  /** One entry applied to fields collected from earlier entries: every partial
      holds the last values written once the entry is counted. */
  lemma ApplyLastWins(prev: seq<Partial>, init: seq<Entry>, e: Entry, i: nat)
    requires CollectedFrom(prev, init) && i < |Apply(prev, e)|
    ensures var p := Apply(prev, e)[i];
      && p.labelText == LastValue(init + [e], p.id, Name)
      && p.description == LastValue(init + [e], p.id, Description)
  {
    var ps := Apply(prev, e);
    var x := ps[i].id;
    LastValueStep(init, e, x, Name);
    LastValueStep(init, e, x, Description);
    if x != e.id {
      assert ps[i] == prev[i];
    } else if i < |prev| {
      assert ps[i] == SetField(prev[i], e);
    } else {
      assert e.id !in PartialIds(prev);
      LastValueUnseen(init, e.id, Name);
      LastValueUnseen(init, e.id, Description);
    }
  }

  /** An id no entry mentions has no value. */
  lemma {:induction false} LastValueUnseen(es: seq<Entry>, id: string, f: Field)
    requires id !in FirstOccurrences(EntryIds(es))
    ensures LastValue(es, id, f) == None
    decreases |es|
  {
    if |es| > 0 {
      var init := es[..|es| - 1];
      assert EntryIds(es)[|es| - 1] == es[|es| - 1].id;
      assert EntryIds(es)[..|es| - 1] == EntryIds(init);
      assert id !in FirstOccurrences(EntryIds(init));
      LastValueUnseen(init, id, f);
    }
  }

  // ---------------------------------------------------------------------------
  // Complete templates, sorted
  // ---------------------------------------------------------------------------

  /** A template is complete when both its label and description are non-empty. */
  function CompleteOf(p: Partial): (r: Option<Template>)
    ensures r.Some? ==> r.value.id == p.id
  {
    if p.labelText.Some? && p.labelText.value != "" && p.description.Some? && p.description.value != ""
    then Some(Template(p.id, p.labelText.value, p.description.value))
    else None
  }

  function TemplateIds(ts: seq<Template>): (r: seq<string>)
    ensures |r| == |ts|
    ensures forall i :: 0 <= i < |ts| ==> r[i] == ts[i].id
  {
    seq(|ts|, i requires 0 <= i < |ts| => ts[i].id)
  }

  /** The complete templates, in collection order. */
  function Completes(ps: seq<Partial>): seq<Template> {
    FilterMap(CompleteOf, ps)
  }

  /** Filtering keeps ids unique. */
  lemma {:induction false} CompletesDistinct(ps: seq<Partial>)
    requires Distinct(PartialIds(ps))
    ensures Distinct(TemplateIds(Completes(ps)))
    decreases |ps|
  {
    if |ps| > 0 {
      var tail := ps[1..];
      var rest := Completes(tail);
      assert PartialIds(tail) == PartialIds(ps)[1..];
      CompletesDistinct(tail);
      forall k | 0 <= k < |rest|
        ensures rest[k].id != ps[0].id
      {
        var i :| 0 <= i < |tail| && CompleteOf(tail[i]) == Some(rest[k]);
        assert PartialIds(ps)[i + 1] == rest[k].id;
      }
      match CompleteOf(ps[0])
      case Some(t) =>
        assert Completes(ps) == [t] + rest;
        DistinctCons(t, rest);
      case None =>
        assert Completes(ps) == rest;
    }
  }

  /** A template whose id the others do not carry keeps ids unique in front of them. */
  lemma DistinctCons(t: Template, rest: seq<Template>)
    requires Distinct(TemplateIds(rest))
    requires forall k :: 0 <= k < |rest| ==> rest[k].id != t.id
    ensures Distinct(TemplateIds([t] + rest))
  {
    var ids := TemplateIds([t] + rest);
    forall i, j | 0 <= i < j < |ids|
      ensures ids[i] != ids[j]
    {
      if i > 0 {
        assert ids[i] == TemplateIds(rest)[i - 1] && ids[j] == TemplateIds(rest)[j - 1];
      }
    }
  }

  /** Code-point order on strings: `a` is a prefix of `b` or smaller at the first
      difference. */
  predicate LabelLe(a: string, b: string)
    decreases |a|
  {
    if |a| == 0 then true
    else if |b| == 0 then false
    else if a[0] != b[0] then a[0] < b[0]
    else LabelLe(a[1..], b[1..])
  }

  lemma {:induction false} LabelLeTotal(a: string, b: string)
    ensures LabelLe(a, b) || LabelLe(b, a)
    decreases |a|
  {
    if |a| > 0 && |b| > 0 && a[0] == b[0] {
      LabelLeTotal(a[1..], b[1..]);
    }
  }

  /** Each label is at most the next one. */
  predicate SortedByLabel(ts: seq<Template>) {
    forall i :: 0 <= i < |ts| - 1 ==> LabelLe(ts[i].labelText, ts[i + 1].labelText)
  }

  /** Inserts after every template whose label is not greater, as a stable sort
      places a later element. */
  function Insert(x: Template, s: seq<Template>): (r: seq<Template>)
    requires SortedByLabel(s)
    ensures SortedByLabel(r)
    ensures |r| == |s| + 1 && (r[0] == x || (|s| > 0 && r[0] == s[0]))
    ensures multiset(r) == multiset(s) + multiset{x}
    ensures forall i :: 0 <= i < |r| ==> r[i] == x || r[i] in s
    decreases |s|
  {
    if |s| == 0 then [x]
    else if !LabelLe(s[0].labelText, x.labelText) then
      LabelLeTotal(x.labelText, s[0].labelText);
      [x] + s
    else
      var tail := s[1..];
      assert s == [s[0]] + tail;
      assert SortedByLabel(tail) by {
        forall i | 0 <= i < |tail| - 1
          ensures LabelLe(tail[i].labelText, tail[i + 1].labelText)
        {
          assert tail[i] == s[i + 1] && tail[i + 1] == s[i + 2];
        }
      }
      var rest := Insert(x, tail);
      var r := [s[0]] + rest;
      assert LabelLe(s[0].labelText, rest[0].labelText);
      assert forall i :: 1 <= i < |r| ==> r[i] == rest[i - 1];
      r
  }

  /** Inserting a template with a new id keeps ids unique. */
  lemma {:induction false} InsertDistinct(x: Template, s: seq<Template>)
    requires SortedByLabel(s)
    requires Distinct(TemplateIds(s)) && x.id !in TemplateIds(s)
    ensures Distinct(TemplateIds(Insert(x, s)))
    decreases |s|
  {
    if |s| > 0 && LabelLe(s[0].labelText, x.labelText) {
      var tail := s[1..];
      assert TemplateIds(tail) == TemplateIds(s)[1..];
      assert SortedByLabel(tail) by {
        forall i | 0 <= i < |tail| - 1
          ensures LabelLe(tail[i].labelText, tail[i + 1].labelText)
        {
          assert tail[i] == s[i + 1] && tail[i + 1] == s[i + 2];
        }
      }
      InsertDistinct(x, tail);
      var rest := Insert(x, tail);
      forall k | 0 <= k < |rest|
        ensures rest[k].id != s[0].id
      {
        if rest[k] != x {
          var j :| 0 <= j < |tail| && tail[j] == rest[k];
          assert TemplateIds(s)[j + 1] == rest[k].id;
        }
      }
      assert Insert(x, s) == [s[0]] + rest;
    }
  }

  /** `sort` by label: sorted, and the same templates. */
  function SortByLabel(ts: seq<Template>): (r: seq<Template>)
    ensures SortedByLabel(r)
    ensures multiset(r) == multiset(ts)
    ensures forall i :: 0 <= i < |r| ==> r[i] in ts
    decreases |ts|
  {
    if |ts| == 0 then []
    else
      var init := ts[..|ts| - 1];
      var x := ts[|ts| - 1];
      assert ts == init + [x];
      var prev := SortByLabel(init);
      var r := Insert(x, prev);
      assert forall i :: 0 <= i < |r| ==> r[i] == x || r[i] in init;
      r
  }

  /** Sorting keeps ids unique. */
  lemma {:induction false} SortDistinct(ts: seq<Template>)
    requires Distinct(TemplateIds(ts))
    ensures Distinct(TemplateIds(SortByLabel(ts)))
    decreases |ts|
  {
    if |ts| > 0 {
      var init := ts[..|ts| - 1];
      var x := ts[|ts| - 1];
      assert TemplateIds(init) == TemplateIds(ts)[..|ts| - 1];
      SortDistinct(init);
      var prev := SortByLabel(init);
      forall k | 0 <= k < |prev|
        ensures prev[k].id != x.id
      {
        var j :| 0 <= j < |init| && init[j] == prev[k];
        assert TemplateIds(ts)[j] == prev[k].id;
      }
      InsertDistinct(x, prev);
    }
  }

  /** `discoverTemplatesFromSource`, given the bundle's text (none when the file is
      missing). */
  function DiscoverTemplates(bundle: Option<string>): seq<Template> {
    match bundle
    case None => []
    case Some(content) => FromEntries(BundleEntries(content))
  }

  /** The complete templates the entries describe, sorted by label. */
  function FromEntries(es: seq<Entry>): seq<Template> {
    SortByLabel(Completes(Collect(es)))
  }

  /** The entries a bundle's text holds, one per matching line. */
  function BundleEntries(content: string): seq<Entry> {
    FilterMap(LineEntry, Split(content, '\n'))
  }

  /** Discovery's result is sorted by label and names each id at most once. */
  lemma DiscoveredSortedUnique(content: string)
    ensures SortedByLabel(DiscoverTemplates(Some(content)))
    ensures Distinct(TemplateIds(DiscoverTemplates(Some(content))))
  {
    var es := BundleEntries(content);
    var ps := Collect(es);
    CollectIds(es);
    CompletesDistinct(ps);
    SortDistinct(Completes(ps));
  }

  /** A complete template carries the collected values of its id. */
  lemma CompleteLastValues(es: seq<Entry>, ps: seq<Partial>, t: Template)
    requires CollectedFrom(ps, es)
    requires t in Completes(ps)
    ensures LastValue(es, t.id, Name) == Some(t.labelText) && t.labelText != ""
    ensures LastValue(es, t.id, Description) == Some(t.description) && t.description != ""
  {
    var k :| 0 <= k < |Completes(ps)| && Completes(ps)[k] == t;
    var i :| 0 <= i < |ps| && CompleteOf(ps[i]) == Some(t);
    assert ps[i].labelText == LastValue(es, ps[i].id, Name);
    assert ps[i].description == LastValue(es, ps[i].id, Description);
  }

  /** A template built from entries carries the last values its id was given. */
  lemma FromEntriesLastValues(es: seq<Entry>, t: Template)
    requires t in FromEntries(es)
    ensures LastValue(es, t.id, Name) == Some(t.labelText) && t.labelText != ""
    ensures LastValue(es, t.id, Description) == Some(t.description) && t.description != ""
  {
    var ps := Collect(es);
    CollectLastWins(es);
    var cs := Completes(ps);
    var k :| 0 <= k < |SortByLabel(cs)| && SortByLabel(cs)[k] == t;
    assert t in cs;
    CompleteLastValues(es, ps, t);
  }

  /** Every discovered template carries the last name and the last description the
      bundle gives its id, both non-empty. */
  lemma DiscoveredLastValues(content: string, t: Template)
    requires t in DiscoverTemplates(Some(content))
    ensures LastValue(BundleEntries(content), t.id, Name) == Some(t.labelText) && t.labelText != ""
    ensures LastValue(BundleEntries(content), t.id, Description) == Some(t.description) && t.description != ""
  {
    FromEntriesLastValues(BundleEntries(content), t);
  }

  /** An id whose last values are both non-empty gives a template. */
  lemma FromEntriesComplete(es: seq<Entry>, id: string, labelText: string, description: string)
    requires LastValue(es, id, Name) == Some(labelText) && labelText != ""
    requires LastValue(es, id, Description) == Some(description) && description != ""
    ensures Template(id, labelText, description) in FromEntries(es)
  {
    var ps := Collect(es);
    CollectLastWins(es);
    LastValueSeen(es, id, Name);
    var i :| 0 <= i < |ps| && ps[i].id == id;
    var t := Template(id, labelText, description);
    assert CompleteOf(ps[i]) == Some(t);
    var cs := Completes(ps);
    FilterMapKeeps(CompleteOf, ps, i);
    assert t in multiset(cs);
    assert multiset(SortByLabel(cs)) == multiset(cs);
  }

  /** Every id whose last name and last description are non-empty is discovered. */
  lemma DiscoveredAllComplete(content: string, id: string, labelText: string, description: string)
    requires LastValue(BundleEntries(content), id, Name) == Some(labelText) && labelText != ""
    requires LastValue(BundleEntries(content), id, Description) == Some(description) && description != ""
    ensures Template(id, labelText, description) in DiscoverTemplates(Some(content))
  {
    FromEntriesComplete(BundleEntries(content), id, labelText, description);
  }

  /** An id with a value was mentioned. */
  lemma {:induction false} LastValueSeen(es: seq<Entry>, id: string, f: Field)
    requires LastValue(es, id, f).Some?
    ensures id in FirstOccurrences(EntryIds(es))
    decreases |es|
  {
    var n := |es|;
    assert EntryIds(es)[n - 1] == es[n - 1].id;
    if !(es[n - 1].id == id && es[n - 1].field == f) {
      var init := es[..n - 1];
      assert EntryIds(es)[..n - 1] == EntryIds(init);
      LastValueSeen(init, id, f);
      assert id in EntryIds(init);
    }
    assert id in EntryIds(es);
  }

  // ---------------------------------------------------------------------------
  // The repository
  // ---------------------------------------------------------------------------

  const DefaultTemplates: seq<Template> := [
    Template("compose-android", "Android application (Jetpack Compose)",
      "An Android application using Jetpack Compose for its UI"),
    Template("compose-desktop", "JVM GUI application (Compose Multiplatform)",
      "A JVM application using Compose Multiplatform for Desktop for its UI"),
    Template("compose-ios", "iOS application (Compose Multiplatform)",
      "An iOS application using Compose Multiplatform for iOS for its UI"),
    Template("compose-multiplatform", "Compose Multiplatform application",
      "A KMP project with Android, iOS, and JVM desktop applications sharing UI with Compose Multiplatform"),
    Template("jvm-cli", "JVM console application",
      "A plain JVM console application without any framework"),
    Template("kmp-lib", "Kotlin Multiplatform library",
      "A multiplatform library targeting Android, iOS, and the JVM"),
    Template("ktor-server", "Ktor server application",
      "A Ktor server application with the Netty engine"),
    Template("multiplatform-cli", "Multiplatform CLI application",
      "A multiplatform CLI application targeting the JVM, as well as Linux, macOS, and Windows native targets"),
    Template("spring-boot-java", "Spring Boot application (Java)",
      "A Spring Boot application written in Java"),
    Template("spring-boot-kotlin", "Spring Boot application (Kotlin)",
      "A Spring Boot application written in Kotlin")
  ]

  /** The fallback list is non-empty and names each id once. */
  lemma DefaultTemplatesUnique()
    ensures |DefaultTemplates| == 10
    ensures Distinct(TemplateIds(DefaultTemplates))
  {
    var ids := TemplateIds(DefaultTemplates);
    assert ids == ["compose-android", "compose-desktop", "compose-ios", "compose-multiplatform",
      "jvm-cli", "kmp-lib", "ktor-server", "multiplatform-cli", "spring-boot-java", "spring-boot-kotlin"];
  }

  /** The cache: nothing until the first lookup or refresh. */
  datatype Repository = Repository(cached: Option<seq<Template>>)

  /** The cache never holds an empty list. */
  predicate CacheValid(repo: Repository) {
    repo.cached.Some? ==> |repo.cached.value| > 0
  }

  datatype Lookup = Lookup(repo: Repository, templates: seq<Template>)

  /** `refreshTemplates`: a non-empty discovery is cached and returned; an empty one,
      or a discovery that threw, caches and returns the defaults. */
  function RefreshTemplates(repo: Repository, discovered: Result<seq<Template>, string>): (r: Lookup)
    ensures r.repo.cached == Some(r.templates)
    ensures |r.templates| > 0
    ensures discovered.Success? && |discovered.value| > 0 ==> r.templates == discovered.value
    ensures discovered.Failure? || discovered.value == [] ==> r.templates == DefaultTemplates
  {
    if discovered.Success? && |discovered.value| > 0 then Lookup(Repository(Some(discovered.value)), discovered.value)
    else Lookup(Repository(Some(DefaultTemplates)), DefaultTemplates)
  }

  /** `getTemplates`: the cache when set, without discovering again; otherwise a
      refresh. The list returned is never empty when the cache is valid. */
  function GetTemplates(repo: Repository, discovered: Result<seq<Template>, string>): (r: Lookup)
    requires CacheValid(repo)
    ensures CacheValid(r.repo)
    ensures |r.templates| > 0
    ensures repo.cached.Some? ==> r == Lookup(repo, repo.cached.value)
    ensures r.repo.cached == Some(r.templates)
  {
    if repo.cached.Some? then Lookup(repo, repo.cached.value)
    else RefreshTemplates(repo, discovered)
  }

  /** After the first lookup, later lookups return the same list whatever discovery
      would now find. */
  lemma GetTemplatesStable(repo: Repository, first: Result<seq<Template>, string>, later: Result<seq<Template>, string>)
    requires CacheValid(repo)
    ensures var a := GetTemplates(repo, first);
      GetTemplates(a.repo, later) == a
  {
  }
}
