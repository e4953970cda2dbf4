/** What the schema extractor makes of the pieces its regexes capture from Kotlin
    sources: type strings, `@SchemaDoc` texts, annotation lists, class and property
    records, and the sealed-class hierarchy. The regex scans over whole source files
    are not modelled; their captures are the inputs here. */
module SchemaParser {
  import opened Wrappers
  import opened Text
  import opened Seqs
  import opened IndexMaps
  import opened SchemaTypes

  // ---------------------------------------------------------------------------
  // Type strings (`parse_type_info`)
  // ---------------------------------------------------------------------------

  datatype TypeInfo = TypeInfo(typeName: string, isNullable: bool, isList: bool, isMap: bool)

  predicate IsQuestion(c: char) { c == '?' }

  /** `n` question marks. */
  function Questions(n: nat): (r: string)
    ensures |r| == n && forall i :: 0 <= i < n ==> r[i] == '?'
  {
    seq(n, i => '?')
  }

  /** The trimmed type with every trailing `?` removed. */
  function BaseType(typeStr: string): string {
    TrimEnd(RustTrim(typeStr), IsQuestion)
  }

  /** A `List<` or `Map<` type must close with `>`: `strip_suffix('>').unwrap()`
      panics otherwise. */
  predicate TypeParsable(typeStr: string) {
    var t := BaseType(typeStr);
    (StartsWith(t, "List<") || StartsWith(t, "Map<")) ==> EndsWith(t, ">")
  }

  /** `parse_type_info`. */
  function ParseTypeInfo(typeStr: string): (r: TypeInfo)
    requires TypeParsable(typeStr)
    ensures r.isNullable <==> EndsWith(RustTrim(typeStr), "?")
    ensures !(r.isList && r.isMap)
    ensures !r.isList && !r.isMap ==> r.typeName == BaseType(typeStr)
  {
    var trimmed := RustTrim(typeStr);
    var nullable := |trimmed| > 0 && trimmed[|trimmed| - 1] == '?';
    var t := TrimEnd(trimmed, IsQuestion);
    if StartsWith(t, "List<") then
      ClosedLonger(t, "List<");
      TypeInfo(t[5..|t| - 1], nullable, true, false)
    else if StartsWith(t, "Map<") then
      ClosedLonger(t, "Map<");
      var inner := t[4..|t| - 1];
      match IndexOfChar(inner, ',')
      case Some(comma) => TypeInfo(RustTrim(inner[comma + 1..]), nullable, false, true)
      case None => TypeInfo(t, nullable, false, false)
    else TypeInfo(t, nullable, false, false)
  }

  /** A text opened by `prefix`, which ends in `<`, and closed by `>` is longer than
      `prefix`. */
  lemma ClosedLonger(t: string, prefix: string)
    requires |prefix| > 0 && prefix[|prefix| - 1] == '<'
    requires StartsWith(t, prefix) && EndsWith(t, ">")
    ensures |t| > |prefix|
  {
    assert t[|t| - 1] == '>' by { assert t[|t| - 1..][0] == t[|t| - 1]; }
    assert t[|prefix| - 1] == '<' by { assert t[..|prefix|][|prefix| - 1] == t[|prefix| - 1]; }
  }

  /** Stripping trailing question marks stops at the first other character. */
  lemma {:induction false} TrimQuestions(base: string, n: nat)
    requires |base| > 0 && base[|base| - 1] != '?'
    ensures TrimEnd(base + Questions(n), IsQuestion) == base
    decreases n
  {
    if n > 0 {
      var s := base + Questions(n);
      assert s[..|s| - 1] == base + Questions(n - 1);
      TrimQuestions(base, n - 1);
    } else {
      assert base + Questions(n) == base;
    }
  }

  /** A type text that starts and ends with a non-blank is its own trim. */
  lemma TypeTextTrimmed(s: string)
    requires |s| > 0 && !IsRustSpace(s[0]) && !IsRustSpace(s[|s| - 1])
    ensures RustTrim(s) == s
  {
    TrimOfTrimmed(s, IsRustSpace);
  }

  /** What a type text followed by question marks parses to, given how its base
      parses. */
  lemma BaseOf(base: string, n: nat)
    requires |base| > 0 && !IsRustSpace(base[0]) && base[|base| - 1] != '?' && !IsRustSpace(base[|base| - 1])
    ensures RustTrim(base + Questions(n)) == base + Questions(n)
    ensures BaseType(base + Questions(n)) == base
    ensures EndsWith(base + Questions(n), "?") <==> n > 0
  {
    var s := base + Questions(n);
    assert s[0] == base[0];
    if n > 0 {
      assert s[|s| - 1] == '?';
    } else {
      assert s == base;
    }
    TypeTextTrimmed(s);
    TrimQuestions(base, n);
  }

  /** `List<T>` with any number of `?` after it gives `T`, a list. */
  lemma ListTypeOf(inner: string, n: nat)
    ensures TypeParsable("List<" + inner + ">" + Questions(n))
    ensures ParseTypeInfo("List<" + inner + ">" + Questions(n)) == TypeInfo(inner, n > 0, true, false)
  {
    var base := "List<" + inner + ">";
    assert base[0] == 'L' && base[|base| - 1] == '>';
    BaseOf(base, n);
    assert base[..5] == "List<";
    assert base[5..|base| - 1] == inner;
  }

  /** How `Map<K,V>` is taken apart: not a list, a map that closes, and the
      first comma of its contents right after `K`. */
  lemma MapBaseShape(k: string, v: string)
    requires ',' !in k
    ensures var base := "Map<" + k + "," + v + ">";
      && !StartsWith(base, "List<") && StartsWith(base, "Map<") && EndsWith(base, ">")
      && base[4..|base| - 1] == k + "," + v
  {
    var base := "Map<" + k + "," + v + ">";
    assert base[..4] == "Map<";
    assert base[..5] != "List<" by {
      assert base[0] != "List<"[0];
    }
    assert base[|base| - 1..] == ">";
    assert base[4..|base| - 1] == k + "," + v;
  }

  /** The first comma of `K,V` is the one after `K`, and `V` follows it. */
  lemma MapInnerComma(k: string, v: string)
    requires ',' !in k
    ensures var inner := k + "," + v;
      IndexOfChar(inner, ',') == Some(|k|) && inner[|k| + 1..] == v
  {
    var inner := k + "," + v;
    assert inner[..|k|] == k;
    IndexOfCharIs(inner, ',', |k|);
    assert inner[|k| + 1..] == v;
  }

  /** `Map<K, V>` with any number of `?` after it gives the trimmed `V`, a map. */
  lemma MapTypeOf(k: string, v: string, n: nat)
    requires ',' !in k
    ensures TypeParsable("Map<" + k + "," + v + ">" + Questions(n))
    ensures ParseTypeInfo("Map<" + k + "," + v + ">" + Questions(n)) == TypeInfo(RustTrim(v), n > 0, false, true)
  {
    var base := "Map<" + k + "," + v + ">";
    assert base[0] == 'M' && base[|base| - 1] == '>';
    BaseOf(base, n);
    MapBaseShape(k, v);
    MapInnerComma(k, v);
  }

  /** Any other type, `Map<…>` without a comma included, is read as written. */
  lemma PlainTypeOf(name: string, n: nat)
    requires |name| > 0 && !IsRustSpace(name[0]) && name[|name| - 1] != '?' && !IsRustSpace(name[|name| - 1])
    requires !StartsWith(name, "List<")
    requires StartsWith(name, "Map<") ==> EndsWith(name, ">") && ',' !in name
    ensures TypeParsable(name + Questions(n))
    ensures ParseTypeInfo(name + Questions(n)) == TypeInfo(name, n > 0, false, false)
  {
    BaseOf(name, n);
    if StartsWith(name, "Map<") {
      var inner := name[4..|name| - 1];
      assert forall i :: 0 <= i < |inner| ==> inner[i] == name[i + 4];
      assert ',' !in inner;
    }
  }

  // ---------------------------------------------------------------------------
  // `@SchemaDoc("…")` texts (`extract_doc_string`)
  // ---------------------------------------------------------------------------

  predicate NotQuote(c: char) { c != '"' }

  const SchemaDocWord := "@SchemaDoc"

  /** The match of `@SchemaDoc\s*\(\s*"([^"]*)"` at `k`, giving the quoted text.
      Each greedy run is followed by a character the run refuses, so no shorter
      run can match instead. */
  function DocAt(t: string, k: nat): (r: Option<string>)
    requires k <= |t|
    ensures r.Some? ==> '"' !in r.value
  {
    if OccursAt(t, SchemaDocWord, k) then
      var j1 := RunEnd(t, k + |SchemaDocWord|, IsRustSpace);
      if j1 < |t| && t[j1] == '(' then
        var j2 := RunEnd(t, j1 + 1, IsRustSpace);
        if j2 < |t| && t[j2] == '"' then
          var j3 := RunEnd(t, j2 + 1, NotQuote);
          if j3 < |t| then
            QuoteFree(t, j2 + 1, j3);
            Some(t[j2 + 1..j3])
          else None
        else None
      else None
    else None
  }

  lemma QuoteFree(t: string, i: nat, j: nat)
    requires i <= j <= |t| && forall k :: i <= k < j ==> NotQuote(t[k])
    ensures '"' !in t[i..j]
  {
    forall x | 0 <= x < j - i
      ensures t[i..j][x] != '"'
    {
      assert t[i..j][x] == t[i + x];
    }
  }

  function DocStarts(t: string): nat -> bool {
    (k: nat) => k <= |t| && DocAt(t, k).Some?
  }

  /** `extract_doc_string`: the text of the leftmost match, else the empty string. */
  function ExtractDocString(annotation: string): (r: string)
    ensures '"' !in r
    ensures (forall k :: 0 <= k <= |annotation| ==> DocAt(annotation, k).None?) ==> r == ""
  {
    match FirstWhere(DocStarts(annotation), 0, |annotation|)
    case Some(k) => DocAt(annotation, k).value
    case None => ""
  }

  /** With a match, the result is the text of the leftmost one. */
  lemma ExtractDocStringFirst(annotation: string, k: nat)
    requires k <= |annotation| && DocAt(annotation, k).Some?
    requires forall q :: 0 <= q < k ==> DocAt(annotation, q).None?
    ensures ExtractDocString(annotation) == DocAt(annotation, k).value
  {
    assert DocStarts(annotation)(k);
    forall q | 0 <= q < k
      ensures !DocStarts(annotation)(q)
    {
    }
    var f := FirstWhere(DocStarts(annotation), 0, |annotation|);
    assert f == Some(k);
  }

  /** The parts of `@SchemaDoc("doc"` found at `k`. */
  lemma DocAtOf(t: string, k: nat, doc: string)
    requires k + |doc| + 13 <= |t| && '"' !in doc
    requires t[k..k + 10] == SchemaDocWord && t[k + 10] == '(' && t[k + 11] == '"'
    requires t[k + 12..k + 12 + |doc|] == doc && t[k + 12 + |doc|] == '"'
    ensures DocAt(t, k) == Some(doc)
  {
    RunEndIs(t, k + 10, k + 10, IsRustSpace);
    RunEndIs(t, k + 11, k + 11, IsRustSpace);
    var e := k + 12 + |doc|;
    forall i | k + 12 <= i < e
      ensures NotQuote(t[i])
    {
      assert t[i] == doc[i - k - 12];
    }
    RunEndIs(t, k + 12, e, NotQuote);
  }

  /** The text of `@SchemaDoc("doc")` is read back, whatever follows it and
      whatever precedes it without an `@`. */
  lemma ExtractDocStringOf(pre: string, doc: string, rest: string)
    requires '@' !in pre && '"' !in doc
    ensures ExtractDocString(pre + SchemaDocWord + "(\"" + doc + "\"" + rest) == doc
  {
    var t := pre + SchemaDocWord + "(\"" + doc + "\"" + rest;
    var k := |pre|;
    assert t[k..k + 10] == SchemaDocWord;
    assert t[k + 10] == '(' && t[k + 11] == '"';
    assert t[k + 12..k + 12 + |doc|] == doc;
    assert t[k + 12 + |doc|] == '"';
    DocAtOf(t, k, doc);
    forall q | 0 <= q < k
      ensures DocAt(t, q).None?
    {
      assert t[q] == pre[q];
      assert t[q..q + 10][0] == t[q];
    }
    ExtractDocStringFirst(t, k);
  }

  /** Text without an `@` carries no doc: the pattern needs the literal
      `@SchemaDoc`, so a name stored without its `@` (`SchemaDoc("doc")`) reads
      back as the empty string. */
  lemma NoDocWithoutAt(annotation: string)
    requires '@' !in annotation
    ensures ExtractDocString(annotation) == ""
  {
    forall k | 0 <= k <= |annotation|
      ensures DocAt(annotation, k).None?
    {
      if k + 10 <= |annotation| {
        assert annotation[k..k + 10][0] == annotation[k] != SchemaDocWord[0];
      }
    }
  }

  // ---------------------------------------------------------------------------
  // Annotation lists (`parse_annotations`)
  // ---------------------------------------------------------------------------

  predicate NotCloseParen(c: char) { c != ')' }

  /** Where a match of `@(\w+)(?:\([^\)]*\))?` starting at `k` ends. The word is
      greedy and the group optional but preferred: taken when a `)` closes it. */
  function AnnotationEnd(t: string, k: nat): (r: Option<nat>)
    requires k <= |t|
    ensures r.Some? ==> k + 2 <= r.value <= |t| && t[k] == '@'
  {
    if k < |t| && t[k] == '@' then
      var w := RunEnd(t, k + 1, IsWordChar);
      if w == k + 1 then None
      else if w < |t| && t[w] == '(' then
        var p := RunEnd(t, w + 1, NotCloseParen);
        if p < |t| then Some(p + 1) else Some(w)
      else Some(w)
    else None
  }

  function AnnotationStarts(t: string): nat -> bool {
    (k: nat) => k <= |t| && AnnotationEnd(t, k).Some?
  }

  /** The successive non-overlapping matches from `from` on, leftmost first, each
      with its leading `@`. */
  function ScanAnnotations(t: string, from: nat): (r: seq<string>)
    requires from <= |t|
    ensures forall i :: 0 <= i < |r| ==> |r[i]| >= 2 && r[i][0] == '@'
    decreases |t| - from
  {
    match FirstWhere(AnnotationStarts(t), from, |t|)
    case None => []
    case Some(k) =>
      var e := AnnotationEnd(t, k).value;
      var m := t[k..e];
      assert m[0] == t[k];
      [m] + ScanAnnotations(t, e)
  }

  function AnnotationMatches(s: string): seq<string> {
    ScanAnnotations(s, 0)
  }

  /** `parse_annotations` as written: the set of whole matches, `@` included. */
  function ParseAnnotationsAsWritten(s: string): (r: set<string>)
    ensures forall a :: a in r <==> a in AnnotationMatches(s)
    ensures forall a :: a in r ==> |a| > 0 && a[0] == '@'
  {
    var m := AnnotationMatches(s);
    set i | 0 <= i < |m| :: m[i]
  }

  /** `parse_annotations` as the lookups need it: the matches without their `@`. */
  function ParseAnnotations(s: string): (r: set<string>)
    ensures forall a :: a in r <==> "@" + a in AnnotationMatches(s)
  {
    var m := AnnotationMatches(s);
    var r := set i | 0 <= i < |m| :: m[i][1..];
    forall a
      ensures a in r <==> "@" + a in m
    {
      if a in r {
        var i :| 0 <= i < |m| && m[i][1..] == a;
        assert m[i] == "@" + a;
      }
      if "@" + a in m {
        var i :| 0 <= i < |m| && m[i] == "@" + a;
        assert m[i][1..] == a;
      }
    }
    r
  }

  /** A lone marker `@name` is one match, whatever follows that is not a word
      character or `(`. */
  lemma MarkerAnnotation(name: string, rest: string)
    requires |name| > 0 && All(name, IsWordChar)
    requires rest == "" || (!IsWordChar(rest[0]) && rest[0] != '(' && '@' !in rest)
    ensures AnnotationMatches("@" + name + rest) == ["@" + name]
  {
    var t := "@" + name + rest;
    var w := 1 + |name|;
    forall i | 1 <= i < w
      ensures IsWordChar(t[i])
    {
      assert t[i] == name[i - 1];
    }
    RunEndIs(t, 1, w, IsWordChar);
    assert AnnotationEnd(t, 0) == Some(w);
    assert AnnotationStarts(t)(0);
    assert t[0..w] == "@" + name;
    NoAnnotationAfter(t, w);
  }

  /** No `@` from `from` on: nothing more is matched. */
  lemma NoAnnotationAfter(t: string, from: nat)
    requires from <= |t|
    requires forall i :: from <= i < |t| ==> t[i] != '@'
    ensures ScanAnnotations(t, from) == []
  {
    forall k | from <= k <= |t|
      ensures !AnnotationStarts(t)(k)
    {
    }
  }

  // ---------------------------------------------------------------------------
  // Properties (`parse_properties`, after the regex)
  // ---------------------------------------------------------------------------

  /** What the property regex captures: the annotation text, the name and the type
      argument between `<` and `>`, which holds no `>`. */
  datatype PropertyCapture = PropertyCapture(annotations: string, name: string, typeArg: Option<string>)

  /** The type text: the trimmed argument, `String` when there is none. */
  function TypeText(c: PropertyCapture): string {
    match c.typeArg
    case Some(t) => RustTrim(t)
    case None => "String"
  }

  /** The capture can be parsed without a panic. */
  predicate PropertyParsable(c: PropertyCapture) {
    TypeParsable(TypeText(c))
  }

  /** The first annotation that starts with `prefix`, in the order given. */
  function FirstWithPrefix(order: seq<string>, prefix: string): (r: Option<string>)
    ensures r.Some? ==> r.value in order && StartsWith(r.value, prefix)
    ensures r.None? ==> forall i :: 0 <= i < |order| ==> !StartsWith(order[i], prefix)
    decreases |order|
  {
    if |order| == 0 then None
    else if StartsWith(order[0], prefix) then Some(order[0])
    else FirstWithPrefix(order[1..], prefix)
  }

  /** The documentation of a property: the text of its first `@SchemaDoc(`
      annotation, in the order they are written. */
  function PropertyDoc(matches: seq<string>): Option<string> {
    match FirstWithPrefix(matches, "@SchemaDoc(")
    case Some(a) => Some(ExtractDocString(a))
    case None => None
  }

  /** The default type is a plain, non-nullable `String`. */
  lemma StringTypeOf()
    ensures TypeParsable("String")
    ensures ParseTypeInfo("String") == TypeInfo("String", false, false, false)
  {
    PlainTypeOf("String", 0);
    assert "String" + Questions(0) == "String";
  }

  /** A property built from its capture. */
  function PropertyOf(c: PropertyCapture): (r: Property)
    requires PropertyParsable(c)
    ensures r.name == c.name && r.defaultValue == None
    ensures c.typeArg.None? ==> r.typeName == "String" && !r.isNullable
    ensures r.annotations == ParseAnnotations(c.annotations)
    ensures r.doc == PropertyDoc(AnnotationMatches(c.annotations))
    ensures var info := ParseTypeInfo(TypeText(c));
      && r.typeName == info.typeName && r.isNullable == info.isNullable
      && r.isList == info.isList && r.isMap == info.isMap
  {
    var info := ParseTypeInfo(TypeText(c));
    StringTypeOf();
    Property(c.name, info.typeName, PropertyDoc(AnnotationMatches(c.annotations)),
      info.isNullable, info.isList, info.isMap, None, ParseAnnotations(c.annotations))
  }

  /** A property whose annotations open with `@SchemaDoc("doc")` is documented by
      `doc`, whatever annotations follow. */
  lemma DocumentedProperty(c: PropertyCapture, doc: string, rest: string)
    requires PropertyParsable(c) && '"' !in doc && ')' !in doc
    requires c.annotations == SchemaDocWord + "(\"" + doc + "\")" + rest
    ensures PropertyOf(c).doc == Some(doc)
  {
    var a := SchemaDocWord + "(\"" + doc + "\")";
    SchemaDocFirst(doc, rest);
    var m := AnnotationMatches(c.annotations);
    assert StartsWith(m[0], "@SchemaDoc(") by { assert a[..11] == "@SchemaDoc("; }
    assert FirstWithPrefix(m, "@SchemaDoc(") == Some(a);
    SchemaDocText(doc, "");
    assert a + "" == a;
  }

  /** `@SchemaDoc("doc")`, with anything after it, reads back as `doc`. */
  lemma SchemaDocText(doc: string, rest: string)
    requires '"' !in doc
    ensures ExtractDocString(SchemaDocWord + "(\"" + doc + "\")" + rest) == doc
  {
    var t := SchemaDocWord + "(\"" + doc + "\")" + rest;
    assert t[..10] == SchemaDocWord;
    assert t[10] == '(' && t[11] == '"';
    assert t[12..12 + |doc|] == doc;
    assert t[12 + |doc|] == '"';
    DocAtOf(t, 0, doc);
    ExtractDocStringFirst(t, 0);
  }

  /** The first annotation of `@SchemaDoc("doc")` followed by anything is that
      whole annotation: the word, then the parenthesised text up to its `)`. */
  lemma SchemaDocFirst(doc: string, rest: string)
    requires '"' !in doc && ')' !in doc
    ensures var a := SchemaDocWord + "(\"" + doc + "\")";
      var m := AnnotationMatches(a + rest);
      |m| > 0 && m[0] == a
  {
    var a := SchemaDocWord + "(\"" + doc + "\")";
    var t := a + rest;
    var p := |a| - 1;
    assert t[..|a|] == a;
    forall i | 1 <= i < 10
      ensures IsWordChar(t[i])
    {
      assert t[i] == SchemaDocWord[i];
    }
    RunEndIs(t, 1, 10, IsWordChar);
    forall i | 11 <= i < p
      ensures NotCloseParen(t[i])
    {
      assert t[i] == a[i];
      if 12 <= i < 12 + |doc| {
        assert a[i] == doc[i - 12];
      }
    }
    RunEndIs(t, 11, p, NotCloseParen);
    assert AnnotationEnd(t, 0) == Some(|a|);
    assert AnnotationStarts(t)(0);
    assert t[0..|a|] == a;
  }

  /** The type argument the regex captures holds no `>`, so a parsed property is
      never a list or a map. */
  lemma PropertyNeverGeneric(c: PropertyCapture)
    requires PropertyParsable(c)
    requires c.typeArg.Some? ==> '>' !in c.typeArg.value
    ensures !PropertyOf(c).isList && !PropertyOf(c).isMap
  {
    var t := TypeText(c);
    assert '>' !in t by {
      if c.typeArg.Some? {
        TrimmedKeepsOut(c.typeArg.value, '>');
        var u := RustTrim(c.typeArg.value);
        var i, j :| 0 <= i <= j <= |c.typeArg.value| && u == c.typeArg.value[i..j];
        SliceKeepsAll(c.typeArg.value, i, j);
      } else {
        assert t == "String";
      }
    }
    var b := BaseType(t);
    assert '>' !in b by {
      SliceKeepsAll(RustTrim(t), 0, |b|);
      var u := RustTrim(t);
      var i, j :| 0 <= i <= j <= |t| && u == t[i..j];
      SliceKeepsAll(t, i, j);
    }
  }

  /** `parse_properties` as written: the doc is looked up among the stored
      annotations, in the set's iteration order `order`, by the prefix
      `SchemaDoc(`. */
  function PropertyOfAsWritten(c: PropertyCapture, order: seq<string>): (r: Property)
    requires PropertyParsable(c)
    requires Enumerates(order, ParseAnnotationsAsWritten(c.annotations))
    ensures r.name == c.name && r.defaultValue == None
    ensures r.annotations == ParseAnnotationsAsWritten(c.annotations)
  {
    var info := ParseTypeInfo(TypeText(c));
    var doc := match FirstWithPrefix(order, "SchemaDoc(")
      case Some(a) => Some(ExtractDocString(a))
      case None => None;
    Property(c.name, info.typeName, doc, info.isNullable, info.isList, info.isMap, None,
      ParseAnnotationsAsWritten(c.annotations))
  }

  /** Every annotation in `order` starts with `@`. */
  predicate AllMarked(order: seq<string>) {
    forall i :: 0 <= i < |order| ==> |order[i]| > 0 && order[i][0] == '@'
  }

  lemma AsWrittenMarked(s: string, order: seq<string>)
    requires Enumerates(order, ParseAnnotationsAsWritten(s))
    ensures AllMarked(order)
  {
    forall i | 0 <= i < |order|
      ensures |order[i]| > 0 && order[i][0] == '@'
    {
      assert order[i] in ParseAnnotationsAsWritten(s);
    }
  }

  /** A name that does not start with `@` is never among the stored annotations. */
  lemma BareNameNotStored(s: string, name: string)
    requires |name| > 0 && name[0] != '@'
    ensures name !in ParseAnnotationsAsWritten(s)
  {
  }

  /** No stored annotation starts with `SchemaDoc(`. */
  lemma NoDocPrefix(order: seq<string>)
    requires AllMarked(order)
    ensures FirstWithPrefix(order, "SchemaDoc(") == None
  {
    forall i | 0 <= i < |order|
      ensures !StartsWith(order[i], "SchemaDoc(")
    {
      assert order[i][0] == '@';
    }
  }

  /** As written, every stored annotation starts with `@`, so no lookup by bare
      name or by `Tag(` prefix ever matches: no property is hidden, modifier-aware
      or a shorthand, none has platform or product-type values, and none gets a
      doc. */
  lemma AsWrittenLookupsNeverMatch(c: PropertyCapture, order: seq<string>)
    requires PropertyParsable(c)
    requires Enumerates(order, ParseAnnotationsAsWritten(c.annotations))
    ensures var p := PropertyOfAsWritten(c, order);
      && !IsHidden(p) && !IsModifierAware(p) && !IsShorthand(p)
      && p.doc == None
      && GetPlatformSpecific(p, order) == []
      && GetProductTypeSpecific(p, order) == []
  {
    var p := PropertyOfAsWritten(c, order);
    AsWrittenNoMarkers(p, c.annotations);
    AsWrittenMarked(c.annotations, order);
    MarkedNoTags(p, order);
    NoDocPrefix(order);
  }

  lemma AsWrittenNoMarkers(p: Property, s: string)
    requires p.annotations == ParseAnnotationsAsWritten(s)
    ensures !IsHidden(p) && !IsModifierAware(p) && !IsShorthand(p)
  {
    BareNameNotStored(s, "HiddenFromCompletion");
    BareNameNotStored(s, "ModifierAware");
    BareNameNotStored(s, "Shorthand");
  }

  lemma MarkedNoTags(p: Property, order: seq<string>)
    requires Enumerates(order, p.annotations) && AllMarked(order)
    ensures GetPlatformSpecific(p, order) == [] && GetProductTypeSpecific(p, order) == []
  {
    NoTaggedValues(PlatformSpecific, order);
    NoTaggedValues(ProductTypeSpecific, order);
  }

  /** Annotations that start with `@` carry no tag. */
  lemma {:induction false} NoTaggedValues(tag: Tag, order: seq<string>)
    requires AllMarked(order)
    ensures Gather(tag, order) == []
    decreases |order|
  {
    if |order| > 0 {
      var a, name := order[|order| - 1], TagName(tag);
      assert a[0] == '@';
      assert !StartsWith(a, name + "(") by {
        assert (name + "(")[0] == name[0];
      }
      NoTaggedValues(tag, order[..|order| - 1]);
    }
  }

  /** A lone `@name`: stored as written with its `@`, and without it once the
      `@` is dropped. */
  lemma MarkerStored(name: string, rest: string)
    requires |name| > 0 && All(name, IsWordChar)
    requires rest == "" || (!IsWordChar(rest[0]) && rest[0] != '(' && '@' !in rest)
    ensures ParseAnnotationsAsWritten("@" + name + rest) == {"@" + name}
    ensures ParseAnnotations("@" + name + rest) == {name}
  {
    MarkerAnnotation(name, rest);
    var s := "@" + name + rest;
    assert AnnotationMatches(s) == ["@" + name];
    forall a
      ensures a in ParseAnnotations(s) <==> a == name
    {
      if "@" + a == "@" + name {
        assert a == ("@" + a)[1..] == ("@" + name)[1..] == name;
      }
    }
  }

  /** `@HiddenFromCompletion` on a property: stored as written it does not hide
      the property; with the `@` dropped it does. */
  lemma HiddenMarkerFound(c: PropertyCapture, rest: string)
    requires PropertyParsable(c)
    requires c.annotations == "@" + HiddenName + rest
    requires rest == "" || (!IsWordChar(rest[0]) && rest[0] != '(' && '@' !in rest)
    ensures ParseAnnotationsAsWritten(c.annotations) == {"@" + HiddenName}
    ensures IsHidden(PropertyOf(c))
  {
    HiddenNameIsWord();
    MarkerStored(HiddenName, rest);
  }

  const HiddenName := "HiddenFromCompletion"

  lemma HiddenNameIsWord()
    ensures |HiddenName| > 0 && All(HiddenName, IsWordChar)
  {
  }

  // ---------------------------------------------------------------------------
  // Classes (`parse_classes`, after the regex)
  // ---------------------------------------------------------------------------

  /** What the class regex captures: the `@SchemaDoc(…)` text before the class,
      `sealed`, the name, the parent and the properties of the body. */
  datatype ClassCapture = ClassCapture(
    docAnnotation: Option<string>,
    isSealed: bool,
    name: string,
    parent: string,
    properties: seq<PropertyCapture>)

  const KnownParents: seq<string> := ["SchemaNode", "Base", "Dependency", "ScopedDependency", "UnscopedDependency", "BomDependency", "UnscopedBomDependency"]

  predicate Kept(c: ClassCapture) { c.parent in KnownParents }

  /** The properties of a kept class must parse. */
  predicate ClassParsable(c: ClassCapture) {
    Kept(c) ==> forall i :: 0 <= i < |c.properties| ==> PropertyParsable(c.properties[i])
  }

  function PropertiesOf(cs: seq<PropertyCapture>): (r: seq<Property>)
    requires forall i :: 0 <= i < |cs| ==> PropertyParsable(cs[i])
    ensures |r| == |cs|
    ensures forall i :: 0 <= i < |cs| ==> r[i] == PropertyOf(cs[i])
  {
    seq(|cs|, i requires 0 <= i < |cs| => PropertyOf(cs[i]))
  }

  /** The record of a kept class: no parent below `SchemaNode`, and no subclasses
      until the hierarchy is resolved. */
  function ClassOf(c: ClassCapture): (r: ClassDef)
    requires Kept(c) && ClassParsable(c)
    ensures r.name == c.name && r.isSealed == c.isSealed && r.subclasses == []
    ensures r.parent.None? <==> c.parent == "SchemaNode"
    ensures r.parent.Some? ==> r.parent.value == c.parent && r.parent.value in KnownParents
    ensures r.properties == PropertiesOf(c.properties)
    ensures r.doc == if c.docAnnotation.Some? then Some(ExtractDocString(c.docAnnotation.value)) else None
  {
    var doc := match c.docAnnotation
      case Some(a) => Some(ExtractDocString(a))
      case None => None;
    ClassDef(c.name, doc, PropertiesOf(c.properties), c.isSealed,
      if c.parent != "SchemaNode" then Some(c.parent) else None, [])
  }

  /** A class captured with `@SchemaDoc("doc")` before it is documented by `doc`. */
  lemma DocumentedClass(c: ClassCapture, doc: string, space: string)
    requires Kept(c) && ClassParsable(c) && '"' !in doc
    requires c.docAnnotation == Some(SchemaDocWord + "(\"" + doc + "\")" + space)
    ensures ClassOf(c).doc == Some(doc)
  {
    SchemaDocText(doc, space);
  }

  predicate AllParsable(cs: seq<ClassCapture>) {
    forall i :: 0 <= i < |cs| ==> ClassParsable(cs[i])
  }

  /** One capture: a kept class is inserted under its name, replacing an earlier
      one in place. */
  function AddClass(ctx: ParsingContext, c: ClassCapture): ParsingContext
    requires ClassParsable(c)
  {
    if Kept(c) then ctx.(classes := Insert(ctx.classes, c.name, ClassOf(c))) else ctx
  }

  /** A kept class goes in under its own name, so names and keys keep agreeing. */
  lemma AddClassWellKeyed(ctx: ParsingContext, c: ClassCapture)
    requires ClassParsable(c) && WellKeyed(ctx)
    ensures WellKeyed(AddClass(ctx, c))
  {
    if Kept(c) {
      var m := ctx.classes;
      var r := AddClass(ctx, c).classes;
      match FindKey(Keys(m), c.name)
      case Some(i) =>
        assert r == m[i := (c.name, ClassOf(c))];
      case None =>
        assert r == m + [(c.name, ClassOf(c))];
    }
  }

  lemma AddClassDistinct(ctx: ParsingContext, c: ClassCapture)
    requires ClassParsable(c)
    ensures Distinct(Keys(ctx.classes)) ==> Distinct(Keys(AddClass(ctx, c).classes))
  {
    if Kept(c) && Distinct(Keys(ctx.classes)) {
      InsertDistinct(ctx.classes, c.name, ClassOf(c));
    }
  }

  /** `parse_classes` over the captures of one file, in order. */
  function ParseClasses(ctx: ParsingContext, cs: seq<ClassCapture>): (r: ParsingContext)
    requires AllParsable(cs)
    ensures r.enums == ctx.enums
    ensures Distinct(Keys(ctx.classes)) ==> Distinct(Keys(r.classes))
    ensures WellKeyed(ctx) ==> WellKeyed(r)
    decreases |cs|
  {
    if |cs| == 0 then ctx
    else
      var prev := ParseClasses(ctx, cs[..|cs| - 1]);
      var c := cs[|cs| - 1];
      AddClassDistinct(prev, c);
      if WellKeyed(ctx) then AddClassWellKeyed(prev, c); AddClass(prev, c)
      else AddClass(prev, c)
  }

  /** Reference definition: the last kept capture with a given name. */
  function LastKept(cs: seq<ClassCapture>, name: string): (r: Option<ClassCapture>)
    ensures r.Some? ==> Kept(r.value) && r.value.name == name && r.value in cs
    decreases |cs|
  {
    if |cs| == 0 then None
    else if Kept(cs[|cs| - 1]) && cs[|cs| - 1].name == name then Some(cs[|cs| - 1])
    else LastKept(cs[..|cs| - 1], name)
  }

  /** After parsing, a name holds the class of its last kept capture; a name no
      kept capture carries keeps what it held before. */
  lemma {:induction false} ParseClassesGet(ctx: ParsingContext, cs: seq<ClassCapture>, name: string)
    requires AllParsable(cs)
    ensures Get(ParseClasses(ctx, cs).classes, name) ==
      match LastKept(cs, name)
      case Some(c) => Some(ClassOf(c))
      case None => Get(ctx.classes, name)
    decreases |cs|
  {
    if |cs| > 0 {
      var init, c := cs[..|cs| - 1], cs[|cs| - 1];
      assert AllParsable(init);
      ParseClassesGet(ctx, init, name);
      if Kept(c) {
        GetInsert(ParseClasses(ctx, init).classes, c.name, ClassOf(c), name);
      }
    }
  }

  // ---------------------------------------------------------------------------
  // Sealed hierarchies (`resolve_sealed_hierarchies`)
  // ---------------------------------------------------------------------------

  /** The names of the classes whose parent is `parent`, in map order. */
  function ChildrenOf(classes: IndexMap<ClassDef>, parent: string): seq<string>
    decreases |classes|
  {
    if |classes| == 0 then []
    else
      var rest := ChildrenOf(classes[1..], parent);
      if classes[0].1.parent == Some(parent) then [classes[0].0] + rest else rest
  }

  /** Every child listed is the key of a class with that parent. */
  lemma {:induction false} ChildWitness(classes: IndexMap<ClassDef>, parent: string, name: string) returns (k: nat)
    requires name in ChildrenOf(classes, parent)
    ensures k < |classes| && classes[k].0 == name && classes[k].1.parent == Some(parent)
    decreases |classes|
  {
    if classes[0].1.parent == Some(parent) && classes[0].0 == name {
      k := 0;
    } else {
      assert name in ChildrenOf(classes[1..], parent);
      var j := ChildWitness(classes[1..], parent, name);
      k := j + 1;
    }
  }

  /** Every class with that parent is listed, after the ones before it. */
  lemma {:induction false} ChildListed(classes: IndexMap<ClassDef>, parent: string, i: nat)
    requires i < |classes| && classes[i].1.parent == Some(parent)
    ensures classes[i].0 in ChildrenOf(classes, parent)
    ensures ChildrenOf(classes, parent) == ChildrenOf(classes[..i], parent) + [classes[i].0] + ChildrenOf(classes[i + 1..], parent)
    decreases |classes|
  {
    if i > 0 {
      ChildListed(classes[1..], parent, i - 1);
      assert classes[1..][..i - 1] == classes[1..i];
      assert classes[1..][i..] == classes[i + 1..];
      assert classes[..i][1..] == classes[1..i];
    } else {
      assert classes[..0] == [];
    }
  }

  /** Only keys and parents decide the children. */
  lemma {:induction false} ChildrenOfSameParents(a: IndexMap<ClassDef>, b: IndexMap<ClassDef>, parent: string)
    requires |a| == |b|
    requires forall i :: 0 <= i < |a| ==> a[i].0 == b[i].0 && a[i].1.parent == b[i].1.parent
    ensures ChildrenOf(a, parent) == ChildrenOf(b, parent)
    decreases |a|
  {
    if |a| > 0 {
      ChildrenOfSameParents(a[1..], b[1..], parent);
    }
  }

  /** The names of the sealed classes, in map order. */
  function SealedNames(classes: IndexMap<ClassDef>): seq<string>
    decreases |classes|
  {
    if |classes| == 0 then []
    else
      var rest := SealedNames(classes[1..]);
      if classes[0].1.isSealed then [classes[0].0] + rest else rest
  }

  /** Every listed name is the key of a sealed class. */
  lemma {:induction false} SealedWitness(classes: IndexMap<ClassDef>, name: string) returns (k: nat)
    requires name in SealedNames(classes)
    ensures k < |classes| && classes[k].0 == name && classes[k].1.isSealed
    decreases |classes|
  {
    if classes[0].1.isSealed && classes[0].0 == name {
      k := 0;
    } else {
      assert name in SealedNames(classes[1..]);
      var j := SealedWitness(classes[1..], name);
      k := j + 1;
    }
  }

  /** Every sealed class is listed. */
  lemma {:induction false} SealedListed(classes: IndexMap<ClassDef>, i: nat)
    requires i < |classes| && classes[i].1.isSealed
    ensures classes[i].0 in SealedNames(classes)
    decreases |classes|
  {
    if i > 0 {
      SealedListed(classes[1..], i - 1);
    }
  }

  /** What an entry becomes: a sealed class gets the children of its key. */
  function ResolvedEntry(classes: IndexMap<ClassDef>, i: nat): ClassDef
    requires i < |classes|
  {
    if classes[i].1.isSealed then classes[i].1.(subclasses := ChildrenOf(classes, classes[i].0))
    else classes[i].1
  }

  /** `classes` is `original` with the entries whose key is in `names` resolved. */
  predicate ResolvedFor(original: IndexMap<ClassDef>, classes: IndexMap<ClassDef>, names: seq<string>) {
    && |classes| == |original|
    && forall i :: 0 <= i < |original| ==> EntryResolvedFor(original, classes, names, i)
  }

  predicate EntryResolvedFor(original: IndexMap<ClassDef>, classes: IndexMap<ClassDef>, names: seq<string>, i: nat)
    requires i < |original| == |classes|
  {
    classes[i] == (original[i].0, if original[i].0 in names then ResolvedEntry(original, i) else original[i].1)
  }

  /** `resolve_sealed_hierarchies`: every sealed class is given, as subclasses, the
      names of the classes whose parent it is, in map order; nothing else changes.
      Map keys are unique, as in an `IndexMap`. */
  method ResolveSealedHierarchies(ctx: ParsingContext) returns (r: ParsingContext)
    requires Distinct(Keys(ctx.classes))
    ensures r.enums == ctx.enums
    ensures Keys(r.classes) == Keys(ctx.classes)
    ensures forall i :: 0 <= i < |ctx.classes| ==> r.classes[i].1 == ResolvedEntry(ctx.classes, i)
    ensures WellKeyed(ctx) ==> WellKeyed(r)
  {
    var original := ctx.classes;
    var sealed := SealedNames(original);
    var classes := original;
    var n := 0;
    assert sealed[..0] == [];
    while n < |sealed|
      invariant n <= |sealed|
      invariant ResolvedFor(original, classes, sealed[..n])
    {
      var name := sealed[n];
      assert name in SealedNames(original);
      var k := SealedWitness(original, name);
      ResolvedKeys(original, classes, sealed[..n]);
      assert Keys(classes)[k] == name;
      var i := FindKey(Keys(classes), name).value;
      SameKey(original, i, k);
      ResolveStep(original, classes, sealed[..n], i);
      assert sealed[..n + 1] == sealed[..n] + [name];
      classes := classes[i := (name, classes[i].1.(subclasses := ChildrenOf(classes, name)))];
      n := n + 1;
    }
    assert sealed[..n] == sealed;
    KeysOnce(original);
    SealedNamesExact(original);
    ResolvedAll(original, classes, sealed);
    r := ctx.(classes := classes);
    if WellKeyed(ctx) {
      forall i | 0 <= i < |r.classes|
        ensures r.classes[i].1.name == r.classes[i].0
      {
        assert Keys(r.classes)[i] == Keys(ctx.classes)[i];
      }
    }
  }

  /** A partly resolved map keeps the keys of the original. */
  lemma ResolvedKeys(original: IndexMap<ClassDef>, classes: IndexMap<ClassDef>, done: seq<string>)
    requires ResolvedFor(original, classes, done)
    ensures Keys(classes) == Keys(original)
  {
    forall j | 0 <= j < |original|
      ensures classes[j].0 == original[j].0
    {
      assert EntryResolvedFor(original, classes, done, j);
    }
  }

  /** One turn of the loop: resolving the sealed entry `i` adds its key to the
      names done. */
  lemma ResolveStep(original: IndexMap<ClassDef>, classes: IndexMap<ClassDef>, done: seq<string>, i: nat)
    requires Distinct(Keys(original)) && i < |original| && original[i].1.isSealed
    requires ResolvedFor(original, classes, done)
    ensures ResolvedFor(original, classes[i := (original[i].0, classes[i].1.(subclasses := ChildrenOf(classes, original[i].0)))], done + [original[i].0])
  {
    var name := original[i].0;
    ResolvedKeys(original, classes, done);
    forall j | 0 <= j < |original|
      ensures classes[j].0 == original[j].0 && classes[j].1.parent == original[j].1.parent
    {
      assert EntryResolvedFor(original, classes, done, j);
    }
    ChildrenOfSameParents(classes, original, name);
    var next := classes[i := (name, classes[i].1.(subclasses := ChildrenOf(classes, name)))];
    forall j | 0 <= j < |original|
      ensures EntryResolvedFor(original, next, done + [name], j)
    {
      assert EntryResolvedFor(original, classes, done, j);
      if j != i {
        assert Keys(original)[j] != Keys(original)[i];
      }
    }
  }

  /** Once every sealed name is done, each entry is resolved. */
  lemma ResolvedAll(original: IndexMap<ClassDef>, classes: IndexMap<ClassDef>, names: seq<string>)
    requires forall i :: 0 <= i < |original| ==> (original[i].0 in names <==> original[i].1.isSealed)
    requires ResolvedFor(original, classes, names)
    ensures Keys(classes) == Keys(original)
    ensures forall i :: 0 <= i < |original| ==> classes[i].1 == ResolvedEntry(original, i)
  {
    ResolvedKeys(original, classes, names);
    forall i | 0 <= i < |original|
      ensures classes[i].1 == ResolvedEntry(original, i)
    {
      assert EntryResolvedFor(original, classes, names, i);
    }
  }

  /** No other entry has the key of entry `i`. */
  predicate KeyOnce(m: IndexMap<ClassDef>, i: nat)
    requires i < |m|
  {
    forall k :: 0 <= k < |m| && m[k].0 == m[i].0 ==> k == i
  }

  lemma KeysOnce(m: IndexMap<ClassDef>)
    requires Distinct(Keys(m))
    ensures forall i :: 0 <= i < |m| ==> KeyOnce(m, i)
  {
    forall i, k | 0 <= i < |m| && 0 <= k < |m| && m[k].0 == m[i].0
      ensures k == i
    {
      SameKey(m, i, k);
    }
  }

  /** With unique keys, the sealed names are the keys of the sealed classes. */
  lemma SealedNamesExact(original: IndexMap<ClassDef>)
    requires forall i :: 0 <= i < |original| ==> KeyOnce(original, i)
    ensures forall i :: 0 <= i < |original| ==> (original[i].0 in SealedNames(original) <==> original[i].1.isSealed)
  {
    forall i | 0 <= i < |original|
      ensures original[i].0 in SealedNames(original) <==> original[i].1.isSealed
    {
      ListedIffSealed(original, i);
    }
  }

  /** A class whose key is unique is listed as sealed exactly when it is sealed. */
  lemma ListedIffSealed(original: IndexMap<ClassDef>, i: nat)
    requires i < |original| && KeyOnce(original, i)
    ensures original[i].0 in SealedNames(original) <==> original[i].1.isSealed
  {
    if original[i].0 in SealedNames(original) {
      var k := SealedWitness(original, original[i].0);
    }
    if original[i].1.isSealed {
      SealedListed(original, i);
    }
  }

  /** Keys are unique: two entries with the same key are one. */
  lemma SameKey<V>(m: IndexMap<V>, i: nat, k: nat)
    requires Distinct(Keys(m)) && i < |m| && k < |m| && m[i].0 == m[k].0
    ensures i == k
  {
    var keys := Keys(m);
    assert keys[i] == keys[k];
  }
}
