/** The records the schema extractor builds from Kotlin sources, and the annotation
    lookups on a property. Annotations are kept as a set of strings; where the
    extractor iterates that set, the iteration order is a parameter. */
module SchemaTypes {
  import opened Wrappers
  import opened Text
  import opened Seqs
  import opened IndexMaps

  datatype Property = Property(
    name: string,
    typeName: string,
    doc: Option<string>,
    isNullable: bool,
    isList: bool,
    isMap: bool,
    defaultValue: Option<string>,
    annotations: set<string>)

  datatype ClassDef = ClassDef(
    name: string,
    doc: Option<string>,
    properties: seq<Property>,
    isSealed: bool,
    parent: Option<string>,
    subclasses: seq<string>)

  datatype EnumEntry = EnumEntry(name: string, schemaValue: string, doc: Option<string>, isOutdated: bool)

  datatype EnumDef = EnumDef(name: string, doc: Option<string>, entries: seq<EnumEntry>, isOrderSensitive: bool)

  /** Every class and enum discovered, by name, in discovery order. */
  datatype ParsingContext = ParsingContext(classes: IndexMap<ClassDef>, enums: IndexMap<EnumDef>)

  /** Every class is stored under its own name. */
  predicate WellKeyed(ctx: ParsingContext) {
    forall i :: 0 <= i < |ctx.classes| ==> ctx.classes[i].1.name == ctx.classes[i].0
  }

  // ---------------------------------------------------------------------------
  // Marker annotations
  // ---------------------------------------------------------------------------

  /** `has_annotation`: exact membership. */
  predicate HasAnnotation(p: Property, annotation: string) {
    annotation in p.annotations
  }

  predicate IsHidden(p: Property) { HasAnnotation(p, "HiddenFromCompletion") }

  predicate IsShorthand(p: Property) { HasAnnotation(p, "Shorthand") }

  predicate IsModifierAware(p: Property) { HasAnnotation(p, "ModifierAware") }

  // ---------------------------------------------------------------------------
  // Annotation arguments
  // ---------------------------------------------------------------------------

  /** Slicing from the first `(` to the last `)` needs the `)` after the `(`; the
      slice panics otherwise. */
  predicate Sliceable(annotation: string) {
    match (IndexOfChar(annotation, '('), LastIndexOfChar(annotation, ')'))
    case (Some(start), Some(end)) => start < end
    case _ => true
  }

  /** What an argument looks like once read: non-empty, no comma, nothing to trim
      at either end. */
  predicate IsArgument(v: string) {
    |v| > 0 && ',' !in v && !IsRustSpace(v[0]) && !IsRustSpace(v[|v| - 1])
  }

  /** One argument: trimmed, dropped when empty. */
  function TrimmedArgument(s: string): (r: Option<string>)
    ensures r.Some? ==> |r.value| > 0 && !IsRustSpace(r.value[0]) && !IsRustSpace(r.value[|r.value| - 1])
  {
    var t := RustTrim(s);
    if t == "" then None else Some(t)
  }

  /** The arguments written between the parentheses: split on commas, each piece
      trimmed, empty pieces dropped. */
  function Arguments(content: string): (r: seq<string>)
    ensures forall i :: 0 <= i < |r| ==> IsArgument(r[i])
  {
    var pieces := Split(content, ',');
    var r := FilterMap(TrimmedArgument, pieces);
    TrimmedArguments(pieces, r);
    r
  }

  lemma TrimmedArguments(pieces: seq<string>, r: seq<string>)
    requires forall i :: 0 <= i < |pieces| ==> ',' !in pieces[i]
    requires r == FilterMap(TrimmedArgument, pieces)
    ensures forall i :: 0 <= i < |r| ==> IsArgument(r[i])
  {
    forall i | 0 <= i < |r|
      ensures IsArgument(r[i])
    {
      var j :| 0 <= j < |pieces| && TrimmedArgument(pieces[j]) == Some(r[i]);
      OneArgument(pieces[j], r[i]);
    }
  }

  lemma OneArgument(piece: string, v: string)
    requires ',' !in piece && TrimmedArgument(piece) == Some(v)
    ensures IsArgument(v)
  {
    TrimmedKeepsOut(piece, ',');
  }

  /** Trimming cannot bring in a character. */
  lemma TrimmedKeepsOut(s: string, c: char)
    requires c !in s
    ensures TrimmedArgument(s).Some? ==> c !in TrimmedArgument(s).value
  {
    var t := RustTrim(s);
    var i, j :| 0 <= i <= j <= |s| && t == s[i..j];
    SliceKeepsAll(s, i, j);
  }

  /** `extract_annotation_values`: the arguments between the first `(` and the last
      `)`; nothing when either parenthesis is missing. */
  function ExtractAnnotationValues(annotation: string): (r: seq<string>)
    requires Sliceable(annotation)
    ensures '(' !in annotation || ')' !in annotation ==> r == []
    ensures forall i :: 0 <= i < |r| ==> IsArgument(r[i])
  {
    match (IndexOfChar(annotation, '('), LastIndexOfChar(annotation, ')'))
    case (Some(start), Some(end)) => Arguments(annotation[start + 1..end])
    case _ => []
  }

  /** Arguments written with commas between them are read back, one value each. */
  lemma ArgumentsOfJoin(values: seq<string>)
    requires |values| > 0
    requires forall i :: 0 <= i < |values| ==> IsArgument(values[i])
    ensures Arguments(Join(values, ",")) == values
  {
    SplitJoin(values, ',');
    TrimmedIdentity(values);
  }

  /** The parentheses of `name(content)` are found around `content`. */
  lemma ParenthesesAround(name: string, content: string, a: string)
    requires '(' !in name && a == name + "(" + content + ")"
    ensures IndexOfChar(a, '(') == Some(|name|)
    ensures LastIndexOfChar(a, ')') == Some(|a| - 1)
  {
    assert a[..|name|] == name;
    IndexOfCharIs(a, '(', |name|);
    LastIndexOfCharIs(a, ')', |a| - 1);
  }

  /** An annotation written as `name(v1,v2,...)` gives back its values. */
  lemma ExtractAnnotationValuesOf(name: string, values: seq<string>)
    requires '(' !in name
    requires |values| > 0
    requires forall i :: 0 <= i < |values| ==> IsArgument(values[i])
    ensures Sliceable(name + "(" + Join(values, ",") + ")")
    ensures ExtractAnnotationValues(name + "(" + Join(values, ",") + ")") == values
  {
    ArgumentsInParentheses(name, Join(values, ","));
    ArgumentsOfJoin(values);
  }

  /** The values of `name(content)` are the arguments of `content`. */
  lemma ArgumentsInParentheses(name: string, content: string)
    requires '(' !in name
    ensures Sliceable(name + "(" + content + ")")
    ensures ExtractAnnotationValues(name + "(" + content + ")") == Arguments(content)
  {
    var a := name + "(" + content + ")";
    ParenthesesAround(name, content, a);
    assert a[|name| + 1..|name| + |content| + 1] == content;
  }

  /** An argument is its own trimmed form. */
  lemma ArgumentTrimmed(v: string)
    requires IsArgument(v)
    ensures TrimmedArgument(v) == Some(v)
  {
    TrimOfTrimmed(v, IsRustSpace);
  }

  /** Values that are already arguments pass through unchanged. */
  lemma TrimmedIdentity(values: seq<string>)
    requires forall i :: 0 <= i < |values| ==> IsArgument(values[i])
    ensures FilterMap(TrimmedArgument, values) == values
  {
    forall i | 0 <= i < |values|
      ensures TrimmedArgument(values[i]) == Some(values[i])
    {
      ArgumentTrimmed(values[i]);
    }
    FilterMapIdentity(TrimmedArgument, values);
  }

  /** Commas, blanks and empty arguments leave no value behind. */
  lemma EmptyArgumentsDropped()
    ensures Sliceable("A( , ,)") && ExtractAnnotationValues("A( , ,)") == []
  {
    ParenthesesAround("A", " , ,", "A( , ,)");
    assert "A( , ,)" == "A" + "(" + " , ," + ")";
    assert "A( , ,)"[2..6] == " , ,";
    BlankArguments();
  }

  lemma BlankArguments()
    ensures Arguments(" , ,") == []
  {
    SplitNoSeparator(" ", ',');
    SplitNoSeparator("", ',');
    SplitAround(" ", "", ',');
    SplitAround(" ", " " + [','] + "", ',');
    assert " , ," == " " + [','] + (" " + [','] + "");
    var pieces := Split(" , ,", ',');
    assert pieces == [" ", " ", ""];
    BlankDropped();
    assert pieces[1..] == [" ", ""] && pieces[2..] == [""] && pieces[3..] == [];
  }

  lemma BlankDropped()
    ensures TrimmedArgument(" ") == None && TrimmedArgument("") == None
  {
    assert IsRustSpace(' ');
  }

  // ---------------------------------------------------------------------------
  // Platform- and product-type-specific values
  // ---------------------------------------------------------------------------

  /** `order` lists the members of `s`, each once: one possible iteration order of
      a hash set. */
  ghost predicate Enumerates(order: seq<string>, s: set<string>) {
    Distinct(order) && (forall x :: x in order <==> x in s)
  }

  /** Annotations that open with `tag(` can always be sliced, since the tag holds no
      parenthesis. */
  lemma TaggedSliceable(a: string, tag: string)
    requires '(' !in tag && ')' !in tag
    requires StartsWith(a, tag + "(")
    ensures Sliceable(a)
  {
    var n := |tag|;
    assert a[n] == '(';
    assert forall k :: 0 <= k < n ==> a[k] == tag[k];
    assert IndexOfChar(a, '(') == Some(n);
    match LastIndexOfChar(a, ')')
    case Some(end) =>
      assert a[end] == ')';
      assert end > n;
    case None =>
  }

  /** The two annotations that carry values. */
  datatype Tag = PlatformSpecific | ProductTypeSpecific

  function TagName(tag: Tag): (r: string)
    ensures |r| > 0 && r[0] != '@' && '(' !in r && ')' !in r
  {
    match tag
    case PlatformSpecific => "PlatformSpecific"
    case ProductTypeSpecific => "ProductTypeSpecific"
  }

  /** The values of one annotation when it opens with the tag's name and `(`, else
      nothing. */
  function TaggedValues(tag: Tag, a: string): seq<string> {
    var name := TagName(tag);
    if StartsWith(a, name + "(") then
      TaggedSliceable(a, name);
      ExtractAnnotationValues(a)
    else []
  }

  /** The values of every annotation carrying `tag`, visited in `order`. */
  function Gather(tag: Tag, order: seq<string>): seq<string> {
    FlatMap(a => TaggedValues(tag, a), order)
  }

  /** `get_platform_specific`, with the set visited in `order`. */
  function GetPlatformSpecific(p: Property, order: seq<string>): (r: seq<string>)
    requires Enumerates(order, p.annotations)
    ensures forall v :: v in r <==> exists a :: a in p.annotations && v in TaggedValues(PlatformSpecific, a)
  {
    GatherMembers(PlatformSpecific, order);
    Gather(PlatformSpecific, order)
  }

  /** `get_product_type_specific`, with the set visited in `order`. */
  function GetProductTypeSpecific(p: Property, order: seq<string>): (r: seq<string>)
    requires Enumerates(order, p.annotations)
    ensures forall v :: v in r <==> exists a :: a in p.annotations && v in TaggedValues(ProductTypeSpecific, a)
  {
    GatherMembers(ProductTypeSpecific, order);
    Gather(ProductTypeSpecific, order)
  }

  /** The gathered values are exactly those of the visited annotations. */
  lemma GatherMembers(tag: Tag, order: seq<string>)
    ensures forall v :: v in Gather(tag, order) <==> exists a :: a in order && v in TaggedValues(tag, a)
  {
    forall v
      ensures v in Gather(tag, order) <==> exists a :: a in order && v in TaggedValues(tag, a)
    {
      FlatMapMember(a => TaggedValues(tag, a), order, v);
    }
  }

  /** However the set is iterated, the same values come out, each as many times:
      only the order can differ. */
  lemma GatherOrderFree(tag: Tag, o1: seq<string>, o2: seq<string>)
    requires Distinct(o1) && Distinct(o2) && (forall x :: x in o1 <==> x in o2)
    ensures multiset(Gather(tag, o1)) == multiset(Gather(tag, o2))
  {
    FlatMapOrderFree(a => TaggedValues(tag, a), o1, o2);
  }

  /** The platform values of a property do not depend on the iteration order, as
      a multiset. */
  lemma PlatformSpecificOrderFree(p: Property, o1: seq<string>, o2: seq<string>)
    requires Enumerates(o1, p.annotations) && Enumerates(o2, p.annotations)
    ensures multiset(GetPlatformSpecific(p, o1)) == multiset(GetPlatformSpecific(p, o2))
  {
    GatherOrderFree(PlatformSpecific, o1, o2);
  }

  /** Likewise for the product-type values. */
  lemma ProductTypeSpecificOrderFree(p: Property, o1: seq<string>, o2: seq<string>)
    requires Enumerates(o1, p.annotations) && Enumerates(o2, p.annotations)
    ensures multiset(GetProductTypeSpecific(p, o1)) == multiset(GetProductTypeSpecific(p, o2))
  {
    GatherOrderFree(ProductTypeSpecific, o1, o2);
  }
}
