/** The JSON values the schema generator emits and the parts of it that do not
    recurse: `short_doc`, the primitive and enum schemas, the list and map
    wrappers of a property schema, the merge of parent properties and the
    assembly of a class definition from the schemas of its properties. */
module JsonSchema {
  import opened Wrappers
  import opened Text
  import opened Seqs
  import opened IndexMaps
  import opened SchemaTypes

  /** A JSON value, objects keeping their keys in insertion order. */
  datatype Json = JBool(b: bool) | JString(s: string) | JArray(items: seq<Json>) | JObject(fields: IndexMap<Json>)

  /** The value under `key` when `j` is an object. */
  function Field(j: Json, key: string): Option<Json> {
    if j.JObject? then Get(j.fields, key) else None
  }

  /** `as_object_mut` followed by `insert`: only objects change. */
  function With(j: Json, key: string, v: Json): (r: Json)
    ensures j.JObject? ==> r.JObject?
  {
    if j.JObject? then JObject(Insert(j.fields, key, v)) else j
  }

  /** An insert sets its key and leaves every other field alone. */
  lemma FieldWith(j: Json, key: string, v: Json, q: string)
    requires j.JObject?
    ensures Field(With(j, key, v), q) == if q == key then Some(v) else Field(j, q)
  {
    GetInsert(j.fields, key, v, q);
  }

  function RefTo(name: string): Json {
    JObject([("$ref", JString("#/$defs/" + name))])
  }

  function TypeOnly(t: string): Json {
    JObject([("type", JString(t))])
  }

  /** A list of strings as a JSON array. */
  function StringArray(xs: seq<string>): (r: seq<Json>)
    ensures |r| == |xs|
    ensures forall i :: 0 <= i < |xs| ==> r[i] == JString(xs[i])
    decreases |xs|
  {
    if |xs| == 0 then [] else [JString(xs[0])] + StringArray(xs[1..])
  }

  // ---------------------------------------------------------------------------
  // Short documentation (`short_doc`)
  // ---------------------------------------------------------------------------

  const ReadMore := "[Read more]"

  /** `str::replace(pat, "")`: occurrences are removed left to right, without
      overlapping. */
  function RemoveAll(s: string, pat: string): (r: string)
    requires |pat| > 0
    ensures |r| <= |s|
    decreases |s|
  {
    if |s| == 0 then ""
    else if OccursAt(s, pat, 0) then RemoveAll(s[|pat|..], pat)
    else [s[0]] + RemoveAll(s[1..], pat)
  }

  /** An occurrence in the tail is an occurrence one position further on. */
  lemma OccursInTail(s: string, pat: string, i: nat)
    requires |s| > 0
    ensures OccursAt(s[1..], pat, i) <==> OccursAt(s, pat, i + 1)
  {
    if i + |pat| <= |s[1..]| {
      var t := s[1..][i..i + |pat|];
      var u := s[i + 1..i + 1 + |pat|];
      assert |t| == |u|;
      assert forall k :: 0 <= k < |t| ==> t[k] == u[k];
      assert t == u;
    }
  }

  /** Text without the pattern is left as it is. */
  lemma {:induction false} RemoveAllAbsent(s: string, pat: string)
    requires |pat| > 0
    requires forall i :: 0 <= i <= |s| ==> !OccursAt(s, pat, i)
    ensures RemoveAll(s, pat) == s
    decreases |s|
  {
    if |s| > 0 {
      forall i | 0 <= i <= |s[1..]|
        ensures !OccursAt(s[1..], pat, i)
      {
        assert !OccursAt(s, pat, i + 1);
        OccursInTail(s, pat, i);
      }
      RemoveAllAbsent(s[1..], pat);
      assert !OccursAt(s, pat, 0);
      assert RemoveAll(s, pat) == [s[0]] + RemoveAll(s[1..], pat);
      assert [s[0]] + s[1..] == s;
    }
  }

  /** Each occurrence is dropped: `a` free of the pattern, then the pattern,
      leaves `a` followed by what the rest gives. */
  lemma {:induction false} RemoveAllAround(a: string, pat: string, b: string)
    requires |pat| > 0
    requires forall i :: 0 <= i < |a| ==> !OccursAt(a + pat + b, pat, i)
    ensures RemoveAll(a + pat + b, pat) == a + RemoveAll(b, pat)
    decreases |a|
  {
    var s := a + pat + b;
    if |a| == 0 {
      assert s == pat + b;
      assert s[..|pat|] == pat;
      assert s[|pat|..] == b;
    } else {
      assert s[1..] == a[1..] + pat + b;
      forall i | 0 <= i < |a[1..]|
        ensures !OccursAt(a[1..] + pat + b, pat, i)
      {
        assert !OccursAt(s, pat, i + 1);
        OccursInTail(s, pat, i);
      }
      RemoveAllAround(a[1..], pat, b);
      assert !OccursAt(s, pat, 0);
      assert RemoveAll(s, pat) == [a[0]] + RemoveAll(a[1..] + pat + b, pat);
      assert [a[0]] + (a[1..] + RemoveAll(b, pat)) == a + RemoveAll(b, pat);
    }
  }

  predicate IsParen(c: char) { c == '(' || c == ')' }

  predicate IsDot(c: char) { c == '.' }

  /** `str::replace` with a character predicate and an empty replacement: every
      parenthesis is dropped, every other character kept. */
  function RemoveParens(s: string): (r: string)
    ensures '(' !in r && ')' !in r
    ensures forall c :: !IsParen(c) ==> multiset(r)[c] == multiset(s)[c]
    decreases |s|
  {
    if |s| == 0 then ""
    else
      var rest := RemoveParens(s[1..]);
      assert s == [s[0]] + s[1..];
      if IsParen(s[0]) then rest else [s[0]] + rest
  }

  /** `short_doc`: the title shown for a documented property. */
  function ShortDoc(doc: string): (r: string)
    ensures '(' !in r && ')' !in r
    ensures |r| > 0 ==> r[|r| - 1] != '.' && !IsRustSpace(r[0])
  {
    var plain := RemoveParens(RemoveAll(doc, ReadMore));
    TrimmedTitle(plain);
    TrimEnd(RustTrim(plain), IsDot)
  }

  /** Trimming, then dropping trailing dots, keeps text free of parentheses. */
  lemma TrimmedTitle(plain: string)
    requires '(' !in plain && ')' !in plain
    ensures var r := TrimEnd(RustTrim(plain), IsDot);
      && '(' !in r && ')' !in r
      && (|r| > 0 ==> !IsRustSpace(r[0]))
  {
    var trimmed := RustTrim(plain);
    var r := TrimEnd(trimmed, IsDot);
    var i, j :| 0 <= i <= j <= |plain| && trimmed == plain[i..j];
    SliceKeepsAll(plain, i, j);
    SliceKeepsAll(trimmed, 0, |r|);
    assert |r| > 0 ==> r[0] == trimmed[0];
  }

  /** A doc that is already short is its own title. */
  lemma ShortDocOfShort(doc: string)
    requires forall i :: 0 <= i <= |doc| ==> !OccursAt(doc, ReadMore, i)
    requires '(' !in doc && ')' !in doc
    requires |doc| > 0 ==> !IsRustSpace(doc[0]) && !IsRustSpace(doc[|doc| - 1]) && doc[|doc| - 1] != '.'
    ensures ShortDoc(doc) == doc
  {
    RemoveAllAbsent(doc, ReadMore);
    ParenFree(doc);
    TrimOfTrimmed(doc, IsRustSpace);
  }

  /** Text without parentheses passes through `RemoveParens` unchanged. */
  lemma {:induction false} ParenFree(s: string)
    requires '(' !in s && ')' !in s
    ensures RemoveParens(s) == s
    decreases |s|
  {
    if |s| > 0 {
      var t := s[1..];
      assert s == [s[0]] + t;
      assert !IsParen(s[0]) && '(' !in t && ')' !in t;
      ParenFree(t);
      assert RemoveParens(s) == [s[0]] + RemoveParens(t);
    }
  }

  // ---------------------------------------------------------------------------
  // Primitive and enum schemas
  // ---------------------------------------------------------------------------

  /** The JSON type of the Kotlin types the table names. */
  function PrimitiveType(t: string): Option<string> {
    if t == "String" || t == "TraceableString" then Some("string")
    else if t == "Int" || t == "Integer" then Some("integer")
    else if t == "Boolean" then Some("boolean")
    else if t == "Path" || t == "TraceablePath" then Some("string")
    else if t == "Double" || t == "Float" then Some("number")
    else None
  }

  /** The schema of a type that is neither an enum nor a class nor a traceable
      enum: a table entry, or a string described by its type name. */
  function ScalarSchema(t: string): (r: Json)
    ensures r.JObject?
    ensures t == "Int" || t == "Integer" ==> Field(r, "type") == Some(JString("integer"))
    ensures t == "Boolean" ==> Field(r, "type") == Some(JString("boolean"))
    ensures t == "Double" || t == "Float" ==> Field(r, "type") == Some(JString("number"))
    ensures t !in {"Int", "Integer", "Boolean", "Double", "Float"} ==> Field(r, "type") == Some(JString("string"))
    ensures PrimitiveType(t).None? <==> Field(r, "description") == Some(JString("Type: " + t))
    ensures PrimitiveType(t).Some? ==> Keys(r.fields) == ["type"]
    ensures PrimitiveType(t).None? ==> Keys(r.fields) == ["type", "description"]
  {
    match PrimitiveType(t)
    case Some(jt) =>
      assert Keys([("type", JString(jt))]) == ["type"];
      TypeOnly(jt)
    case None =>
      var fields := [("type", JString("string")), ("description", JString("Type: " + t))];
      assert Keys(fields) == ["type", "description"];
      JObject(fields)
  }

  const TraceablePrefix := "TraceableEnum<"

  /** `strip_prefix("TraceableEnum<")` then `strip_suffix('>')`. */
  function TraceableInner(t: string): Option<string> {
    if StartsWith(t, TraceablePrefix) && EndsWith(t[|TraceablePrefix|..], ">") then
      Some(t[|TraceablePrefix|..|t| - 1])
    else None
  }

  /** Stripping undoes wrapping, and only wrapped names strip. */
  lemma TraceableInnerIff(t: string, e: string)
    ensures TraceableInner(t) == Some(e) <==> t == TraceablePrefix + e + ">"
  {
    var w := TraceablePrefix + e + ">";
    if t == w {
      assert t[..|TraceablePrefix|] == TraceablePrefix;
      assert t[|TraceablePrefix|..] == e + ">";
    }
    if TraceableInner(t) == Some(e) {
      assert t == t[..|TraceablePrefix|] + t[|TraceablePrefix|..|t| - 1] + [t[|t| - 1]];
    }
  }

  /** The schema value an entry contributes: none when it is outdated. */
  function KeptValue(e: EnumEntry): Option<string> {
    if e.isOutdated then None else Some(e.schemaValue)
  }

  /** The documentation an entry contributes to the enum metadata. */
  function KeptDoc(e: EnumEntry): Option<(string, Json)> {
    if !e.isOutdated && e.doc.Some? then Some((e.schemaValue, JString(e.doc.value))) else None
  }

  function EnumValues(entries: seq<EnumEntry>): seq<string> {
    FilterMap(KeptValue, entries)
  }

  function EnumMetadata(entries: seq<EnumEntry>): IndexMap<Json> {
    FromPairs(FilterMap(KeptDoc, entries))
  }

  /** `build_enum_schema`. */
  function EnumSchema(e: EnumDef): (r: Json)
    ensures r.JObject?
  {
    var base := JObject([("enum", JArray(StringArray(EnumValues(e.entries))))]);
    var meta := EnumMetadata(e.entries);
    var withMeta := if meta != [] then With(base, "x-intellij-enum-metadata", JObject(meta)) else base;
    if e.isOrderSensitive then With(withMeta, "x-intellij-enum-order-sensitive", JBool(true)) else withMeta
  }

  /** The values listed are exactly those of the entries that are not outdated. */
  lemma EnumValuesExact(entries: seq<EnumEntry>, v: string)
    ensures v in EnumValues(entries) <==> exists i :: 0 <= i < |entries| && !entries[i].isOutdated && entries[i].schemaValue == v
  {
    if v in EnumValues(entries) {
      var j :| 0 <= j < |EnumValues(entries)| && EnumValues(entries)[j] == v;
      var i :| 0 <= i < |entries| && KeptValue(entries[i]) == Some(v);
    }
    if exists i :: 0 <= i < |entries| && !entries[i].isOutdated && entries[i].schemaValue == v {
      var i :| 0 <= i < |entries| && !entries[i].isOutdated && entries[i].schemaValue == v;
      FilterMapKeeps(KeptValue, entries, i);
    }
  }

  /** The values keep the order of the entries. */
  lemma EnumValuesAppend(entries: seq<EnumEntry>, e: EnumEntry)
    ensures EnumValues(entries + [e]) == EnumValues(entries) + (if e.isOutdated then [] else [e.schemaValue])
  {
    FilterMapAppend(KeptValue, entries, [e]);
    assert [e][1..] == [];
  }

  /** The enum schema lists the values, carries metadata exactly when some kept
      entry is documented, and is flagged order-sensitive exactly when the enum
      is. */
  lemma EnumSchemaFields(e: EnumDef)
    ensures Field(EnumSchema(e), "enum") == Some(JArray(StringArray(EnumValues(e.entries))))
    ensures Field(EnumSchema(e), "x-intellij-enum-order-sensitive") == if e.isOrderSensitive then Some(JBool(true)) else None
    ensures Field(EnumSchema(e), "x-intellij-enum-metadata").Some? <==> FilterMap(KeptDoc, e.entries) != []
  {
    var base := JObject([("enum", JArray(StringArray(EnumValues(e.entries))))]);
    var pairs := FilterMap(KeptDoc, e.entries);
    var meta := EnumMetadata(e.entries);
    var withMeta := if meta != [] then With(base, "x-intellij-enum-metadata", JObject(meta)) else base;
    MetadataNonEmpty(pairs);
    FieldWith(base, "x-intellij-enum-metadata", JObject(meta), "enum");
    FieldWith(base, "x-intellij-enum-metadata", JObject(meta), "x-intellij-enum-metadata");
    FieldWith(base, "x-intellij-enum-metadata", JObject(meta), "x-intellij-enum-order-sensitive");
    FieldWith(withMeta, "x-intellij-enum-order-sensitive", JBool(true), "enum");
    FieldWith(withMeta, "x-intellij-enum-order-sensitive", JBool(true), "x-intellij-enum-metadata");
    FieldWith(withMeta, "x-intellij-enum-order-sensitive", JBool(true), "x-intellij-enum-order-sensitive");
  }

  lemma MetadataNonEmpty(pairs: seq<(string, Json)>)
    ensures FromPairs(pairs) != [] <==> pairs != []
  {
    if pairs != [] {
      FromPairsKeys(pairs, pairs[0].0);
      assert Keys(pairs)[0] == pairs[0].0;
    }
  }

  /** A documented, kept value is described by the doc of its last such entry. */
  lemma EnumMetadataGet(entries: seq<EnumEntry>, v: string)
    ensures Get(EnumMetadata(entries), v) == LastFor(FilterMap(KeptDoc, entries), v)
  {
    GetFromPairs(FilterMap(KeptDoc, entries), v);
  }

  // ---------------------------------------------------------------------------
  // Property schemas (`build_property_schema`, around the element schema)
  // ---------------------------------------------------------------------------

  /** The key pattern of the objects a map property lists. */
  const MapKeyPattern := "^[^@+:]+$"

  /** A list is an array of unique elements; a map is an array of unique
      one-entry objects whose key matches `MapKeyPattern`. */
  function Wrapped(p: Property, base: Json): (r: Json)
    ensures p.isList || p.isMap ==> Field(r, "type") == Some(JString("array")) && Field(r, "uniqueItems") == Some(JBool(true))
  {
    if p.isList then
      var fields := [("type", JString("array")), ("items", base), ("uniqueItems", JBool(true))];
      assert Keys(fields) == ["type", "items", "uniqueItems"];
      JObject(fields)
    else if p.isMap then
      var fields := [("type", JString("array")), ("items", MapItems(base)), ("uniqueItems", JBool(true))];
      assert Keys(fields) == ["type", "items", "uniqueItems"];
      JObject(fields)
    else base
  }

  function MapItems(base: Json): Json {
    JObject([("type", JString("object")), ("patternProperties", JObject([(MapKeyPattern, base)]))])
  }

  /** The element schema a property schema holds: the items of a list, the
      pattern value of a map's items, the schema itself otherwise. */
  function ElementSchema(p: Property, s: Json): Option<Json> {
    if p.isList then Field(s, "items")
    else if p.isMap then
      match Field(s, "items")
      case Some(items) =>
        (match Field(items, "patternProperties")
         case Some(pp) => Field(pp, MapKeyPattern)
         case None => None)
      case None => None
    else Some(s)
  }

  /** Unwrapping undoes wrapping. */
  lemma ElementOfWrapped(p: Property, base: Json)
    ensures ElementSchema(p, Wrapped(p, base)) == Some(base)
  {
    if p.isList || p.isMap {
      assert Keys(Wrapped(p, base).fields) == ["type", "items", "uniqueItems"];
    }
    if !p.isList && p.isMap {
      var items := MapItems(base);
      assert Keys(items.fields) == ["type", "patternProperties"];
      assert Keys([(MapKeyPattern, base)]) == [MapKeyPattern];
    }
  }

  /** The description and the short title of a documented property. */
  function Documented(p: Property, s: Json): Json {
    match p.doc
    case Some(d) => With(With(s, "description", JString(d)), "title", JString(ShortDoc(d)))
    case None => s
  }

  /** The `x-intellij-metadata` object: the platform and product-type values
      that are present. */
  function Metadata(platforms: seq<string>, productTypes: seq<string>): IndexMap<Json> {
    var m := if |platforms| > 0 then Insert([], "platforms", JArray(StringArray(platforms))) else [];
    if |productTypes| > 0 then Insert(m, "productTypes", JArray(StringArray(productTypes))) else m
  }

  /** `build_property_schema`, given the schema of the element type and the
      iteration order of the property's annotation set. */
  function PropertySchema(p: Property, base: Json, order: seq<string>): Json
    requires Enumerates(order, p.annotations)
  {
    var s := Documented(p, Wrapped(p, base));
    var platforms := GetPlatformSpecific(p, order);
    var productTypes := GetProductTypeSpecific(p, order);
    if |platforms| > 0 || |productTypes| > 0 then
      With(s, "x-intellij-metadata", JObject(Metadata(platforms, productTypes)))
    else s
  }

  /** The doc and the metadata never touch the wrapper: a list or map property's
      schema is an array of unique items holding the element schema. */
  lemma PropertySchemaWraps(p: Property, base: Json, order: seq<string>)
    requires Enumerates(order, p.annotations)
    requires p.isList || p.isMap
    ensures var r := PropertySchema(p, base, order);
      && Field(r, "type") == Some(JString("array"))
      && Field(r, "uniqueItems") == Some(JBool(true))
      && ElementSchema(p, r) == Some(base)
  {
    var w := Wrapped(p, base);
    ElementOfWrapped(p, base);
    var s := Documented(p, w);
    DocumentedKeeps(p, w, "items");
    DocumentedKeeps(p, w, "type");
    DocumentedKeeps(p, w, "uniqueItems");
    var m := JObject(Metadata(GetPlatformSpecific(p, order), GetProductTypeSpecific(p, order)));
    FieldWith(s, "x-intellij-metadata", m, "items");
    FieldWith(s, "x-intellij-metadata", m, "type");
    FieldWith(s, "x-intellij-metadata", m, "uniqueItems");
  }

  /** The doc only sets `description` and `title`. */
  lemma DocumentedKeeps(p: Property, s: Json, key: string)
    requires s.JObject? && key != "description" && key != "title"
    ensures Documented(p, s).JObject?
    ensures Field(Documented(p, s), key) == Field(s, key)
  {
    if p.doc.Some? {
      var d := p.doc.value;
      FieldWith(s, "description", JString(d), key);
      FieldWith(With(s, "description", JString(d)), "title", JString(ShortDoc(d)), key);
    }
  }

  /** A documented property is described by its doc and titled by its short
      doc; metadata appears exactly when it has platform or product-type
      values. */
  lemma PropertySchemaDoc(p: Property, base: Json, order: seq<string>)
    requires Enumerates(order, p.annotations)
    requires base.JObject? && Field(base, "x-intellij-metadata").None?
    ensures var r := PropertySchema(p, base, order);
      && (p.doc.Some? ==>
            Field(r, "description") == Some(JString(p.doc.value)) && Field(r, "title") == Some(JString(ShortDoc(p.doc.value))))
      && (Field(r, "x-intellij-metadata").Some? <==> GetPlatformSpecific(p, order) != [] || GetProductTypeSpecific(p, order) != [])
  {
    var w := Wrapped(p, base);
    var s := Documented(p, w);
    if p.doc.Some? {
      var d := p.doc.value;
      var s1 := With(w, "description", JString(d));
      FieldWith(w, "description", JString(d), "description");
      FieldWith(s1, "title", JString(ShortDoc(d)), "description");
      FieldWith(s1, "title", JString(ShortDoc(d)), "title");
    }
    assert Field(w, "x-intellij-metadata") == None by {
      if p.isList || p.isMap {
        assert Keys(w.fields) == ["type", "items", "uniqueItems"];
      }
    }
    DocumentedKeeps(p, w, "x-intellij-metadata");
    var m := JObject(Metadata(GetPlatformSpecific(p, order), GetProductTypeSpecific(p, order)));
    FieldWith(s, "x-intellij-metadata", m, "description");
    FieldWith(s, "x-intellij-metadata", m, "title");
    FieldWith(s, "x-intellij-metadata", m, "x-intellij-metadata");
  }

  // ---------------------------------------------------------------------------
  // Merging parent properties
  // ---------------------------------------------------------------------------

  function Names(props: seq<Property>): (r: seq<string>)
    ensures |r| == |props|
    ensures forall i :: 0 <= i < |props| ==> r[i] == props[i].name
    decreases |props|
  {
    if |props| == 0 then [] else Names(props[..|props| - 1]) + [props[|props| - 1].name]
  }

  lemma NamesAppend(props: seq<Property>, p: Property)
    ensures Names(props + [p]) == Names(props) + [p.name]
  {
    assert (props + [p])[..|props|] == props;
  }

  /** The class's own properties first, then each inherited property whose name is
      not taken yet, in the parent's order. */
  function MergeProperties(own: seq<Property>, inherited: seq<Property>): seq<Property>
    decreases |inherited|
  {
    if |inherited| == 0 then own
    else
      var prev := MergeProperties(own, inherited[..|inherited| - 1]);
      var p := inherited[|inherited| - 1];
      if p.name in Names(prev) then prev else prev + [p]
  }

  /** The own properties come first and unchanged; every property after them is
      inherited and named unlike every own property. */
  lemma {:induction false} MergeShape(own: seq<Property>, inherited: seq<Property>)
    ensures var r := MergeProperties(own, inherited);
      && own <= r
      && (forall i :: |own| <= i < |r| ==> r[i] in inherited && r[i].name !in Names(own))
    decreases |inherited|
  {
    if |inherited| > 0 {
      var n := |inherited|;
      var init := inherited[..n - 1];
      MergeShape(own, init);
      assert forall x :: x in init ==> x in inherited;
    }
  }

  /** Every inherited name is present after the merge. */
  lemma MergeCovers(own: seq<Property>, inherited: seq<Property>)
    ensures forall i :: 0 <= i < |inherited| ==> inherited[i].name in Names(MergeProperties(own, inherited))
  {
    forall i | 0 <= i < |inherited|
      ensures inherited[i].name in Names(MergeProperties(own, inherited))
    {
      MergeHasName(own, inherited, i);
    }
  }

  /** The name of the inherited property at `i` is present after the merge. */
  lemma {:induction false} MergeHasName(own: seq<Property>, inherited: seq<Property>, i: nat)
    requires i < |inherited|
    ensures inherited[i].name in Names(MergeProperties(own, inherited))
    decreases |inherited|
  {
    if i == |inherited| - 1 {
      MergeStepAdds(own, inherited);
    } else {
      var init := inherited[..|inherited| - 1];
      var x := inherited[i].name;
      assert x in Names(MergeProperties(own, init)) by {
        MergeHasName(own, init, i);
        assert init[i] == inherited[i];
      }
      MergeStepKeeps(own, inherited, x);
    }
  }

  /** Merging one more inherited property keeps every name already present. */
  lemma MergeStepKeeps(own: seq<Property>, inherited: seq<Property>, x: string)
    requires |inherited| > 0
    requires x in Names(MergeProperties(own, inherited[..|inherited| - 1]))
    ensures x in Names(MergeProperties(own, inherited))
  {
    var prev := MergeProperties(own, inherited[..|inherited| - 1]);
    NamesAppend(prev, inherited[|inherited| - 1]);
  }

  /** Merging one more inherited property leaves its name present. */
  lemma MergeStepAdds(own: seq<Property>, inherited: seq<Property>)
    requires |inherited| > 0
    ensures inherited[|inherited| - 1].name in Names(MergeProperties(own, inherited))
  {
    var prev := MergeProperties(own, inherited[..|inherited| - 1]);
    NamesAppend(prev, inherited[|inherited| - 1]);
  }

  /** With unique own names, the merged properties have unique names. */
  lemma {:induction false} MergeUniqueNames(own: seq<Property>, inherited: seq<Property>)
    requires Distinct(Names(own))
    ensures Distinct(Names(MergeProperties(own, inherited)))
    decreases |inherited|
  {
    if |inherited| > 0 {
      var n := |inherited|;
      var prev := MergeProperties(own, inherited[..n - 1]);
      MergeUniqueNames(own, inherited[..n - 1]);
      NamesAppend(prev, inherited[n - 1]);
    }
  }

  /** The properties a class inherits: those of its parent, when the parent is
      known. Only one level is merged. */
  function InheritedProperties(ctx: ParsingContext, c: ClassDef): seq<Property> {
    match c.parent
    case Some(name) =>
      (match Get(ctx.classes, name)
       case Some(parent) => parent.properties
       case None => [])
    case None => []
  }

  // ---------------------------------------------------------------------------
  // Class definitions (`build_class_definition`, after the property schemas)
  // ---------------------------------------------------------------------------

  function VisibleProp(p: Property): Option<Property> {
    if IsHidden(p) then None else Some(p)
  }

  /** The properties that are not hidden, in order. */
  function Visible(all: seq<Property>): seq<Property> {
    FilterMap(VisibleProp, all)
  }

  lemma VisibleExact(all: seq<Property>, p: Property)
    ensures p in Visible(all) <==> p in all && !IsHidden(p)
  {
    if p in Visible(all) {
      var j :| 0 <= j < |Visible(all)| && Visible(all)[j] == p;
      var i :| 0 <= i < |all| && VisibleProp(all[i]) == Some(p);
    }
    if p in all && !IsHidden(p) {
      var i :| 0 <= i < |all| && all[i] == p;
      FilterMapKeeps(VisibleProp, all, i);
    }
  }

  function RequiredName(p: Property): Option<string> {
    if !p.isNullable && p.defaultValue.None? then Some(p.name) else None
  }

  /** The names of the properties that are neither nullable nor defaulted. */
  function RequiredNames(vis: seq<Property>): seq<string> {
    FilterMap(RequiredName, vis)
  }

  lemma RequiredNamesExact(vis: seq<Property>, n: string)
    ensures n in RequiredNames(vis) <==> exists i :: 0 <= i < |vis| && RequiredName(vis[i]) == Some(n)
  {
    if n in RequiredNames(vis) {
      var j :| 0 <= j < |RequiredNames(vis)| && RequiredNames(vis)[j] == n;
    }
    if exists i :: 0 <= i < |vis| && RequiredName(vis[i]) == Some(n) {
      var i :| 0 <= i < |vis| && RequiredName(vis[i]) == Some(n);
      FilterMapKeeps(RequiredName, vis, i);
    }
  }

  /** The `patternProperties` key of a modifier-aware property: the name,
      optionally prefixed by `test-` unless it already is, optionally followed by
      `@` and a qualifier. */
  function ModifierPattern(name: string): string {
    if StartsWith(name, "test-") then "^" + name + "(@.+)?$" else "^(test-)?" + name + "(@.+)?$"
  }

  /** Different names never share a pattern. */
  lemma ModifierPatternInjective(a: string, b: string)
    requires ModifierPattern(a) == ModifierPattern(b)
    ensures a == b
  {
    var pa, pb := ModifierPattern(a), ModifierPattern(b);
    var sfx := "(@.+)?$";
    PatternForm(a);
    PatternForm(b);
    if StartsWith(a, "test-") == StartsWith(b, "test-") {
      var pre := if StartsWith(a, "test-") then "^" else "^(test-)?";
      assert pa == pre + a + sfx && pb == pre + b + sfx;
      assert a == pa[|pre|..|pa| - |sfx|];
      assert b == pb[|pre|..|pb| - |sfx|];
    }
  }

  /** The second character of a pattern tells which form it has. */
  lemma PatternForm(name: string)
    ensures ModifierPattern(name)[1] == if StartsWith(name, "test-") then 't' else '('
  {
    if StartsWith(name, "test-") {
      assert ModifierPattern(name)[1] == name[0];
    }
  }

  /** The entries of `properties`: each visible property's name with its schema. */
  function PropertyPairs(vis: seq<Property>, schemas: seq<Json>): (r: seq<(string, Json)>)
    requires |vis| == |schemas|
    ensures Keys(r) == Names(vis)
    decreases |vis|
  {
    if |vis| == 0 then []
    else
      var n := |vis|;
      var r := PropertyPairs(vis[..n - 1], schemas[..n - 1]) + [(vis[n - 1].name, schemas[n - 1])];
      assert Keys(r) == Keys(r[..n - 1]) + [vis[n - 1].name];
      assert r[..n - 1] == PropertyPairs(vis[..n - 1], schemas[..n - 1]);
      r
  }

  /** The entries of `patternProperties`: each visible modifier-aware property's
      pattern with its schema. */
  function PatternPairs(vis: seq<Property>, schemas: seq<Json>): (r: seq<(string, Json)>)
    requires |vis| == |schemas|
    ensures forall k :: k in Keys(r) <==> exists i :: 0 <= i < |vis| && IsModifierAware(vis[i]) && k == ModifierPattern(vis[i].name)
    decreases |vis|
  {
    if |vis| == 0 then []
    else
      var n := |vis|;
      var prev := PatternPairs(vis[..n - 1], schemas[..n - 1]);
      assert forall i :: 0 <= i < n - 1 ==> vis[..n - 1][i] == vis[i];
      if IsModifierAware(vis[n - 1]) then
        var r := prev + [(ModifierPattern(vis[n - 1].name), schemas[n - 1])];
        assert Keys(r) == Keys(prev) + [ModifierPattern(vis[n - 1].name)];
        r
      else prev
  }

  /** `properties`: each visible property's name with its schema. */
  function PropertiesMap(all: seq<Property>, schemas: seq<Json>): IndexMap<Json>
    requires |schemas| == |Visible(all)|
  {
    FromPairs(PropertyPairs(Visible(all), schemas))
  }

  /** `patternProperties`: each visible modifier-aware property's pattern with
      its schema. */
  function PatternsMap(all: seq<Property>, schemas: seq<Json>): IndexMap<Json>
    requires |schemas| == |Visible(all)|
  {
    FromPairs(PatternPairs(Visible(all), schemas))
  }

  /** Inserts only when `cond` holds. */
  function WithIf(cond: bool, j: Json, key: string, v: Json): (r: Json)
    ensures j.JObject? ==> r.JObject?
  {
    if cond then With(j, key, v) else j
  }

  lemma FieldWithIf(cond: bool, j: Json, key: string, v: Json, q: string)
    requires j.JObject?
    ensures Field(WithIf(cond, j, key, v), q) == if cond && q == key then Some(v) else Field(j, q)
  {
    if cond {
      FieldWith(j, key, v, q);
    }
  }

  const ClosedObject := JObject([("type", JString("object")), ("additionalProperties", JBool(false))])

  /** The definition of a class that is not a sealed parent, given the schemas
      of its visible properties. `all` counts hidden properties too. */
  function ClassObject(c: ClassDef, all: seq<Property>, schemas: seq<Json>): Json
    requires |schemas| == |Visible(all)|
  {
    var fields := ClassFields(ClosedObject, PropertiesMap(all, schemas), PatternsMap(all, schemas), RequiredNames(Visible(all)), |all|);
    WithIf(c.doc.Some?, fields, "title", JString(c.doc.GetOr("")))
  }

  /** The definition before its title: the maps that are not empty, and the
      required names when some but not all of the `total` properties are
      required. */
  function ClassFields(o0: Json, props: IndexMap<Json>, patterns: IndexMap<Json>, required: seq<string>, total: nat): (r: Json)
    requires o0.JObject?
    ensures r.JObject?
  {
    var o1 := WithIf(props != [], o0, "properties", JObject(props));
    var o2 := WithIf(patterns != [], o1, "patternProperties", JObject(patterns));
    WithIf(|required| > 0 && |required| < total, o2, "required", JArray(StringArray(required)))
  }

  lemma ClassFieldsField(o0: Json, props: IndexMap<Json>, patterns: IndexMap<Json>, required: seq<string>, total: nat, q: string)
    requires o0.JObject?
    ensures Field(ClassFields(o0, props, patterns, required, total), q) ==
        if q == "required" && 0 < |required| < total then Some(JArray(StringArray(required)))
        else if q == "patternProperties" && patterns != [] then Some(JObject(patterns))
        else if q == "properties" && props != [] then Some(JObject(props))
        else Field(o0, q)
  {
    var o1 := WithIf(props != [], o0, "properties", JObject(props));
    var o2 := WithIf(patterns != [], o1, "patternProperties", JObject(patterns));
    FieldWithIf(props != [], o0, "properties", JObject(props), q);
    FieldWithIf(patterns != [], o1, "patternProperties", JObject(patterns), q);
    FieldWithIf(|required| > 0 && |required| < total, o2, "required", JArray(StringArray(required)), q);
  }

  lemma ClosedObjectField(q: string)
    ensures Field(ClosedObject, q) ==
      if q == "type" then Some(JString("object"))
      else if q == "additionalProperties" then Some(JBool(false))
      else None
  {
    assert Keys(ClosedObject.fields) == ["type", "additionalProperties"];
  }

  /** Each field of a class definition: set by the step that inserts it, when
      that step's condition holds, and otherwise absent. */
  lemma ClassObjectField(c: ClassDef, all: seq<Property>, schemas: seq<Json>, q: string)
    requires |schemas| == |Visible(all)|
    ensures var props := PropertiesMap(all, schemas);
      var patterns := PatternsMap(all, schemas);
      var required := RequiredNames(Visible(all));
      Field(ClassObject(c, all, schemas), q) ==
        if q == "title" then (if c.doc.Some? then Some(JString(c.doc.value)) else None)
        else if q == "required" then (if 0 < |required| < |all| then Some(JArray(StringArray(required))) else None)
        else if q == "patternProperties" then (if patterns != [] then Some(JObject(patterns)) else None)
        else if q == "properties" then (if props != [] then Some(JObject(props)) else None)
        else if q == "type" then Some(JString("object"))
        else if q == "additionalProperties" then Some(JBool(false))
        else None
  {
    var fields := ClassFields(ClosedObject, PropertiesMap(all, schemas), PatternsMap(all, schemas), RequiredNames(Visible(all)), |all|);
    ClassFieldsField(ClosedObject, PropertiesMap(all, schemas), PatternsMap(all, schemas), RequiredNames(Visible(all)), |all|, q);
    ClosedObjectField(q);
    FieldWithIf(c.doc.Some?, fields, "title", JString(c.doc.GetOr("")), q);
  }

  /** `properties` holds one entry per name of a visible property, and appears
      exactly when some property is visible. */
  lemma ClassObjectProperties(c: ClassDef, all: seq<Property>, schemas: seq<Json>, n: string)
    requires |schemas| == |Visible(all)|
    ensures var f := Field(ClassObject(c, all, schemas), "properties");
      && (f.Some? <==> Visible(all) != [])
      && (f.Some? ==> f.value.JObject? && (n in Keys(f.value.fields) <==> n in Names(Visible(all))))
  {
    var pairs := PropertyPairs(Visible(all), schemas);
    ClassObjectField(c, all, schemas, "properties");
    MetadataNonEmpty(pairs);
    FromPairsKeys(pairs, n);
  }

  /** `patternProperties` holds the pattern of every visible modifier-aware
      property and nothing else. */
  lemma ClassObjectPatterns(c: ClassDef, all: seq<Property>, schemas: seq<Json>, n: string)
    requires |schemas| == |Visible(all)|
    ensures var f := Field(ClassObject(c, all, schemas), "patternProperties");
      var vis := Visible(all);
      && (f.Some? <==> exists i :: 0 <= i < |vis| && IsModifierAware(vis[i]))
      && (f.Some? ==> f.value.JObject?)
      && (f.Some? ==>
            (ModifierPattern(n) in Keys(f.value.fields) <==> exists i :: 0 <= i < |vis| && IsModifierAware(vis[i]) && vis[i].name == n))
  {
    var vis := Visible(all);
    var pairs := PatternPairs(vis, schemas);
    ClassObjectField(c, all, schemas, "patternProperties");
    MetadataNonEmpty(pairs);
    FromPairsKeys(pairs, ModifierPattern(n));
    PatternKeys(vis, schemas, n);
  }

  /** A pattern is present exactly for the names of the modifier-aware
      properties, and some pattern is present exactly when one of them is. */
  lemma PatternKeys(vis: seq<Property>, schemas: seq<Json>, n: string)
    requires |vis| == |schemas|
    ensures var pairs := PatternPairs(vis, schemas);
      && (pairs != [] <==> exists i :: 0 <= i < |vis| && IsModifierAware(vis[i]))
      && (ModifierPattern(n) in Keys(pairs) <==> exists i :: 0 <= i < |vis| && IsModifierAware(vis[i]) && vis[i].name == n)
  {
    var pairs := PatternPairs(vis, schemas);
    if exists i :: 0 <= i < |vis| && IsModifierAware(vis[i]) {
      var i :| 0 <= i < |vis| && IsModifierAware(vis[i]);
      assert ModifierPattern(vis[i].name) in Keys(pairs);
    }
    if pairs != [] {
      assert Keys(pairs)[0] in Keys(pairs);
    }
    if ModifierPattern(n) in Keys(pairs) {
      var i :| 0 <= i < |vis| && IsModifierAware(vis[i]) && ModifierPattern(n) == ModifierPattern(vis[i].name);
      ModifierPatternInjective(n, vis[i].name);
    }
  }

  /** A name is listed among the visible properties exactly when some property
      of that name is not hidden. */
  lemma VisibleNames(all: seq<Property>, n: string)
    ensures n in Names(Visible(all)) <==> exists i :: 0 <= i < |all| && all[i].name == n && !IsHidden(all[i])
  {
    var vis := Visible(all);
    if n in Names(vis) {
      var j :| 0 <= j < |vis| && Names(vis)[j] == n;
      VisibleExact(all, vis[j]);
      var i :| 0 <= i < |all| && all[i] == vis[j];
    }
    if exists i :: 0 <= i < |all| && all[i].name == n && !IsHidden(all[i]) {
      var i :| 0 <= i < |all| && all[i].name == n && !IsHidden(all[i]);
      VisibleExact(all, all[i]);
      var j :| 0 <= j < |vis| && vis[j] == all[i];
      assert Names(vis)[j] == n;
    }
  }
}
