/** `SchemaBuilder`: the recursive part of the schema generator. Building a class
    definition builds, first, the definitions of the classes it refers to (its
    variants, or the classes its properties are typed by); a class enters
    `$defs` only once all of those are done.

    A class that refers back to itself, directly or through others, before it
    is defined makes the generator recurse without end (it overflows its stack).
    The model keeps the classes being built in `stack` and answers `None` at the
    first such re-entry; on a context whose class names equal their keys, as the
    parser produces, `None` is exactly the case where the generator does not
    return. */
module SchemaBuilder {
  import opened Wrappers
  import opened Seqs
  import opened IndexMaps
  import opened SchemaTypes
  import opened JsonSchema

  /** The iteration order of each annotation set, which a hash set leaves open. */
  type Order = set<string> -> seq<string>

  ghost predicate IsOrder(order: Order) {
    forall s :: Enumerates(order(s), s)
  }

  function ClassKeys(ctx: ParsingContext): set<string> {
    set k | k in Keys(ctx.classes)
  }

  /** Entering a class not yet on the stack leaves fewer classes to enter. */
  lemma BudgetShrinks(ctx: ParsingContext, stack: set<string>, k: string)
    requires k in Keys(ctx.classes) && k !in stack
    ensures |ClassKeys(ctx) - (stack + {k})| < |ClassKeys(ctx) - stack|
  {
    var a := ClassKeys(ctx) - stack;
    assert k in a;
    assert ClassKeys(ctx) - (stack + {k}) == a - {k};
  }

  /** Inserting the name of a class that was not defined at the start keeps the
      definitions there were at the start. */
  lemma InsertKeepsPrefix(defs: IndexMap<Json>, d: IndexMap<Json>, k: string, v: Json)
    requires defs <= d && k !in Keys(defs)
    ensures defs <= Insert(d, k, v)
  {
    if k in Keys(d) {
      var i := FindKey(Keys(d), k).value;
      if i < |defs| {
        assert Keys(defs)[i] == d[i].0 == k;
      }
    }
  }

  /** The reference to each variant that is a known class, in order. */
  function VariantRefs(ctx: ParsingContext, subs: seq<string>): seq<Json>
    decreases |subs|
  {
    if |subs| == 0 then []
    else if subs[0] in Keys(ctx.classes) then [RefTo(subs[0])] + VariantRefs(ctx, subs[1..])
    else VariantRefs(ctx, subs[1..])
  }

  /** `build_class_definition` for the class stored under `k`. */
  function BuildClass(ctx: ParsingContext, order: Order, stack: set<string>, defs: IndexMap<Json>, k: string): (r: Option<IndexMap<Json>>)
    requires IsOrder(order) && k in Keys(ctx.classes)
    ensures Get(ctx.classes, k).value.name in Keys(defs) ==> r == Some(defs)
    ensures r.Some? ==> Get(ctx.classes, k).value.name in Keys(r.value) && defs <= r.value
    decreases |ClassKeys(ctx) - stack|, 0, 0
  {
    var c := Get(ctx.classes, k).value;
    if c.name in Keys(defs) then Some(defs)
    else if k in stack then None
    else
      BudgetShrinks(ctx, stack, k);
      if c.isSealed && |c.subclasses| > 0 then
        match BuildVariants(ctx, order, stack + {k}, defs, c.subclasses)
        case None => None
        case Some((variants, d)) =>
          InsertKeepsPrefix(defs, d, c.name, JObject([("anyOf", JArray(variants))]));
          Some(Insert(d, c.name, JObject([("anyOf", JArray(variants))])))
      else
        var all := MergeProperties(c.properties, InheritedProperties(ctx, c));
        match BuildProperties(ctx, order, stack + {k}, defs, Visible(all))
        case None => None
        case Some((schemas, d)) =>
          InsertKeepsPrefix(defs, d, c.name, ClassObject(c, all, schemas));
          Some(Insert(d, c.name, ClassObject(c, all, schemas)))
  }

  /** The `anyOf` list of a sealed class: each variant that is a known class is
      built, then referred to. */
  function BuildVariants(ctx: ParsingContext, order: Order, stack: set<string>, defs: IndexMap<Json>, subs: seq<string>): (r: Option<(seq<Json>, IndexMap<Json>)>)
    requires IsOrder(order)
    ensures r.Some? ==> r.value.0 == VariantRefs(ctx, subs) && defs <= r.value.1
    decreases |ClassKeys(ctx) - stack|, 1, |subs|
  {
    if |subs| == 0 then Some(([], defs))
    else if subs[0] in Keys(ctx.classes) then
      match BuildClass(ctx, order, stack, defs, subs[0])
      case None => None
      case Some(d) =>
        match BuildVariants(ctx, order, stack, d, subs[1..])
        case None => None
        case Some((rest, d2)) => Some(([RefTo(subs[0])] + rest, d2))
    else BuildVariants(ctx, order, stack, defs, subs[1..])
  }

  /** The schemas of the visible properties, in order. */
  function BuildProperties(ctx: ParsingContext, order: Order, stack: set<string>, defs: IndexMap<Json>, vis: seq<Property>): (r: Option<(seq<Json>, IndexMap<Json>)>)
    requires IsOrder(order)
    ensures r.Some? ==> |r.value.0| == |vis| && defs <= r.value.1
    decreases |ClassKeys(ctx) - stack|, 3, |vis|
  {
    if |vis| == 0 then Some(([], defs))
    else
      match BuildPropertySchema(ctx, order, stack, defs, vis[0])
      case None => None
      case Some((s, d)) =>
        match BuildProperties(ctx, order, stack, d, vis[1..])
        case None => None
        case Some((rest, d2)) => Some(([s] + rest, d2))
  }

  /** `build_property_schema`. */
  function BuildPropertySchema(ctx: ParsingContext, order: Order, stack: set<string>, defs: IndexMap<Json>, p: Property): (r: Option<(Json, IndexMap<Json>)>)
    requires IsOrder(order)
    ensures r.Some? ==> defs <= r.value.1
    decreases |ClassKeys(ctx) - stack|, 2, 0
  {
    match BuildTypeSchema(ctx, order, stack, defs, p.typeName)
    case None => None
    case Some((base, d)) => Some((PropertySchema(p, base, order(p.annotations)), d))
  }

  /** `build_type_schema`: an enum first, then a class, then a traceable enum,
      then the scalar table. */
  function BuildTypeSchema(ctx: ParsingContext, order: Order, stack: set<string>, defs: IndexMap<Json>, t: string): (r: Option<(Json, IndexMap<Json>)>)
    requires IsOrder(order)
    ensures r.Some? ==> defs <= r.value.1 && r.value.0.JObject?
    ensures r.Some? && Get(ctx.enums, t).None? && t in Keys(ctx.classes) ==>
      r.value.0 == RefTo(t) && Get(ctx.classes, t).value.name in Keys(r.value.1)
    ensures Get(ctx.enums, t).Some? || t !in Keys(ctx.classes) ==> r.Some? && r.value.1 == defs
    ensures Get(ctx.enums, t).Some? ==> r == Some((EnumSchema(Get(ctx.enums, t).value), defs))
    ensures Get(ctx.enums, t).None? && t !in Keys(ctx.classes) && TraceableInner(t).Some? && Get(ctx.enums, TraceableInner(t).value).Some? ==>
      r == Some((EnumSchema(Get(ctx.enums, TraceableInner(t).value).value), defs))
    ensures Get(ctx.enums, t).None? && t !in Keys(ctx.classes) && (TraceableInner(t).None? || Get(ctx.enums, TraceableInner(t).value).None?) ==>
      r == Some((ScalarSchema(t), defs))
    decreases |ClassKeys(ctx) - stack|, 1, 0
  {
    match Get(ctx.enums, t)
    case Some(e) => Some((EnumSchema(e), defs))
    case None =>
      if t in Keys(ctx.classes) then
        match BuildClass(ctx, order, stack, defs, t)
        case None => None
        case Some(d) => Some((RefTo(t), d))
      else
        match TraceableInner(t)
        case Some(inner) =>
          (match Get(ctx.enums, inner)
           case Some(e) => Some((EnumSchema(e), defs))
           case None => Some((ScalarSchema(t), defs)))
        case None => Some((ScalarSchema(t), defs))
  }

  /** In a well-keyed context a class found under a key carries that name. */
  lemma KeyedName(ctx: ParsingContext, k: string)
    requires WellKeyed(ctx) && k in Keys(ctx.classes)
    ensures Get(ctx.classes, k).value.name == k
  {
    var i :| 0 <= i < |ctx.classes| && ctx.classes[i] == (k, Get(ctx.classes, k).value);
  }

  const SchemaDialect := "https://json-schema.org/draft/2020-12/schema"

  /** The document around the definitions: it refers to the root class and carries
      every definition under `$defs`. */
  function RootSchema(root: string, defs: IndexMap<Json>): Json {
    JObject([
      ("$schema", JString(SchemaDialect)),
      ("$id", JString(root + ".json")),
      ("title", JString(root + " schema")),
      ("type", JString("object")),
      ("allOf", JArray([RefTo(root)])),
      ("$defs", JObject(defs))])
  }

  /** `build`: an unknown root is an error; otherwise the root class is built from
      an empty `$defs`. `None` when the generator does not return. */
  function Build(ctx: ParsingContext, order: Order, root: string): (r: Option<Result<Json, string>>)
    requires IsOrder(order)
    ensures root !in Keys(ctx.classes) <==> r == Some(Failure("Root type '" + root + "' not found"))
    ensures r.Some? && r.value.Success? ==>
      var j := r.value.value;
      && Field(j, "allOf") == Some(JArray([RefTo(root)]))
      && Field(j, "$defs").Some? && Field(j, "$defs").value.JObject?
      && Get(ctx.classes, root).value.name in Keys(Field(j, "$defs").value.fields)
  {
    if root !in Keys(ctx.classes) then Some(Failure("Root type '" + root + "' not found"))
    else
      match BuildClass(ctx, order, {}, [], root)
      case None => None
      case Some(defs) =>
        RootFields(root, defs);
        Some(Success(RootSchema(root, defs)))
  }

  lemma RootFields(root: string, defs: IndexMap<Json>)
    ensures Field(RootSchema(root, defs), "allOf") == Some(JArray([RefTo(root)]))
    ensures Field(RootSchema(root, defs), "$defs") == Some(JObject(defs))
  {
    var keys := Keys(RootSchema(root, defs).fields);
    assert keys == ["$schema", "$id", "title", "type", "allOf", "$defs"];
  }

  /** The root document's `$ref` names a definition that is there. */
  lemma BuildRootDefined(ctx: ParsingContext, order: Order, root: string)
    requires IsOrder(order) && WellKeyed(ctx)
    ensures var r := Build(ctx, order, root);
      r.Some? && r.value.Success? ==>
      var defs := Field(r.value.value, "$defs").value.fields;
      Get(defs, root).Some?
  {
    if root in Keys(ctx.classes) {
      KeyedName(ctx, root);
    }
  }

  /** Each variant that is a known class is referred to, and nothing else is. */
  lemma {:induction false} VariantRefsMember(ctx: ParsingContext, subs: seq<string>, name: string)
    ensures RefTo(name) in VariantRefs(ctx, subs) <==> name in subs && name in Keys(ctx.classes)
    decreases |subs|
  {
    if |subs| > 0 {
      VariantRefsMember(ctx, subs[1..], name);
      RefToInjective(subs[0], name);
      assert subs == [subs[0]] + subs[1..];
    }
  }

  lemma RefToInjective(a: string, b: string)
    ensures RefTo(a) == RefTo(b) <==> a == b
  {
    if RefTo(a) == RefTo(b) {
      var p := "#/$defs/";
      assert p + a == p + b;
      assert a == (p + a)[|p|..];
    }
  }

  /** A sealed class with subclasses is defined as the `anyOf` of its known
      variants. */
  lemma SealedDefinition(ctx: ParsingContext, order: Order, stack: set<string>, defs: IndexMap<Json>, k: string)
    requires IsOrder(order) && k in Keys(ctx.classes)
    requires var c := Get(ctx.classes, k).value; c.isSealed && |c.subclasses| > 0 && c.name !in Keys(defs)
    ensures var c := Get(ctx.classes, k).value;
      var r := BuildClass(ctx, order, stack, defs, k);
      r.Some? ==> Get(r.value, c.name) == Some(JObject([("anyOf", JArray(VariantRefs(ctx, c.subclasses)))]))
  {
    var c := Get(ctx.classes, k).value;
    if k !in stack {
      BudgetShrinks(ctx, stack, k);
      var v := BuildVariants(ctx, order, stack + {k}, defs, c.subclasses);
      if v.Some? {
        GetInsert(v.value.1, c.name, JObject([("anyOf", JArray(v.value.0))]), c.name);
      }
    }
  }

  /** Any other class is defined as the closed object over its own and inherited
      properties, one schema per visible property. */
  lemma PlainDefinition(ctx: ParsingContext, order: Order, stack: set<string>, defs: IndexMap<Json>, k: string)
    requires IsOrder(order) && k in Keys(ctx.classes)
    requires var c := Get(ctx.classes, k).value; !(c.isSealed && |c.subclasses| > 0) && c.name !in Keys(defs)
    ensures var c := Get(ctx.classes, k).value;
      var all := MergeProperties(c.properties, InheritedProperties(ctx, c));
      var r := BuildClass(ctx, order, stack, defs, k);
      r.Some? ==> exists schemas :: |schemas| == |Visible(all)| && Get(r.value, c.name) == Some(ClassObject(c, all, schemas))
  {
    var c := Get(ctx.classes, k).value;
    var all := MergeProperties(c.properties, InheritedProperties(ctx, c));
    if k !in stack {
      BudgetShrinks(ctx, stack, k);
      var b := BuildProperties(ctx, order, stack + {k}, defs, Visible(all));
      if b.Some? {
        GetInsert(b.value.1, c.name, ClassObject(c, all, b.value.0), c.name);
      }
    }
  }

  /** A class typed property refers to its class only after the class is defined. */
  lemma TypeRefDefined(ctx: ParsingContext, order: Order, stack: set<string>, defs: IndexMap<Json>, t: string)
    requires IsOrder(order) && WellKeyed(ctx) && t in Keys(ctx.classes) && Get(ctx.enums, t).None?
    ensures var r := BuildTypeSchema(ctx, order, stack, defs, t);
      r.Some? ==> r.value.0 == RefTo(t) && Get(r.value.1, t).Some?
  {
    KeyedName(ctx, t);
  }
}
