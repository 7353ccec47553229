/** Type specifications and type definitions of an IDL: rewriting them, and what they mention. */
module IdlTypes {
  import opened Outcomes

  datatype Json =
    | Null
    | Boolean(b: bool)
    | Number(n: real)
    | Str(s: string)
    | List(items: seq<Json>)
    | Dict(fields: Fields)

  type Fields = map<string, Json>

  // ---- Type specifications ----

  /** The modern form: `publicKey` is renamed and a defined type is referred to by a dictionary. */
  function CanonSpec(spec: Json): Json
    decreases spec, 1
  {
    match spec
    case Str(s) => if s == "publicKey" then Str("pubkey") else spec
    case Dict(f) => Dict(map key | key in f :: CanonEntry(key, f[key]))
    case _ => spec
  }

  function CanonEntry(key: string, value: Json): Json
    decreases value, 2
  {
    if key == "defined" && value.Str? then Dict(map["name" := value])
    else if key == "option" || key == "vec" then CanonSpec(value)
    else if key == "array" && value.List? && value.items != [] then
      List([CanonSpec(value.items[0])] + value.items[1..])
    else if key == "tuple" && value.List? then
      List(seq(|value.items|, i requires 0 <= i < |value.items| => CanonSpec(value.items[i])))
    else value
  }

  function DefinedName(f: Fields): Option<string> {
    if "defined" !in f then None
    else
      match f["defined"]
      case Str(s) => Some(s)
      case Dict(d) => if "name" in d && d["name"].Str? then Some(d["name"].s) else None
      case _ => None
  }

  function Union(sets: seq<set<string>>): set<string> {
    if sets == [] then {} else sets[0] + Union(sets[1..])
  }

  /** The defined types a specification mentions; an empty name is not collected. */
  function Mentions(spec: Json): set<string>
    decreases spec, 1
  {
    if !spec.Dict? then {}
    else
      var f := spec.fields;
      var defined := DefinedName(f);
      (if defined.Some? && defined.value != "" then {defined.value} else {})
        + (if "option" in f then MentionsOf("option", f["option"]) else {})
        + (if "vec" in f then MentionsOf("vec", f["vec"]) else {})
        + (if "array" in f then MentionsOf("array", f["array"]) else {})
        + (if "tuple" in f then MentionsOf("tuple", f["tuple"]) else {})
  }

  function MentionsOf(key: string, value: Json): set<string>
    decreases value, 2
  {
    if key == "option" || key == "vec" then Mentions(value)
    else if key == "array" && value.List? && value.items != [] then Mentions(value.items[0])
    else if key == "tuple" && value.List? then
      Union(seq(|value.items|, i requires 0 <= i < |value.items| => Mentions(value.items[i])))
    else {}
  }

  lemma {:induction false} CanonSpecIdempotent(spec: Json)
    ensures CanonSpec(CanonSpec(spec)) == CanonSpec(spec)
    decreases spec, 1
  {
    if spec.Dict? {
      forall key | key in spec.fields
        ensures CanonEntry(key, CanonEntry(key, spec.fields[key])) == CanonEntry(key, spec.fields[key])
      {
        CanonEntryIdempotent(key, spec.fields[key]);
      }
    }
  }

  lemma {:induction false} CanonEntryIdempotent(key: string, value: Json)
    ensures CanonEntry(key, CanonEntry(key, value)) == CanonEntry(key, value)
    decreases value, 2
  {
    if key == "option" || key == "vec" {
      CanonSpecIdempotent(value);
    } else if key == "array" && value.List? && value.items != [] {
      CanonSpecIdempotent(value.items[0]);
    } else if key == "tuple" && value.List? {
      forall i | 0 <= i < |value.items|
        ensures CanonSpec(CanonSpec(value.items[i])) == CanonSpec(value.items[i])
      {
        CanonSpecIdempotent(value.items[i]);
      }
    }
  }

  /** A specification that needs no rewriting, wherever the rewriting looks. */
  predicate IsModern(spec: Json)
    decreases spec, 1
  {
    match spec
    case Str(s) => s != "publicKey"
    case Dict(f) => forall key | key in f :: IsModernEntry(key, f[key])
    case _ => true
  }

  predicate IsModernEntry(key: string, value: Json)
    decreases value, 2
  {
    if key == "defined" then !value.Str?
    else if key == "option" || key == "vec" then IsModern(value)
    else if key == "array" && value.List? && value.items != [] then IsModern(value.items[0])
    else if key == "tuple" && value.List? then forall i | 0 <= i < |value.items| :: IsModern(value.items[i])
    else true
  }

  /** Rewriting always gives the modern form, and changes exactly what is not in it. */
  lemma {:induction false} CanonSpecIsModern(spec: Json)
    ensures IsModern(CanonSpec(spec))
    ensures CanonSpec(spec) == spec <==> IsModern(spec)
    decreases spec, 1
  {
    if spec.Dict? {
      var f, g := spec.fields, CanonSpec(spec).fields;
      assert f.Keys == g.Keys;
      forall key | key in f
        ensures IsModernEntry(key, g[key]) && (g[key] == f[key] <==> IsModernEntry(key, f[key]))
      {
        CanonEntryIsModern(key, f[key]);
      }
    }
  }

  lemma {:induction false} CanonEntryIsModern(key: string, value: Json)
    ensures IsModernEntry(key, CanonEntry(key, value))
    ensures CanonEntry(key, value) == value <==> IsModernEntry(key, value)
    decreases value, 2
  {
    if key == "option" || key == "vec" {
      CanonSpecIsModern(value);
    } else if key == "array" && value.List? && value.items != [] {
      CanonSpecIsModern(value.items[0]);
      assert value.items == [value.items[0]] + value.items[1..];
    } else if key == "tuple" && value.List? {
      CanonItemsAreModern(value);
    }
  }

  lemma {:induction false} CanonItemsAreModern(list: Json)
    requires list.List?
    ensures forall i | 0 <= i < |list.items| ::
      IsModern(CanonSpec(list.items[i])) && (CanonSpec(list.items[i]) == list.items[i] <==> IsModern(list.items[i]))
    decreases list, 0
  {
    forall i | 0 <= i < |list.items|
      ensures IsModern(CanonSpec(list.items[i])) && (CanonSpec(list.items[i]) == list.items[i] <==> IsModern(list.items[i]))
    {
      CanonSpecIsModern(list.items[i]);
    }
  }

  /** Rewriting a specification does not change what it mentions. */
  lemma {:induction false} CanonSpecKeepsMentions(spec: Json)
    ensures Mentions(CanonSpec(spec)) == Mentions(spec)
    decreases spec, 1
  {
    if spec.Dict? {
      var f, g := spec.fields, CanonSpec(spec).fields;
      assert DefinedName(g) == DefinedName(f) by {
        assert "defined" in f ==> g["defined"] == CanonEntry("defined", f["defined"]);
      }
      forall key | key in f
        ensures MentionsOf(key, g[key]) == MentionsOf(key, f[key])
      {
        CanonEntryKeepsMentions(key, f[key]);
      }
    }
  }

  lemma {:induction false} CanonEntryKeepsMentions(key: string, value: Json)
    ensures MentionsOf(key, CanonEntry(key, value)) == MentionsOf(key, value)
    decreases value, 2
  {
    if key == "option" || key == "vec" {
      CanonSpecKeepsMentions(value);
    } else if key == "array" && value.List? && value.items != [] {
      CanonSpecKeepsMentions(value.items[0]);
    } else if key == "tuple" && value.List? {
      var items, items' := value.items, CanonEntry(key, value).items;
      forall i | 0 <= i < |items|
        ensures Mentions(items'[i]) == Mentions(items[i])
      {
        CanonSpecKeepsMentions(items[i]);
      }
      assert seq(|items'|, i requires 0 <= i < |items'| => Mentions(items'[i]))
          == seq(|items|, i requires 0 <= i < |items| => Mentions(items[i]));
    }
  }

  // ---- Type definitions ----

  /** A field with a type has it rewritten; a bare dictionary is a type itself; a bare string is left alone. */
  function CanonField(field: Json): Json {
    if field.Dict? && "type" in field.fields then Dict(field.fields["type" := CanonSpec(field.fields["type"])])
    else if field.Dict? then CanonSpec(field)
    else field
  }

  function CanonFields(fields: Json): Json {
    if fields.List? then List(seq(|fields.items|, i requires 0 <= i < |fields.items| => CanonField(fields.items[i])))
    else fields
  }

  function CanonAt(f: Fields, key: string, canon: Json -> Json): Fields {
    if key in f then f[key := canon(f[key])] else f
  }

  function CanonVariant(variant: Json): Json {
    if variant.Dict? then Dict(CanonAt(variant.fields, "fields", CanonFields)) else variant
  }

  function CanonVariants(variants: Json): Json {
    if variants.List?
    then List(seq(|variants.items|, i requires 0 <= i < |variants.items| => CanonVariant(variants.items[i])))
    else variants
  }

  predicate HasKind(body: Fields, kind: string) {
    "kind" in body && body["kind"] == Str(kind)
  }

  function CanonBody(body: Fields): Fields {
    if HasKind(body, "struct") then CanonAt(body, "fields", CanonFields)
    else if HasKind(body, "enum") then CanonAt(body, "variants", CanonVariants)
    else body
  }

  function CanonTypeDef(def: Fields): Fields {
    if "type" in def && def["type"].Dict? then def["type" := Dict(CanonBody(def["type"].fields))] else def
  }

  function FieldMentions(field: Json): set<string> {
    if field.Dict? && "type" in field.fields then Mentions(field.fields["type"]) else Mentions(field)
  }

  function FieldsMentions(fields: Json): set<string> {
    if fields.List? then Union(seq(|fields.items|, i requires 0 <= i < |fields.items| => FieldMentions(fields.items[i])))
    else {}
  }

  function VariantMentions(variant: Json): set<string> {
    if variant.Dict? && "fields" in variant.fields then FieldsMentions(variant.fields["fields"]) else {}
  }

  function VariantsMentions(variants: Json): set<string> {
    if variants.List?
    then Union(seq(|variants.items|, i requires 0 <= i < |variants.items| => VariantMentions(variants.items[i])))
    else {}
  }

  function BodyMentions(body: Fields): set<string> {
    if HasKind(body, "struct") then if "fields" in body then FieldsMentions(body["fields"]) else {}
    else if HasKind(body, "enum") then if "variants" in body then VariantsMentions(body["variants"]) else {}
    else {}
  }

  /** The types a definition depends on. */
  function TypeDependencies(def: Fields): set<string> {
    if "type" in def && def["type"].Dict? then BodyMentions(def["type"].fields) else {}
  }

  lemma CanonFieldLaws(field: Json)
    ensures CanonField(CanonField(field)) == CanonField(field)
    ensures FieldMentions(CanonField(field)) == FieldMentions(field)
  {
    if field.Dict? && "type" in field.fields {
      CanonSpecIdempotent(field.fields["type"]);
      CanonSpecKeepsMentions(field.fields["type"]);
    } else if field.Dict? {
      CanonSpecIdempotent(field);
      CanonSpecKeepsMentions(field);
    }
  }

  lemma CanonFieldsLaws(fields: Json)
    ensures CanonFields(CanonFields(fields)) == CanonFields(fields)
    ensures FieldsMentions(CanonFields(fields)) == FieldsMentions(fields)
  {
    if fields.List? {
      var items, items' := fields.items, CanonFields(fields).items;
      forall i | 0 <= i < |items|
        ensures CanonField(items'[i]) == items'[i] && FieldMentions(items'[i]) == FieldMentions(items[i])
      {
        CanonFieldLaws(items[i]);
      }
      assert seq(|items'|, i requires 0 <= i < |items'| => FieldMentions(items'[i]))
          == seq(|items|, i requires 0 <= i < |items| => FieldMentions(items[i]));
    }
  }

  lemma CanonVariantLaws(variant: Json)
    ensures CanonVariant(CanonVariant(variant)) == CanonVariant(variant)
    ensures VariantMentions(CanonVariant(variant)) == VariantMentions(variant)
  {
    if variant.Dict? && "fields" in variant.fields {
      CanonFieldsLaws(variant.fields["fields"]);
    }
  }

  lemma CanonVariantsLaws(variants: Json)
    ensures CanonVariants(CanonVariants(variants)) == CanonVariants(variants)
    ensures VariantsMentions(CanonVariants(variants)) == VariantsMentions(variants)
  {
    if variants.List? {
      var items, items' := variants.items, CanonVariants(variants).items;
      forall i | 0 <= i < |items|
        ensures CanonVariant(items'[i]) == items'[i] && VariantMentions(items'[i]) == VariantMentions(items[i])
      {
        CanonVariantLaws(items[i]);
      }
      assert seq(|items'|, i requires 0 <= i < |items'| => VariantMentions(items'[i]))
          == seq(|items|, i requires 0 <= i < |items| => VariantMentions(items[i]));
    }
  }

  lemma CanonBodyLaws(body: Fields)
    ensures CanonBody(CanonBody(body)) == CanonBody(body)
    ensures BodyMentions(CanonBody(body)) == BodyMentions(body)
  {
    assert forall kind :: HasKind(CanonBody(body), kind) <==> HasKind(body, kind);
    if HasKind(body, "struct") && "fields" in body {
      CanonFieldsLaws(body["fields"]);
    } else if HasKind(body, "enum") && "variants" in body {
      CanonVariantsLaws(body["variants"]);
    }
  }

  /** Rewriting a definition is idempotent, keeps its name, and does not disturb its dependencies. */
  lemma CanonTypeDefLaws(def: Fields)
    ensures CanonTypeDef(CanonTypeDef(def)) == CanonTypeDef(def)
    ensures TypeDependencies(CanonTypeDef(def)) == TypeDependencies(def)
    ensures "name" in CanonTypeDef(def) <==> "name" in def
    ensures "name" in def ==> CanonTypeDef(def)["name"] == def["name"]
  {
    if "type" in def && def["type"].Dict? {
      CanonBodyLaws(def["type"].fields);
    }
  }

  // ---- What a rewritten definition looks like ----

  /** A bare string counts as modern whatever it says: it is never rewritten. */
  predicate IsModernField(field: Json) {
    if field.Dict? && "type" in field.fields then IsModern(field.fields["type"])
    else field.Dict? ==> IsModern(field)
  }

  predicate AreModernFields(fields: Json) {
    fields.List? ==> forall i | 0 <= i < |fields.items| :: IsModernField(fields.items[i])
  }

  predicate IsModernVariant(variant: Json) {
    variant.Dict? && "fields" in variant.fields ==> AreModernFields(variant.fields["fields"])
  }

  predicate AreModernVariants(variants: Json) {
    variants.List? ==> forall i | 0 <= i < |variants.items| :: IsModernVariant(variants.items[i])
  }

  predicate IsModernBody(body: Fields) {
    && (HasKind(body, "struct") && "fields" in body ==> AreModernFields(body["fields"]))
    && (HasKind(body, "enum") && "variants" in body ==> AreModernVariants(body["variants"]))
  }

  predicate IsModernDef(def: Fields) {
    "type" in def && def["type"].Dict? ==> IsModernBody(def["type"].fields)
  }

  lemma CanonFieldIsModern(field: Json)
    ensures IsModernField(CanonField(field))
    ensures CanonField(field) == field <==> IsModernField(field)
  {
    if field.Dict? {
      CanonSpecIsModern(if "type" in field.fields then field.fields["type"] else field);
    }
  }

  lemma CanonFieldsAreModern(fields: Json)
    ensures AreModernFields(CanonFields(fields))
    ensures CanonFields(fields) == fields <==> AreModernFields(fields)
  {
    if fields.List? {
      forall i | 0 <= i < |fields.items|
        ensures IsModernField(CanonField(fields.items[i]))
        ensures CanonField(fields.items[i]) == fields.items[i] <==> IsModernField(fields.items[i])
      {
        CanonFieldIsModern(fields.items[i]);
      }
    }
  }

  lemma CanonVariantIsModern(variant: Json)
    ensures IsModernVariant(CanonVariant(variant))
    ensures CanonVariant(variant) == variant <==> IsModernVariant(variant)
  {
    if variant.Dict? && "fields" in variant.fields {
      CanonFieldsAreModern(variant.fields["fields"]);
    }
  }

  lemma CanonVariantsAreModern(variants: Json)
    ensures AreModernVariants(CanonVariants(variants))
    ensures CanonVariants(variants) == variants <==> AreModernVariants(variants)
  {
    if variants.List? {
      forall i | 0 <= i < |variants.items|
        ensures IsModernVariant(CanonVariant(variants.items[i]))
        ensures CanonVariant(variants.items[i]) == variants.items[i] <==> IsModernVariant(variants.items[i])
      {
        CanonVariantIsModern(variants.items[i]);
      }
    }
  }

  lemma CanonBodyIsModern(body: Fields)
    ensures IsModernBody(CanonBody(body))
    ensures CanonBody(body) == body <==> IsModernBody(body)
  {
    if HasKind(body, "struct") && "fields" in body {
      CanonFieldsAreModern(body["fields"]);
    } else if HasKind(body, "enum") && "variants" in body {
      CanonVariantsAreModern(body["variants"]);
    }
  }

  /** Rewriting always gives a modern definition, and changes exactly the definitions that are not. */
  lemma CanonTypeDefIsModern(def: Fields)
    ensures IsModernDef(CanonTypeDef(def))
    ensures CanonTypeDef(def) == def <==> IsModernDef(def)
  {
    if "type" in def && def["type"].Dict? {
      CanonBodyIsModern(def["type"].fields);
    }
  }
}
