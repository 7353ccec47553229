/** The scripts' own loops over type specifications and definitions, which fill, replace and collect step by step. */
module IdlRewriting {
  import opened IdlTypes

  // ---- Rewriting ----

  /** The entries of a specification with those under `keys` rewritten. */
  ghost function RewrittenAt(f: Fields, keys: set<string>): Fields {
    map key | key in f :: if key in keys then CanonEntry(key, f[key]) else f[key]
  }

  const REWRITTEN_KEYS := {"defined", "option", "vec", "array", "tuple"}

  lemma RewriteOneMore(f: Fields, keys: set<string>, key: string)
    ensures RewrittenAt(f, keys + {key})
         == if key in f then RewrittenAt(f, keys)[key := CanonEntry(key, f[key])] else RewrittenAt(f, keys)
  {
  }

  lemma RewriteNone(f: Fields)
    ensures RewrittenAt(f, {}) == f
  {
  }

  /** No other key is ever rewritten. */
  lemma RewriteAll(f: Fields)
    ensures Dict(RewrittenAt(f, REWRITTEN_KEYS)) == CanonSpec(Dict(f))
  {
  }

  /** Rewrites the entries of a specification one key after another. */
  method CanonicalizeTypeSpec(spec: Json) returns (result: Json)
    ensures result == CanonSpec(spec)
    decreases spec, 1
  {
    if spec.Str? {
      return if spec.s == "publicKey" then Str("pubkey") else spec;
    }
    if !spec.Dict? {
      return spec;
    }
    var f := spec.fields;
    var out := f;
    var keys := ["defined", "option", "vec", "array", "tuple"];
    RewriteNone(f);
    ghost var done: set<string> := {};
    for k := 0 to |keys|
      invariant done == set i | 0 <= i < k :: keys[i]
      invariant out == RewrittenAt(f, done)
    {
      RewriteOneMore(f, done, keys[k]);
      done := done + {keys[k]};
      if keys[k] in f {
        var entry := CanonicalizeEntry(keys[k], f[keys[k]]);
        out := out[keys[k] := entry];
      }
    }
    assert done == REWRITTEN_KEYS by {
      assert keys[0] == "defined" && keys[1] == "option" && keys[2] == "vec" && keys[3] == "array" && keys[4] == "tuple";
    }
    RewriteAll(f);
    return Dict(out);
  }

  method CanonicalizeEntry(key: string, value: Json) returns (result: Json)
    ensures result == CanonEntry(key, value)
    decreases value, 2
  {
    if key == "defined" && value.Str? {
      return Dict(map["name" := value]);
    }
    if key == "option" || key == "vec" {
      result := CanonicalizeTypeSpec(value);
    } else if key == "array" && value.List? && value.items != [] {
      var first := CanonicalizeTypeSpec(value.items[0]);
      result := List(value.items[0 := first]);
      assert value.items[0 := first] == [first] + value.items[1..];
    } else if key == "tuple" && value.List? {
      result := CanonicalizeItems(value);
    } else {
      result := value;
    }
  }

  method CanonicalizeItems(list: Json) returns (result: Json)
    requires list.List?
    ensures result.List? && |result.items| == |list.items|
    ensures forall i | 0 <= i < |list.items| :: result.items[i] == CanonSpec(list.items[i])
    decreases list, 0
  {
    var items := list.items;
    for i := 0 to |items|
      invariant |items| == |list.items|
      invariant forall k | 0 <= k < |items| :: items[k] == if k < i then CanonSpec(list.items[k]) else list.items[k]
    {
      var item := CanonicalizeTypeSpec(list.items[i]);
      items := items[i := item];
    }
    return List(items);
  }

  /** One field list, rewritten field by field. */
  method CanonicalizeFields(fields: Json) returns (result: Json)
    ensures result == CanonFields(fields)
  {
    if !fields.List? {
      return fields;
    }
    var items := fields.items;
    for i := 0 to |items|
      invariant |items| == |fields.items|
      invariant forall k | 0 <= k < |items| :: items[k] == if k < i then CanonField(fields.items[k]) else fields.items[k]
    {
      var field := fields.items[i];
      if field.Dict? && "type" in field.fields {
        var spec := CanonicalizeTypeSpec(field.fields["type"]);
        items := items[i := Dict(field.fields["type" := spec])];
      } else if field.Dict? {
        var spec := CanonicalizeTypeSpec(field);
        items := items[i := spec];
      }
    }
    return List(items);
  }

  method CanonicalizeVariants(variants: Json) returns (result: Json)
    ensures result == CanonVariants(variants)
  {
    if !variants.List? {
      return variants;
    }
    var items := variants.items;
    for i := 0 to |items|
      invariant |items| == |variants.items|
      invariant forall k | 0 <= k < |items| ::
        items[k] == if k < i then CanonVariant(variants.items[k]) else variants.items[k]
    {
      var variant := variants.items[i];
      if variant.Dict? && "fields" in variant.fields {
        var fields := CanonicalizeFields(variant.fields["fields"]);
        items := items[i := Dict(variant.fields["fields" := fields])];
      }
    }
    return List(items);
  }

  /** Structs have their fields rewritten, enums those of their variants. */
  method CanonicalizeTypeDef(def: Fields) returns (result: Fields)
    ensures result == CanonTypeDef(def)
  {
    if "type" !in def || !def["type"].Dict? {
      return def;
    }
    var body := def["type"].fields;
    if HasKind(body, "struct") {
      if "fields" in body {
        var fields := CanonicalizeFields(body["fields"]);
        body := body["fields" := fields];
      }
    } else if HasKind(body, "enum") {
      if "variants" in body {
        var variants := CanonicalizeVariants(body["variants"]);
        body := body["variants" := variants];
      }
    }
    return def["type" := Dict(body)];
  }

  // ---- Collecting ----

  lemma {:induction false} UnionOneMore(sets: seq<set<string>>, i: nat)
    requires i < |sets|
    ensures Union(sets[..i + 1]) == Union(sets[..i]) + sets[i]
  {
    if i == 0 {
      assert sets[..1] == [sets[0]];
      assert sets[..1][1..] == [] && sets[..0] == [];
    } else {
      UnionOneMore(sets[1..], i - 1);
      assert sets[..i + 1][1..] == sets[1..][..i] && sets[..i][1..] == sets[1..][..i - 1];
    }
  }

  ghost function ItemMentions(items: seq<Json>): seq<set<string>> {
    seq(|items|, i requires 0 <= i < |items| => Mentions(items[i]))
  }

  /** Adds every defined type that a specification mentions to those collected before. */
  method CollectFromTypeSpec(spec: Json, before: set<string>) returns (out: set<string>)
    ensures out == before + Mentions(spec)
    decreases spec, 1
  {
    out := before;
    if !spec.Dict? {
      return;
    }
    var f := spec.fields;
    var defined := DefinedName(f);
    if defined.Some? && defined.value != "" {
      out := out + {defined.value};
    }
    out := CollectUnder("option", f, out);
    out := CollectUnder("vec", f, out);
    out := CollectUnder("array", f, out);
    out := CollectUnder("tuple", f, out);
  }

  /** What is mentioned below one key of a specification. */
  method CollectUnder(key: string, f: Fields, before: set<string>) returns (out: set<string>)
    ensures out == before + if key in f then MentionsOf(key, f[key]) else {}
    decreases Dict(f), 0
  {
    out := before;
    if key !in f {
      return;
    }
    var value := f[key];
    if key == "option" || key == "vec" {
      out := CollectFromTypeSpec(value, out);
    } else if key == "array" && value.List? && value.items != [] {
      out := CollectFromTypeSpec(value.items[0], out);
    } else if key == "tuple" && value.List? {
      out := CollectFromItems(value, out);
    }
  }

  method CollectFromItems(list: Json, before: set<string>) returns (out: set<string>)
    requires list.List?
    ensures out == before + MentionsOf("tuple", list)
    decreases list, 0
  {
    out := before;
    ghost var sets := ItemMentions(list.items);
    for i := 0 to |list.items|
      invariant out == before + Union(sets[..i])
    {
      UnionOneMore(sets, i);
      out := CollectFromTypeSpec(list.items[i], out);
    }
    assert sets[..|list.items|] == sets;
    assert sets == seq(|list.items|, i requires 0 <= i < |list.items| => Mentions(list.items[i]));
  }

  ghost function FieldMentionSets(items: seq<Json>): seq<set<string>> {
    seq(|items|, i requires 0 <= i < |items| => FieldMentions(items[i]))
  }

  method CollectFromFields(fields: Json, before: set<string>) returns (out: set<string>)
    ensures out == before + FieldsMentions(fields)
  {
    out := before;
    if !fields.List? {
      return;
    }
    ghost var sets := FieldMentionSets(fields.items);
    for i := 0 to |fields.items|
      invariant out == before + Union(sets[..i])
    {
      UnionOneMore(sets, i);
      var field := fields.items[i];
      if field.Dict? && "type" in field.fields {
        out := CollectFromTypeSpec(field.fields["type"], out);
      } else {
        out := CollectFromTypeSpec(field, out);
      }
    }
    assert sets[..|fields.items|] == sets;
    assert sets == seq(|fields.items|, i requires 0 <= i < |fields.items| => FieldMentions(fields.items[i]));
  }

  ghost function VariantMentionSets(items: seq<Json>): seq<set<string>> {
    seq(|items|, i requires 0 <= i < |items| => VariantMentions(items[i]))
  }

  method CollectFromVariants(variants: Json, before: set<string>) returns (out: set<string>)
    ensures out == before + VariantsMentions(variants)
  {
    out := before;
    if !variants.List? {
      return;
    }
    ghost var sets := VariantMentionSets(variants.items);
    for i := 0 to |variants.items|
      invariant out == before + Union(sets[..i])
    {
      UnionOneMore(sets, i);
      var variant := variants.items[i];
      if variant.Dict? && "fields" in variant.fields {
        out := CollectFromFields(variant.fields["fields"], out);
      }
    }
    assert sets[..|variants.items|] == sets;
    assert sets == seq(|variants.items|, i requires 0 <= i < |variants.items| => VariantMentions(variants.items[i]));
  }

  /** Adds every type that a definition depends on to those collected before. */
  method CollectTypeDependencies(def: Fields, before: set<string>) returns (out: set<string>)
    ensures out == before + TypeDependencies(def)
  {
    out := before;
    if "type" !in def || !def["type"].Dict? {
      return;
    }
    var body := def["type"].fields;
    if HasKind(body, "struct") {
      if "fields" in body {
        out := CollectFromFields(body["fields"], out);
      }
    } else if HasKind(body, "enum") {
      if "variants" in body {
        out := CollectFromVariants(body["variants"], out);
      }
    }
  }
}
