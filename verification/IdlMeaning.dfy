/** What type specifications, definitions and instructions refer to, told by where in them it stands. */
module IdlMeaning {
  import opened Outcomes
  import opened IdlTypes
  import opened IdlDistill
  import opened Reachability

  // ---- Parts of a type specification ----

  /** A step from a specification to one inside it. */
  datatype Part = InOption | InVec | FirstOfArray | ItemOfTuple(i: nat)

  function Down(spec: Json, part: Part): Option<Json> {
    if !spec.Dict? then None
    else
      var f := spec.fields;
      match part
      case InOption => if "option" in f then Some(f["option"]) else None
      case InVec => if "vec" in f then Some(f["vec"]) else None
      case FirstOfArray =>
        if "array" in f && f["array"].List? && f["array"].items != [] then Some(f["array"].items[0]) else None
      case ItemOfTuple(i) =>
        if "tuple" in f && f["tuple"].List? && i < |f["tuple"].items| then Some(f["tuple"].items[i]) else None
  }

  function Follow(spec: Json, parts: seq<Part>): Option<Json>
    decreases |parts|
  {
    if parts == [] then Some(spec)
    else
      match Down(spec, parts[0])
      case None => None
      case Some(inner) => Follow(inner, parts[1..])
  }

  /** The specification is a reference to a defined type, in the old form or in the new one. */
  predicate IsReference(spec: Json, name: string) {
    && name != "" && spec.Dict? && "defined" in spec.fields
    && var defined := spec.fields["defined"];
       defined == Str(name) || (defined.Dict? && "name" in defined.fields && defined.fields["name"] == Str(name))
  }

  ghost predicate ReferenceAt(spec: Json, parts: seq<Part>, name: string) {
    Follow(spec, parts).Some? && IsReference(Follow(spec, parts).value, name)
  }

  /** Somewhere in the specification stands a reference to the type. */
  ghost predicate Refers(spec: Json, name: string) {
    exists parts :: ReferenceAt(spec, parts, name)
  }

  lemma RefersInside(spec: Json, part: Part, name: string)
    requires Down(spec, part).Some? && Refers(Down(spec, part).value, name)
    ensures Refers(spec, name)
  {
    var parts :| ReferenceAt(Down(spec, part).value, parts, name);
    assert ([part] + parts)[1..] == parts;
    assert ReferenceAt(spec, [part] + parts, name);
  }

  lemma RefersHere(spec: Json, name: string)
    requires IsReference(spec, name)
    ensures Refers(spec, name)
  {
    assert ReferenceAt(spec, [], name);
  }

  /** A reference is here or further in. */
  lemma RefersWhere(spec: Json, name: string) returns (part: Option<Part>)
    requires Refers(spec, name)
    ensures part.None? ==> IsReference(spec, name)
    ensures part.Some? ==> Down(spec, part.value).Some? && Refers(Down(spec, part.value).value, name)
  {
    var parts :| ReferenceAt(spec, parts, name);
    if parts == [] {
      part := None;
    } else {
      part := Some(parts[0]);
      assert ReferenceAt(Down(spec, parts[0]).value, parts[1..], name);
    }
  }

  lemma {:induction false} UnionIff(sets: seq<set<string>>, x: string)
    ensures x in Union(sets) <==> exists i :: 0 <= i < |sets| && x in sets[i]
  {
    if sets != [] {
      UnionIff(sets[1..], x);
      if i :| 0 <= i < |sets[1..]| && x in sets[1..][i] {
        assert x in sets[i + 1];
      }
      if i :| 0 <= i < |sets| && x in sets[i] {
        assert i > 0 ==> sets[1..][i - 1] == sets[i];
      }
    }
  }

  lemma TupleMentionsIff(items: seq<Json>, name: string)
    ensures name in MentionsOf("tuple", List(items)) <==> exists i :: 0 <= i < |items| && name in Mentions(items[i])
  {
    var sets := seq(|items|, i requires 0 <= i < |items| => Mentions(items[i]));
    UnionIff(sets, name);
    if i :| 0 <= i < |items| && name in Mentions(items[i]) {
      assert name in sets[i];
    }
  }

  lemma MentionsHere(spec: Json, name: string)
    requires spec.Dict? && name != ""
    ensures DefinedName(spec.fields) == Some(name) <==> IsReference(spec, name)
  {
  }

  /** The mentioned types are those that some part of the specification refers to. */
  lemma {:induction false} MentionsIff(spec: Json, name: string)
    ensures name in Mentions(spec) <==> Refers(spec, name)
    decreases spec
  {
    if name in Mentions(spec) {
      MentionedIsReferred(spec, name);
    }
    if Refers(spec, name) {
      ReferredIsMentioned(spec, name);
    }
  }

  lemma {:induction false} MentionedIsReferred(spec: Json, name: string)
    requires name in Mentions(spec)
    ensures Refers(spec, name)
    decreases spec
  {
    var f := spec.fields;
    if DefinedName(f) == Some(name) && name != "" {
      MentionsHere(spec, name);
      RefersHere(spec, name);
    } else if "option" in f && name in MentionsOf("option", f["option"]) {
      MentionedIsReferred(f["option"], name);
      RefersInside(spec, InOption, name);
    } else if "vec" in f && name in MentionsOf("vec", f["vec"]) {
      MentionedIsReferred(f["vec"], name);
      RefersInside(spec, InVec, name);
    } else if "array" in f && name in MentionsOf("array", f["array"]) {
      MentionedIsReferred(f["array"].items[0], name);
      RefersInside(spec, FirstOfArray, name);
    } else {
      var i := MentionedItem(f, name);
      MentionedIsReferred(f["tuple"].items[i], name);
      RefersInside(spec, ItemOfTuple(i), name);
    }
  }

  lemma MentionedItem(f: Fields, name: string) returns (i: nat)
    requires "tuple" in f && name in MentionsOf("tuple", f["tuple"])
    ensures f["tuple"].List? && i < |f["tuple"].items| && name in Mentions(f["tuple"].items[i])
  {
    TupleMentionsIff(f["tuple"].items, name);
    i :| 0 <= i < |f["tuple"].items| && name in Mentions(f["tuple"].items[i]);
  }

  lemma {:induction false} ReferredIsMentioned(spec: Json, name: string)
    requires Refers(spec, name)
    ensures name in Mentions(spec)
    decreases spec
  {
    var part := RefersWhere(spec, name);
    match part
    case None =>
      MentionsHere(spec, name);
    case Some(InOption) =>
      ReferredIsMentioned(spec.fields["option"], name);
    case Some(InVec) =>
      ReferredIsMentioned(spec.fields["vec"], name);
    case Some(FirstOfArray) =>
      ReferredIsMentioned(spec.fields["array"].items[0], name);
    case Some(ItemOfTuple(i)) =>
      ReferredIsMentioned(spec.fields["tuple"].items[i], name);
      TupleMentionsIff(spec.fields["tuple"].items, name);
  }

  // ---- Definitions ----

  /** A field's type, if it has one, or the field itself. */
  predicate IsFieldSpec(field: Json, spec: Json) {
    spec == if field.Dict? && "type" in field.fields then field.fields["type"] else field
  }

  /** A field list holds the specification. */
  predicate ListHolds(fields: Json, spec: Json) {
    fields.List? && exists i :: 0 <= i < |fields.items| && IsFieldSpec(fields.items[i], spec)
  }

  predicate InVariant(variant: Json, spec: Json) {
    variant.Dict? && "fields" in variant.fields && ListHolds(variant.fields["fields"], spec)
  }

  /** One of an enum's variants holds it. */
  predicate VariantHolds(variants: Json, spec: Json) {
    variants.List? && exists i :: 0 <= i < |variants.items| && InVariant(variants.items[i], spec)
  }

  /** The definition is a struct with such a field, or an enum with such a variant. */
  predicate DefHolds(def: Fields, spec: Json) {
    && "type" in def && def["type"].Dict? && "kind" in def["type"].fields
    && var body := def["type"].fields;
       || (body["kind"] == Str("struct") && "fields" in body && ListHolds(body["fields"], spec))
       || (body["kind"] == Str("enum") && "variants" in body && VariantHolds(body["variants"], spec))
  }

  ghost predicate DefRefers(def: Fields, name: string) {
    exists spec :: DefHolds(def, spec) && Refers(spec, name)
  }

  lemma FieldMentionIff(field: Json, name: string)
    ensures name in FieldMentions(field) <==> exists spec :: IsFieldSpec(field, spec) && Refers(spec, name)
  {
    var spec := if field.Dict? && "type" in field.fields then field.fields["type"] else field;
    MentionsIff(spec, name);
    assert IsFieldSpec(field, spec);
  }

  lemma FieldsMentionIff(fields: Json, name: string)
    ensures name in FieldsMentions(fields) <==> exists spec :: ListHolds(fields, spec) && Refers(spec, name)
  {
    if fields.List? {
      var items := fields.items;
      var sets := seq(|items|, i requires 0 <= i < |items| => FieldMentions(items[i]));
      UnionIff(sets, name);
      if i :| 0 <= i < |sets| && name in sets[i] {
        FieldMentionIff(items[i], name);
      }
      if spec :| ListHolds(fields, spec) && Refers(spec, name) {
        var i :| 0 <= i < |items| && IsFieldSpec(items[i], spec);
        FieldMentionIff(items[i], name);
        assert name in sets[i];
      }
    }
  }

  lemma VariantsMentionIff(variants: Json, name: string)
    ensures name in VariantsMentions(variants) <==> exists spec :: VariantHolds(variants, spec) && Refers(spec, name)
  {
    if variants.List? {
      var items := variants.items;
      var sets := seq(|items|, i requires 0 <= i < |items| => VariantMentions(items[i]));
      UnionIff(sets, name);
      if name in VariantsMentions(variants) {
        var i :| 0 <= i < |sets| && name in sets[i];
        FieldsMentionIff(items[i].fields["fields"], name);
        var spec :| ListHolds(items[i].fields["fields"], spec) && Refers(spec, name);
        assert InVariant(items[i], spec);
      }
      if spec :| VariantHolds(variants, spec) && Refers(spec, name) {
        var i :| 0 <= i < |items| && InVariant(items[i], spec);
        FieldsMentionIff(items[i].fields["fields"], name);
        assert name in sets[i];
      }
    }
  }

  /** A definition depends on the types that one of its fields refers to. */
  lemma DependsIff(def: Fields, name: string)
    ensures name in TypeDependencies(def) <==> DefRefers(def, name)
  {
    if "type" in def && def["type"].Dict? {
      var body := def["type"].fields;
      if "kind" in body && body["kind"] == Str("struct") && "fields" in body {
        FieldsMentionIff(body["fields"], name);
        assert forall spec :: DefHolds(def, spec) <==> ListHolds(body["fields"], spec);
      } else if "kind" in body && body["kind"] == Str("enum") && "variants" in body {
        VariantsMentionIff(body["variants"], name);
        assert forall spec :: DefHolds(def, spec) <==> VariantHolds(body["variants"], spec);
      }
    }
  }

  // ---- The arguments of instructions ----

  predicate IsArgOf(arg: Json, spec: Json) {
    arg.Dict? && "type" in arg.fields && spec == arg.fields["type"]
  }

  /** An argument of the instruction has the type. */
  predicate ArgHolds(ix: Json, spec: Json) {
    && ix.Dict? && "args" in ix.fields && ix.fields["args"].List?
    && exists i :: 0 <= i < |ix.fields["args"].items| && IsArgOf(ix.fields["args"].items[i], spec)
  }

  ghost predicate InstructionRefers(ix: Json, name: string) {
    exists spec :: ArgHolds(ix, spec) && Refers(spec, name)
  }

  lemma InstructionMentionsIff(ix: Json, name: string)
    ensures name in InstructionMentions(ix) <==> InstructionRefers(ix, name)
  {
    if ix.Dict? && "args" in ix.fields && ix.fields["args"].List? {
      var args := ix.fields["args"].items;
      var sets := seq(|args|, i requires 0 <= i < |args| => ArgMentions(args[i]));
      UnionIff(sets, name);
      if name in InstructionMentions(ix) {
        var i :| 0 <= i < |sets| && name in sets[i];
        MentionsIff(args[i].fields["type"], name);
        assert IsArgOf(args[i], args[i].fields["type"]);
      }
      if spec :| ArgHolds(ix, spec) && Refers(spec, name) {
        MentionsIff(spec, name);
        var i :| 0 <= i < |args| && IsArgOf(args[i], spec);
        assert name in sets[i];
      }
    }
  }

  /** The roots are the types that an argument of a selected instruction refers to. */
  lemma RootsIff(selected: seq<Json>, name: string)
    ensures name in RootsOf(selected) <==> exists ix :: ix in selected && InstructionRefers(ix, name)
  {
    var sets := seq(|selected|, i requires 0 <= i < |selected| => InstructionMentions(selected[i]));
    UnionIff(sets, name);
    if name in RootsOf(selected) {
      var i :| 0 <= i < |sets| && name in sets[i];
      InstructionMentionsIff(selected[i], name);
      assert selected[i] in selected;
    }
    if ix :| ix in selected && InstructionRefers(ix, name) {
      InstructionMentionsIff(ix, name);
      var i :| 0 <= i < |selected| && selected[i] == ix;
      assert name in sets[i];
    }
  }
}
