/** What the scripts change in specifications, definitions and instructions, and what they leave, place by place. */
module IdlShape {
  import opened Outcomes
  import opened IdlTypes
  import opened SnakeCase
  import opened IdlDistill
  import opened IdlMeaning

  // ---- Specifications ----

  /** What becomes of one entry of a specification, the specifications inside it aside. */
  predicate EntryRewritten(key: string, before: Json, after: Json) {
    if key == "defined" && before.Str? then after == Dict(map["name" := before])
    else if key == "option" || key == "vec" then true
    else if key == "array" && before.List? && before.items != [] then
      after.List? && |after.items| == |before.items| && after.items[1..] == before.items[1..]
    else if key == "tuple" && before.List? then after.List? && |after.items| == |before.items|
    else after == before
  }

  /** What becomes of one specification, those inside it aside. */
  predicate SpecRewritten(before: Json, after: Json) {
    match before
    case Str(s) => after == Str(if s == "publicKey" then "pubkey" else s)
    case Dict(f) =>
      after.Dict? && after.fields.Keys == f.Keys && forall key | key in f :: EntryRewritten(key, f[key], after.fields[key])
    case _ => after == before
  }

  lemma RewrittenHere(spec: Json)
    ensures SpecRewritten(spec, CanonSpec(spec))
  {
    if spec.Dict? {
      forall key | key in spec.fields
        ensures EntryRewritten(key, spec.fields[key], CanonSpec(spec).fields[key])
      {
        RewrittenEntry(key, spec.fields[key]);
      }
    }
  }

  lemma RewrittenEntry(key: string, value: Json)
    ensures EntryRewritten(key, value, CanonEntry(key, value))
  {
    if key == "array" && value.List? && value.items != [] {
      assert ([CanonSpec(value.items[0])] + value.items[1..])[1..] == value.items[1..];
    }
  }

  lemma DownRewritten(spec: Json, part: Part)
    ensures match Down(spec, part)
            case None => Down(CanonSpec(spec), part) == None
            case Some(inner) => Down(CanonSpec(spec), part) == Some(CanonSpec(inner))
  {
    if spec.Dict? {
      var f, g := spec.fields, CanonSpec(spec).fields;
      assert forall key | key in f :: g[key] == CanonEntry(key, f[key]);
    }
  }

  /** Every specification that stands somewhere is rewritten where it stands, and nothing else appears. */
  lemma {:induction false} SpecRewrittenAt(spec: Json, parts: seq<Part>)
    ensures match Follow(spec, parts)
            case None => Follow(CanonSpec(spec), parts) == None
            case Some(inner) => Follow(CanonSpec(spec), parts) == Some(CanonSpec(inner)) && SpecRewritten(inner, CanonSpec(inner))
    decreases |parts|
  {
    if parts == [] {
      RewrittenHere(spec);
    } else {
      DownRewritten(spec, parts[0]);
      if Down(spec, parts[0]).Some? {
        SpecRewrittenAt(Down(spec, parts[0]).value, parts[1..]);
      }
    }
  }

  // ---- Definitions ----

  /** A field with a type has it rewritten and keeps the rest; any other dictionary is rewritten as a specification. */
  lemma FieldRewritten(field: Json, key: string)
    ensures field.Dict? && "type" in field.fields ==>
      CanonField(field).Dict?
      && Get(CanonField(field).fields, key)
           == if key == "type" then Some(CanonSpec(field.fields["type"])) else Get(field.fields, key)
    ensures field.Dict? && "type" !in field.fields ==> CanonField(field) == CanonSpec(field)
    ensures !field.Dict? ==> CanonField(field) == field
  {
  }

  /** A list of fields is rewritten field by field; anything else is left alone. */
  predicate ListRewritten(before: Json, after: Json) {
    if before.List? then
      && after.List? && |after.items| == |before.items|
      && forall i | 0 <= i < |before.items| :: after.items[i] == CanonField(before.items[i])
    else after == before
  }

  predicate VariantRewritten(before: Json, after: Json) {
    if before.Dict? && "fields" in before.fields then
      && after.Dict? && "fields" in after.fields && ListRewritten(before.fields["fields"], after.fields["fields"])
      && after.fields == before.fields["fields" := after.fields["fields"]]
    else after == before
  }

  predicate VariantsRewritten(before: Json, after: Json) {
    if before.List? then
      && after.List? && |after.items| == |before.items|
      && forall i | 0 <= i < |before.items| :: VariantRewritten(before.items[i], after.items[i])
    else after == before
  }

  /** A struct has its fields rewritten, an enum the fields of its variants; everything else stays. */
  lemma DefRewritten(def: Fields, key: string)
    ensures key != "type" ==> Get(CanonTypeDef(def), key) == Get(def, key)
    ensures "type" in def && def["type"].Dict? ==>
      "type" in CanonTypeDef(def) && CanonTypeDef(def)["type"].Dict?
      && BodyRewritten(def["type"].fields, CanonTypeDef(def)["type"].fields)
    ensures "type" in def && !def["type"].Dict? ==> CanonTypeDef(def) == def
  {
    if "type" in def && def["type"].Dict? {
      BodyIsRewritten(def["type"].fields);
    }
  }

  predicate BodyRewritten(before: Fields, after: Fields) {
    var isStruct, isEnum := Get(before, "kind") == Some(Str("struct")), Get(before, "kind") == Some(Str("enum"));
    && after.Keys == before.Keys
    && (forall key | key in before && !(isStruct && key == "fields") && !(isEnum && key == "variants") ::
          after[key] == before[key])
    && (isStruct && "fields" in before ==> ListRewritten(before["fields"], after["fields"]))
    && (isEnum && "variants" in before ==> VariantsRewritten(before["variants"], after["variants"]))
  }

  lemma BodyIsRewritten(body: Fields)
    ensures BodyRewritten(body, CanonBody(body))
  {
    if HasKind(body, "enum") && "variants" in body && body["variants"].List? {
      var items := body["variants"].items;
      forall i | 0 <= i < |items|
        ensures VariantRewritten(items[i], CanonVariant(items[i]))
      {
        VariantIsRewritten(items[i]);
      }
    }
  }

  lemma VariantIsRewritten(variant: Json)
    ensures VariantRewritten(variant, CanonVariant(variant))
  {
  }

  // ---- Accounts ----

  /** What Python takes for false. */
  lemma TruthyIff(value: Json)
    ensures Truthy(value) <==>
      && value != Null && value != Boolean(false) && value != Number(0.0)
      && value != Str("") && value != List([]) && value != Dict(map[])
  {
  }

  /** An account at a place: the positions to take in the nested lists of accounts. */
  function AccountAt(accounts: Json, places: seq<nat>): Option<Fields>
    decreases |places|
  {
    if places == [] || !accounts.List? || places[0] >= |accounts.items| || !accounts.items[places[0]].Dict? then None
    else
      var f := accounts.items[places[0]].fields;
      if |places| == 1 then Some(f)
      else if "accounts" in f then AccountAt(f["accounts"], places[1..])
      else None
  }

  /** A flag after normalising: what it said before, else whether the legacy flag is true, else nothing. */
  predicate FlagIs(g: Fields, flag: string, f: Fields, legacy: string) {
    Get(g, flag) ==
      if flag in f then Some(f[flag])
      else if legacy in f then
        Some(Boolean(f[legacy] != Null && f[legacy] != Boolean(false) && f[legacy] != Number(0.0)
                     && f[legacy] != Str("") && f[legacy] != List([]) && f[legacy] != Dict(map[])))
      else None
  }

  /** An account before and after normalising, the accounts nested in it aside. */
  ghost predicate AccountNormalized(f: Fields, g: Fields) {
    && Get(g, "isMut") == Get(g, "isSigner") == Get(g, "isOptional") == None
    && FlagIs(g, "writable", f, "isMut") && FlagIs(g, "signer", f, "isSigner") && FlagIs(g, "optional", f, "isOptional")
    && Get(g, "name") == (if Named(f) then Some(Str(ToSnake(f["name"].s))) else Get(f, "name"))
    && forall key | key !in {"isMut", "isSigner", "isOptional", "writable", "signer", "optional", "name", "accounts"} ::
         Get(g, key) == Get(f, key)
  }

  function Nested(f: Fields): Fields {
    if "accounts" in f then NormalizeFlags(f)["accounts" := NormalizeAccounts(f["accounts"])] else NormalizeFlags(f)
  }

  lemma FlagsAreNormalized(f: Fields)
    ensures AccountNormalized(f, NormalizeFlags(f))
  {
    forall key
      ensures key !in {"isMut", "isSigner", "isOptional", "writable", "signer", "optional", "name", "accounts"} ==>
        Get(NormalizeFlags(f), key) == Get(f, key)
    {
      NormalizeFlagsExact(f, key);
    }
    NormalizeFlagsExact(f, "isMut");
    NormalizeFlagsExact(f, "isSigner");
    NormalizeFlagsExact(f, "isOptional");
    FlagsAreExact(f);
    NormalizeFlagsExact(f, "name");
  }

  lemma FlagsAreExact(f: Fields)
    ensures var g := NormalizeFlags(f);
      FlagIs(g, "writable", f, "isMut") && FlagIs(g, "signer", f, "isSigner") && FlagIs(g, "optional", f, "isOptional")
  {
    NormalizeFlagsExact(f, "writable");
    NormalizeFlagsExact(f, "signer");
    NormalizeFlagsExact(f, "optional");
    if "isMut" in f {
      TruthyIff(f["isMut"]);
    }
    if "isSigner" in f {
      TruthyIff(f["isSigner"]);
    }
    if "isOptional" in f {
      TruthyIff(f["isOptional"]);
    }
  }

  lemma NestedIsNormalized(f: Fields)
    ensures AccountNormalized(f, Nested(f))
  {
    FlagsAreNormalized(f);
    assert forall key | key != "accounts" :: Get(Nested(f), key) == Get(NormalizeFlags(f), key);
  }

  /** Every account at every depth is normalised where it stands, and no account appears or goes. */
  lemma {:induction false} AccountsNormalizedAt(accounts: Json, places: seq<nat>)
    ensures match AccountAt(accounts, places)
            case None => AccountAt(NormalizeAccounts(accounts), places) == None
            case Some(f) =>
              && AccountAt(NormalizeAccounts(accounts), places).Some?
              && AccountNormalized(f, AccountAt(NormalizeAccounts(accounts), places).value)
    decreases |places|
  {
    if places != [] && accounts.List? && places[0] < |accounts.items| && accounts.items[places[0]].Dict? {
      var f := accounts.items[places[0]].fields;
      assert NormalizeAccounts(accounts).items[places[0]] == Dict(Nested(f));
      NestedIsNormalized(f);
      NormalizeFlagsIdempotent(f);
      if |places| > 1 && "accounts" in f {
        AccountsNormalizedAt(f["accounts"], places[1..]);
      }
    }
  }

  // ---- Instructions ----

  predicate HasSnakeName(f: Fields, g: Fields) {
    Get(g, "name") == if "name" in f && f["name"].Str? then Some(Str(ToSnake(f["name"].s))) else Get(f, "name")
  }

  /** An argument has its name in snake case and its type rewritten, and keeps the rest. */
  ghost predicate ArgRewritten(before: Json, after: Json) {
    if before.Dict? then
      && after.Dict? && HasSnakeName(before.fields, after.fields)
      && Get(after.fields, "type") == (if "type" in before.fields then Some(CanonSpec(before.fields["type"])) else None)
      && forall key | key != "name" && key != "type" :: Get(after.fields, key) == Get(before.fields, key)
    else after == before
  }

  ghost predicate ArgsRewritten(before: Json, after: Json) {
    if before.List? then
      && after.List? && |after.items| == |before.items|
      && forall i | 0 <= i < |before.items| :: ArgRewritten(before.items[i], after.items[i])
    else after == before
  }

  lemma ArgIsRewritten(arg: Json)
    ensures ArgRewritten(arg, CanonArg(arg))
  {
  }

  lemma ArgsAreRewritten(args: Json)
    ensures ArgsRewritten(args, CanonArgs(args))
  {
    if args.List? {
      forall i | 0 <= i < |args.items|
        ensures ArgRewritten(args.items[i], CanonArg(args.items[i]))
      {
        ArgIsRewritten(args.items[i]);
      }
    }
  }

  /** Name, accounts, arguments and discriminator of a canonical instruction; everything else stays. */
  lemma InstructionRewritten(f: Fields, hash: string -> Json, g: Fields, key: string)
    requires CanonInstruction(f, hash) == Some(g)
    ensures HasSnakeName(f, g)
    ensures "accounts" in f ==> Get(g, "accounts") == Some(NormalizeAccounts(f["accounts"]))
    ensures "args" in f ==> "args" in g && ArgsRewritten(f["args"], g["args"])
    ensures "discriminator" in f ==> Get(g, "discriminator") == Some(f["discriminator"])
    ensures "discriminator" !in f && "name" in f && f["name"].Str? ==>
      Get(g, "discriminator") == Some(hash(ToSnake(f["name"].s)))
    ensures key !in {"name", "discriminator"} && key !in f ==> key !in g
    ensures key !in {"name", "accounts", "args", "discriminator"} ==> Get(g, key) == Get(f, key)
  {
    if "args" in f {
      ArgsAreRewritten(f["args"]);
    }
  }

  /** A list that Python cannot loop over is the only thing that fails. */
  lemma InstructionFailsIff(f: Fields, hash: string -> Json)
    ensures CanonInstruction(f, hash).None? <==> "args" in f && (f["args"].Null? || f["args"].Boolean? || f["args"].Number?)
  {
  }

  lemma DriftNamesAreSnake(hash: string -> Json)
    ensures NamesInSnake(f => CanonInstruction(f, hash))
  {
    var shape: Shape := f => CanonInstruction(f, hash);
    forall f: Fields | Named(f) && shape(f).Some?
      ensures Named(shape(f).value) && shape(f).value["name"].s == ToSnake(f["name"].s)
    {
      InstructionRewritten(f, hash, shape(f).value, "name");
    }
  }

  // ---- Lists of accounts ----

  /** A list of accounts keeps its length, and what is no dictionary in it; anything but a list is left alone. */
  lemma AccountsKeepPlaces(accounts: Json, i: nat)
    ensures accounts.List? ==>
      NormalizeAccounts(accounts).List? && |NormalizeAccounts(accounts).items| == |accounts.items|
    ensures accounts.List? && i < |accounts.items| && !accounts.items[i].Dict? ==>
      NormalizeAccounts(accounts).items[i] == accounts.items[i]
    ensures !accounts.List? ==> NormalizeAccounts(accounts) == accounts
  {
  }

  /** Nested accounts are normalised as such, and only where there are some. */
  lemma {:induction false} NestedAccountsAt(accounts: Json, places: seq<nat>, f: Fields, g: Fields)
    requires AccountAt(accounts, places) == Some(f) && AccountAt(NormalizeAccounts(accounts), places) == Some(g)
    ensures Get(g, "accounts") == if "accounts" in f then Some(NormalizeAccounts(f["accounts"])) else None
    decreases |places|
  {
    var here := accounts.items[places[0]].fields;
    assert NormalizeAccounts(accounts).items[places[0]] == Dict(Nested(here));
    NormalizeFlagsIdempotent(here);
    if |places| > 1 {
      NestedAccountsAt(here["accounts"], places[1..], f, g);
    }
  }
}
