/**
 Reducing an IDL to the instructions that are called and the types they need. Where the scripts
 raise a TypeError the model returns None.
 */
module IdlDistill {
  import opened Outcomes
  import opened IdlTypes
  import opened IdlRewriting
  import opened Reachability
  import opened SnakeCase

  // ---- Instructions ----

  /** Python's truth of a JSON value. */
  function Truthy(value: Json): bool {
    match value
    case Null => false
    case Boolean(b) => b
    case Number(n) => n != 0.0
    case Str(s) => s != ""
    case List(items) => items != []
    case Dict(fields) => fields != map[]
  }

  function SnakeName(f: Fields): Fields {
    if "name" in f && f["name"].Str? then f["name" := Str(ToSnake(f["name"].s))] else f
  }

  /** A legacy flag becomes its modern one, unless that is already there. */
  function Modernize(f: Fields, legacy: string, modern: string): Fields {
    if legacy in f && modern !in f then f[modern := Boolean(Truthy(f[legacy]))] else f
  }

  const LEGACY_FLAGS := {"isMut", "isSigner", "isOptional"}

  /** Everything about an account but the accounts nested in it. */
  function NormalizeFlags(f: Fields): Fields {
    Modernize(Modernize(Modernize(SnakeName(f), "isMut", "writable"), "isSigner", "signer"), "isOptional", "optional")
      - LEGACY_FLAGS
  }

  function NormalizeAccount(account: Json): Json
    decreases account, 1
  {
    if !account.Dict? then account
    else
      var f := NormalizeFlags(account.fields);
      Dict(if "accounts" in account.fields then f["accounts" := NormalizeAccounts(account.fields["accounts"])] else f)
  }

  function NormalizeAccounts(accounts: Json): Json
    decreases accounts, 0
  {
    if accounts.List?
    then List(seq(|accounts.items|, i requires 0 <= i < |accounts.items| => NormalizeAccount(accounts.items[i])))
    else accounts
  }

  function CanonArg(arg: Json): Json {
    if arg.Dict? then Dict(CanonAt(SnakeName(arg.fields), "type", CanonSpec)) else arg
  }

  /** A loop over a JSON value: strings and dictionaries only yield strings, which every loop skips. */
  predicate Iterable(value: Json) {
    value.List? || value.Str? || value.Dict?
  }

  function CanonArgs(args: Json): Json {
    if args.List? then List(seq(|args.items|, i requires 0 <= i < |args.items| => CanonArg(args.items[i]))) else args
  }

  /** `hash` is the discriminator of a name: the first bytes of a digest. */
  function AddDiscriminator(f: Fields, hash: string -> Json): Fields {
    if "discriminator" !in f && "name" in f && f["name"].Str? then f["discriminator" := hash(f["name"].s)] else f
  }

  function CanonInstruction(f: Fields, hash: string -> Json): Option<Fields> {
    if "args" in f && !Iterable(f["args"]) then None
    else
      Some(AddDiscriminator(CanonAt(CanonAt(SnakeName(f), "accounts", NormalizeAccounts), "args", CanonArgs), hash))
  }

  // ---- The loops over accounts and arguments ----

  /** Renames every account, modernises its flags, and does the same to the accounts nested in it. */
  method NormalizeAccountNames(accounts: Json) returns (result: Json)
    ensures result == NormalizeAccounts(accounts)
    decreases accounts
  {
    if !accounts.List? {
      return accounts;
    }
    var items := accounts.items;
    for i := 0 to |items|
      invariant |items| == |accounts.items|
      invariant forall k | 0 <= k < |items| ::
        items[k] == if k < i then NormalizeAccount(accounts.items[k]) else accounts.items[k]
    {
      var account := accounts.items[i];
      if !account.Dict? {
        continue;
      }
      var f := NormalizeFlags(account.fields);
      if "accounts" in account.fields {
        var nested := NormalizeAccountNames(account.fields["accounts"]);
        f := f["accounts" := nested];
      }
      items := items[i := Dict(f)];
    }
    return List(items);
  }

  method CanonicalizeArgs(args: Json) returns (result: Json)
    ensures result == CanonArgs(args)
  {
    if !args.List? {
      return args;
    }
    var items := args.items;
    for i := 0 to |items|
      invariant |items| == |args.items|
      invariant forall k | 0 <= k < |items| :: items[k] == if k < i then CanonArg(args.items[k]) else args.items[k]
    {
      var arg := args.items[i];
      if arg.Dict? {
        var f := SnakeName(arg.fields);
        if "type" in f {
          var spec := CanonicalizeTypeSpec(f["type"]);
          f := f["type" := spec];
        }
        items := items[i := Dict(f)];
      }
    }
    return List(items);
  }

  /** Name, accounts, arguments and discriminator, one after the other; None is a TypeError. */
  method CanonicalizeInstructionShape(instruction: Fields, hash: string -> Json) returns (result: Option<Fields>)
    ensures result == CanonInstruction(instruction, hash)
  {
    var f := SnakeName(instruction);
    if "accounts" in f {
      var accounts := NormalizeAccountNames(f["accounts"]);
      f := f["accounts" := accounts];
    }
    if "args" in f {
      if !Iterable(f["args"]) {
        return None;
      }
      var args := CanonicalizeArgs(f["args"]);
      f := f["args" := args];
    }
    return Some(AddDiscriminator(f, hash));
  }

  lemma SnakeNameIdempotent(f: Fields)
    ensures SnakeName(SnakeName(f)) == SnakeName(f)
  {
    if "name" in f && f["name"].Str? {
      SnakeIdempotent(f["name"].s);
    }
  }

  lemma NormalizeFlagsIdempotent(f: Fields)
    ensures NormalizeFlags(NormalizeFlags(f)) == NormalizeFlags(f)
    ensures "accounts" in NormalizeFlags(f) <==> "accounts" in f
    ensures "accounts" in f ==> NormalizeFlags(f)["accounts"] == f["accounts"]
  {
    var g := NormalizeFlags(f);
    forall key
      ensures Get(NormalizeFlags(g), key) == Get(g, key)
    {
      FlagsSettle(f, key);
    }
    GetDetermines(NormalizeFlags(g), g);
    NormalizeFlagsExact(f, "accounts");
  }

  lemma FlagsSettle(f: Fields, key: string)
    ensures Get(NormalizeFlags(NormalizeFlags(f)), key) == Get(NormalizeFlags(f), key)
  {
    var g := NormalizeFlags(f);
    NormalizeFlagsExact(f, key);
    NormalizeFlagsExact(g, key);
    NormalizeFlagsExact(f, "isMut");
    NormalizeFlagsExact(f, "isSigner");
    NormalizeFlagsExact(f, "isOptional");
    if key == "name" && Named(g) {
      NormalizeFlagsExact(f, "name");
      SnakeNameSettles(f, g);
    }
  }

  lemma SnakeNameSettles(f: Fields, g: Fields)
    requires Named(g) && Get(g, "name") == if Named(f) then Some(Str(ToSnake(f["name"].s))) else Get(f, "name")
    ensures ToSnake(g["name"].s) == g["name"].s
  {
    if Named(f) {
      SnakeIdempotent(f["name"].s);
    }
  }

  lemma GetDetermines(f: Fields, g: Fields)
    requires forall key :: Get(f, key) == Get(g, key)
    ensures f == g
  {
    forall key
      ensures (key in f <==> key in g) && (key in f ==> f[key] == g[key])
    {
      assert Get(f, key) == Get(g, key);
    }
  }

  /** What a modern flag says: what it said before, else the truth of the legacy flag, else nothing. */
  function FlagAfter(f: Fields, legacy: string, modern: string): Option<Json> {
    if modern in f then Some(f[modern])
    else if legacy in f then Some(Boolean(Truthy(f[legacy])))
    else None
  }

  function Get(f: Fields, key: string): Option<Json> {
    if key in f then Some(f[key]) else None
  }

  /** Every legacy flag is gone, every modern one says what it should, and other keys but the name are untouched. */
  lemma NormalizeFlagsExact(f: Fields, key: string)
    ensures Get(NormalizeFlags(f), key) ==
      if key in LEGACY_FLAGS then None
      else if key == "writable" then FlagAfter(f, "isMut", "writable")
      else if key == "signer" then FlagAfter(f, "isSigner", "signer")
      else if key == "optional" then FlagAfter(f, "isOptional", "optional")
      else if key == "name" && Named(f) then Some(Str(ToSnake(f["name"].s)))
      else Get(f, key)
  {
  }

  lemma {:induction false} NormalizeAccountIdempotent(account: Json)
    ensures NormalizeAccount(NormalizeAccount(account)) == NormalizeAccount(account)
    decreases account, 1
  {
    if account.Dict? {
      var f := account.fields;
      NormalizeFlagsIdempotent(f);
      if "accounts" in f {
        NormalizeAccountsIdempotent(f["accounts"]);
        NormalizeFlagsOfUpdate(NormalizeFlags(f), NormalizeAccounts(f["accounts"]));
      }
    }
  }

  /** The nested accounts play no part in the flags. */
  lemma NormalizeFlagsOfUpdate(f: Fields, value: Json)
    requires NormalizeFlags(f) == f
    ensures NormalizeFlags(f["accounts" := value]) == f["accounts" := value]
  {
  }

  lemma {:induction false} NormalizeAccountsIdempotent(accounts: Json)
    ensures NormalizeAccounts(NormalizeAccounts(accounts)) == NormalizeAccounts(accounts)
    decreases accounts, 0
  {
    if accounts.List? {
      forall i | 0 <= i < |accounts.items|
        ensures NormalizeAccount(NormalizeAccount(accounts.items[i])) == NormalizeAccount(accounts.items[i])
      {
        NormalizeAccountIdempotent(accounts.items[i]);
      }
    }
  }

  lemma CanonArgsIdempotent(args: Json)
    ensures CanonArgs(CanonArgs(args)) == CanonArgs(args)
  {
    if args.List? {
      forall i | 0 <= i < |args.items|
        ensures CanonArg(CanonArg(args.items[i])) == CanonArg(args.items[i])
      {
        CanonArgIdempotent(args.items[i]);
      }
    }
  }

  lemma CanonArgIdempotent(arg: Json)
    ensures CanonArg(CanonArg(arg)) == CanonArg(arg)
  {
    if arg.Dict? {
      var f := SnakeName(arg.fields);
      SnakeNameIdempotent(arg.fields);
      if "type" in f {
        CanonSpecIdempotent(f["type"]);
        assert SnakeName(f["type" := CanonSpec(f["type"])]) == f["type" := CanonSpec(f["type"])];
      }
    }
  }

  /** Canonicalising an instruction twice is canonicalising it once, and its name is in snake case. */
  lemma CanonInstructionIdempotent(f: Fields, hash: string -> Json)
    requires "name" in f && f["name"].Str? && CanonInstruction(f, hash).Some?
    ensures var g := CanonInstruction(f, hash).value;
      && CanonInstruction(g, hash) == Some(g)
      && "name" in g && g["name"] == Str(ToSnake(f["name"].s)) && ToSnake(g["name"].s) == g["name"].s
      && ("accounts" in g <==> "accounts" in f)
      && ("accounts" in f ==> g["accounts"] == NormalizeAccounts(f["accounts"]))
  {
    var g := CanonInstruction(f, hash).value;
    SnakeIdempotent(f["name"].s);
    if "accounts" in f {
      NormalizeAccountsIdempotent(f["accounts"]);
    }
    if "args" in f {
      CanonArgsIdempotent(f["args"]);
      assert g["args"] == CanonArgs(f["args"]);
    }
    assert "discriminator" in g;
    assert SnakeName(g) == g;
    assert CanonAt(g, "accounts", NormalizeAccounts) == g;
    assert CanonAt(g, "args", CanonArgs) == g;
  }

  // ---- Selecting instructions ----

  /** What is done to a copy of a kept instruction; None is a TypeError. */
  type Shape = Fields -> Option<Fields>

  predicate Named(f: Fields) {
    "name" in f && f["name"].Str?
  }

  predicate IsKept(ix: Json, keep: set<string>) {
    ix.Dict? && Named(ix.fields) && ToSnake(ix.fields["name"].s) in keep
  }

  function SelectFrom(items: seq<Json>, keep: set<string>, shape: Shape): Option<seq<Json>> {
    if items == [] then Some([])
    else SelectNext(SelectFrom(items[..|items| - 1], keep, shape), items[|items| - 1], keep, shape)
  }

  function SelectNext(selected: Option<seq<Json>>, ix: Json, keep: set<string>, shape: Shape): Option<seq<Json>> {
    if selected.None? then None
    else if !IsKept(ix, keep) then selected
    else if shape(ix.fields).None? then None
    else Some(selected.value + [Dict(shape(ix.fields).value)])
  }

  /** The instructions of an IDL; a missing entry is an empty list, a number or null cannot be looped over. */
  function InstructionsOf(idl: Fields): Option<seq<Json>> {
    if "instructions" !in idl then Some([])
    else if idl["instructions"].List? then Some(idl["instructions"].items)
    else if Iterable(idl["instructions"]) then Some([])
    else None
  }

  lemma {:induction false} SelectFailsForGood(items: seq<Json>, i: nat, keep: set<string>, shape: Shape)
    requires i <= |items| && SelectFrom(items[..i], keep, shape).None?
    ensures SelectFrom(items, keep, shape).None?
  {
    if i < |items| {
      assert items[..|items| - 1][..i] == items[..i];
      SelectFailsForGood(items[..|items| - 1], i, keep, shape);
    } else {
      assert items[..i] == items;
    }
  }

  method SelectInstructions(idl: Fields, keep: set<string>, shape: Shape) returns (result: Option<seq<Json>>)
    ensures result == var items := InstructionsOf(idl); if items.None? then None else SelectFrom(items.value, keep, shape)
  {
    var items := InstructionsOf(idl);
    if items.None? {
      return None;
    }
    var selected := [];
    for i := 0 to |items.value|
      invariant SelectFrom(items.value[..i], keep, shape) == Some(selected)
    {
      var ix := items.value[i];
      assert items.value[..i + 1][..i] == items.value[..i];
      if !IsKept(ix, keep) {
        continue;
      }
      var shaped := shape(ix.fields);
      if shaped.None? {
        SelectFailsForGood(items.value, i + 1, keep, shape);
        return None;
      }
      selected := selected + [Dict(shaped.value)];
    }
    assert items.value[..|items.value|] == items.value;
    return Some(selected);
  }

  // ---- Pruning types ----

  /** The name under which a definition is indexed. */
  function NameOf(def: Json): Option<string> {
    if def.Dict? && Named(def.fields) then Some(def.fields["name"].s) else None
  }

  /** Definitions by name; of two with the same name the later one counts. */
  function ByName(items: seq<Json>): map<string, Fields> {
    if items == [] then map[]
    else
      var n := |items| - 1;
      var front := ByName(items[..n]);
      if NameOf(items[n]).Some? then front[NameOf(items[n]).value := items[n].fields] else front
  }

  function OrderedNames(items: seq<Json>): seq<string> {
    if items == [] then []
    else
      var n := |items| - 1;
      OrderedNames(items[..n]) + if NameOf(items[n]).Some? then [NameOf(items[n]).value] else []
  }

  function Filter(names: seq<string>, needed: set<string>): seq<string> {
    if names == [] then []
    else
      var n := |names| - 1;
      Filter(names[..n], needed) + if names[n] in needed then [names[n]] else []
  }

  function ArgMentions(arg: Json): set<string> {
    if arg.Dict? && "type" in arg.fields then Mentions(arg.fields["type"]) else {}
  }

  function InstructionMentions(ix: Json): set<string> {
    if ix.Dict? && "args" in ix.fields && ix.fields["args"].List? then
      var args := ix.fields["args"].items;
      Union(seq(|args|, i requires 0 <= i < |args| => ArgMentions(args[i])))
    else {}
  }

  function RootsOf(selected: seq<Json>): set<string> {
    Union(seq(|selected|, i requires 0 <= i < |selected| => InstructionMentions(selected[i])))
  }

  function GraphOf(byName: map<string, Fields>): Graph {
    map name | name in byName :: TypeDependencies(byName[name])
  }

  function CanonDefs(names: seq<string>, byName: map<string, Fields>): seq<Json>
    requires forall name | name in names :: name in byName
  {
    seq(|names|, i requires 0 <= i < |names| => Dict(CanonTypeDef(byName[names[i]])))
  }

  function TypesOf(idl: Fields): seq<Json> {
    if "types" in idl && idl["types"].List? then idl["types"].items else []
  }

  ghost function Needed(items: seq<Json>, selected: seq<Json>): set<string> {
    Closure(GraphOf(ByName(items)), RootsOf(selected))
  }

  /** The definitions that the selected instructions reach, in input order, rewritten. */
  ghost function PrunedTypes(items: seq<Json>, selected: seq<Json>): seq<Json> {
    NamesAreDefined(items, Needed(items, selected));
    CanonDefs(Filter(OrderedNames(items), Needed(items, selected)), ByName(items))
  }

  lemma {:induction false} FilterSubset(names: seq<string>, needed: set<string>)
    ensures forall name :: name in Filter(names, needed) <==> name in names && name in needed
  {
    if names != [] {
      FilterSubset(names[..|names| - 1], needed);
      assert names == names[..|names| - 1] + [names[|names| - 1]];
    }
  }

  lemma {:induction false} OrderedNamesAreKeys(items: seq<Json>)
    ensures forall name :: name in OrderedNames(items) <==> name in ByName(items)
    ensures forall name | name in ByName(items) :: Named(ByName(items)[name]) && ByName(items)[name]["name"] == Str(name)
  {
    if items != [] {
      OrderedNamesAreKeys(items[..|items| - 1]);
    }
  }

  lemma NamesAreDefined(items: seq<Json>, needed: set<string>)
    ensures forall name | name in Filter(OrderedNames(items), needed) :: name in ByName(items)
  {
    FilterSubset(OrderedNames(items), needed);
    OrderedNamesAreKeys(items);
  }

  method CollectFromArgs(ix: Json, before: set<string>) returns (out: set<string>)
    ensures out == before + InstructionMentions(ix)
  {
    out := before;
    if !ix.Dict? || "args" !in ix.fields || !ix.fields["args"].List? {
      return;
    }
    var args := ix.fields["args"].items;
    ghost var sets := seq(|args|, i requires 0 <= i < |args| => ArgMentions(args[i]));
    for i := 0 to |args|
      invariant out == before + Union(sets[..i])
    {
      UnionOneMore(sets, i);
      if args[i].Dict? && "type" in args[i].fields {
        out := CollectFromTypeSpec(args[i].fields["type"], out);
      }
    }
    assert sets[..|args|] == sets;
    assert sets == seq(|args|, i requires 0 <= i < |args| => ArgMentions(args[i]));
  }

  /** The types that the arguments of the selected instructions mention. */
  method CollectRoots(selected: seq<Json>) returns (needed: set<string>)
    ensures needed == RootsOf(selected)
  {
    needed := {};
    ghost var sets := seq(|selected|, i requires 0 <= i < |selected| => InstructionMentions(selected[i]));
    for i := 0 to |selected|
      invariant needed == Union(sets[..i])
    {
      UnionOneMore(sets, i);
      needed := CollectFromArgs(selected[i], needed);
    }
    assert sets[..|selected|] == sets;
    assert sets == seq(|selected|, i requires 0 <= i < |selected| => InstructionMentions(selected[i]));
  }

  /**
   The worklist: names are taken off its end, and the dependencies not seen before are put on it.
   It ends on cyclic type graphs too, because every name is put on it once.
   */
  method Saturate(byName: map<string, Fields>, roots: set<string>) returns (needed: set<string>)
    ensures needed == Closure(GraphOf(byName), roots)
  {
    ghost var graph := GraphOf(byName);
    ClosureIsLeast(graph, roots);
    needed := SaturateWithin(byName, roots, graph, Closure(graph, roots));
    LeastClosedIsClosure(graph, roots, needed);
  }

  method SaturateWithin(byName: map<string, Fields>, roots: set<string>, ghost graph: Graph, ghost all: set<string>)
    returns (needed: set<string>)
    requires graph == GraphOf(byName)
    requires roots <= all && Closed(graph, all)
    ensures roots <= needed <= all && Closed(graph, needed)
  {
    needed := roots;
    var queue := SetToSeq(roots);
    while queue != []
      invariant roots <= needed <= all
      invariant Frontier(graph, needed, queue)
      decreases Missing(all, needed), |queue|
    {
      var last := |queue| - 1;
      var name, waiting := queue[last], queue[..last];
      assert queue == waiting + [name];
      ghost var before := needed;
      Progress(graph, all, needed, name);
      var deps := DependenciesOf(byName, name);
      needed, queue := AddNew(deps, needed, waiting);
      FrontierStep(graph, before, waiting, name, needed, queue);
    }
  }

  /** A name that is not defined has none. */
  method DependenciesOf(byName: map<string, Fields>, name: string) returns (deps: set<string>)
    ensures deps == Deps(GraphOf(byName), name)
  {
    deps := {};
    if name in byName {
      deps := CollectTypeDependencies(byName[name], deps);
    }
  }

  /** Index, saturate, filter, rewrite: the loops of the script. */
  method PruneTypes(idl: Fields, selected: seq<Json>) returns (kept: seq<Json>)
    ensures kept == PrunedTypes(TypesOf(idl), selected)
  {
    var items := TypesOf(idl);
    var byName: map<string, Fields>, orderedNames: seq<string> := map[], [];
    for i := 0 to |items|
      invariant byName == ByName(items[..i]) && orderedNames == OrderedNames(items[..i])
    {
      assert items[..i + 1][..i] == items[..i];
      var name := NameOf(items[i]);
      if name.Some? {
        byName := byName[name.value := items[i].fields];
        orderedNames := orderedNames + [name.value];
      }
    }
    assert items[..|items|] == items;
    var roots := CollectRoots(selected);
    var needed := Saturate(byName, roots);
    var names := KeepNeeded(orderedNames, needed);
    NamesAreDefined(items, needed);
    kept := CanonicalizeDefs(names, byName);
  }

  method KeepNeeded(orderedNames: seq<string>, needed: set<string>) returns (names: seq<string>)
    ensures names == Filter(orderedNames, needed)
  {
    names := [];
    for i := 0 to |orderedNames|
      invariant names == Filter(orderedNames[..i], needed)
    {
      assert orderedNames[..i + 1][..i] == orderedNames[..i];
      if orderedNames[i] in needed {
        names := names + [orderedNames[i]];
      }
    }
    assert orderedNames[..|orderedNames|] == orderedNames;
  }

  method CanonicalizeDefs(names: seq<string>, byName: map<string, Fields>) returns (kept: seq<Json>)
    requires forall name | name in names :: name in byName
    ensures kept == CanonDefs(names, byName)
  {
    kept := [];
    for i := 0 to |names|
      invariant kept == CanonDefs(names, byName)[..i]
    {
      assert names[i] in names;
      var def := CanonicalizeTypeDef(byName[names[i]]);
      kept := kept + [Dict(def)];
    }
  }

  /**
   What survives is what is defined and reached from the arguments of the kept instructions, in
   input order, each as its last definition rewritten.
   */
  lemma PrunedTypesExact(items: seq<Json>, selected: seq<Json>)
    ensures var pruned, graph := PrunedTypes(items, selected), GraphOf(ByName(items));
      var order := Filter(OrderedNames(items), Needed(items, selected));
      && |pruned| == |order|
      && (forall i | 0 <= i < |order| ::
            order[i] in ByName(items) && pruned[i] == Dict(CanonTypeDef(ByName(items)[order[i]]))
            && NameOf(pruned[i]) == Some(order[i]))
      && (forall name :: name in order <==> name in ByName(items) && Reachable(graph, RootsOf(selected), name))
  {
    var order := Filter(OrderedNames(items), Needed(items, selected));
    NamesAreDefined(items, Needed(items, selected));
    FilterSubset(OrderedNames(items), Needed(items, selected));
    OrderedNamesAreKeys(items);
    forall i | 0 <= i < |order|
      ensures order[i] in ByName(items) && NameOf(PrunedTypes(items, selected)[i]) == Some(order[i])
    {
      assert order[i] in order;
      CanonTypeDefLaws(ByName(items)[order[i]]);
    }
    forall name | Reachable(GraphOf(ByName(items)), RootsOf(selected), name)
      ensures name in Needed(items, selected)
    {
      ReachableInUniverse(GraphOf(ByName(items)), RootsOf(selected), name);
    }
  }

  /** The kept definitions mention no defined type that was dropped. */
  lemma PrunedTypesClosed(items: seq<Json>, selected: seq<Json>, name: string, dep: string)
    requires name in Filter(OrderedNames(items), Needed(items, selected))
    requires name in ByName(items) && dep in TypeDependencies(CanonTypeDef(ByName(items)[name])) && dep in ByName(items)
    ensures dep in Filter(OrderedNames(items), Needed(items, selected))
  {
    var graph := GraphOf(ByName(items));
    FilterSubset(OrderedNames(items), Needed(items, selected));
    OrderedNamesAreKeys(items);
    ClosureIsLeast(graph, RootsOf(selected));
    CanonTypeDefLaws(ByName(items)[name]);
    assert dep in Deps(graph, name);
  }

  /** Canonicalising an instruction does not change which types its arguments mention. */
  lemma CanonInstructionKeepsMentions(f: Fields, hash: string -> Json)
    requires CanonInstruction(f, hash).Some?
    ensures InstructionMentions(Dict(CanonInstruction(f, hash).value)) == InstructionMentions(Dict(f))
  {
    var g := CanonInstruction(f, hash).value;
    if "args" in f && f["args"].List? {
      var args, args' := f["args"].items, g["args"].items;
      assert g["args"] == CanonArgs(f["args"]);
      forall i | 0 <= i < |args|
        ensures ArgMentions(args'[i]) == ArgMentions(args[i])
      {
        CanonArgKeepsMentions(args[i]);
      }
      assert seq(|args'|, i requires 0 <= i < |args'| => ArgMentions(args'[i]))
          == seq(|args|, i requires 0 <= i < |args| => ArgMentions(args[i]));
    }
  }

  lemma CanonArgKeepsMentions(arg: Json)
    ensures ArgMentions(CanonArg(arg)) == ArgMentions(arg)
  {
    if arg.Dict? && "type" in arg.fields {
      CanonSpecKeepsMentions(arg.fields["type"]);
    }
  }

  function DiscriminatorOf(f: Fields, hash: string -> Json): Json
    requires Named(f)
  {
    if "discriminator" in f then f["discriminator"] else hash(ToSnake(f["name"].s))
  }

  /** A discriminator that is there stays; otherwise it is that of the snake-case name. */
  lemma DiscriminatorExact(f: Fields, hash: string -> Json)
    requires Named(f) && CanonInstruction(f, hash).Some?
    ensures Get(CanonInstruction(f, hash).value, "discriminator") == Some(DiscriminatorOf(f, hash))
  {
  }

  // ---- The whole pipeline ----

  function Assemble(idl: Fields, selected: seq<Json>, types: seq<Json>, dropAccounts: bool): Fields {
    var out := idl["instructions" := List(selected)]["types" := List(types)];
    (if dropAccounts then out["accounts" := List([])] else out)["events" := List([])]
  }

  ghost function Distilled(idl: Fields, keep: set<string>, dropAccounts: bool, shape: Shape): Option<Fields> {
    var items := InstructionsOf(idl);
    if items.None? then None
    else
      var selected := SelectFrom(items.value, keep, shape);
      if selected.None? then None
      else Some(Assemble(idl, selected.value, PrunedTypes(TypesOf(idl), selected.value), dropAccounts))
  }

  method DistillIdl(idl: Fields, keep: set<string>, dropAccounts: bool, shape: Shape) returns (out: Option<Fields>)
    ensures out == Distilled(idl, keep, dropAccounts, shape)
  {
    var selected := SelectInstructions(idl, keep, shape);
    if selected.None? {
      return None;
    }
    var distilled := idl["instructions" := List(selected.value)];
    assert TypesOf(distilled) == TypesOf(idl);
    var types := PruneTypes(distilled, selected.value);
    distilled := distilled["types" := List(types)];
    if dropAccounts {
      distilled := distilled["accounts" := List([])];
    }
    distilled := distilled["events" := List([])];
    return Some(distilled);
  }

  // ---- Distilling twice ----

  /** The shapes give an instruction its snake-case name and keep nothing else of it. */
  ghost predicate NamesInSnake(shape: Shape) {
    forall f: Fields | Named(f) && shape(f).Some? ::
      Named(shape(f).value) && shape(f).value["name"].s == ToSnake(f["name"].s)
  }

  ghost predicate AllKept(items: seq<Json>, keep: set<string>) {
    forall i | 0 <= i < |items| :: IsKept(items[i], keep)
  }

  ghost predicate IsFixed(ix: Json, shape: Shape) {
    ix.Dict? && shape(ix.fields) == Some(ix.fields)
  }

  ghost predicate AllFixed(items: seq<Json>, shape: Shape) {
    forall i | 0 <= i < |items| :: IsFixed(items[i], shape)
  }

  lemma {:induction false} SelectedAreKept(items: seq<Json>, keep: set<string>, shape: Shape)
    requires NamesInSnake(shape) && SelectFrom(items, keep, shape).Some?
    ensures AllKept(SelectFrom(items, keep, shape).value, keep)
  {
    if items != [] {
      var n := |items| - 1;
      SelectedAreKept(items[..n], keep, shape);
      if IsKept(items[n], keep) {
        SnakeIdempotent(items[n].fields["name"].s);
      }
    }
  }

  /** Selecting again gives the same instructions exactly when the shape leaves every one of them alone. */
  lemma {:induction false} SelectAgainIff(items: seq<Json>, keep: set<string>, shape: Shape)
    requires AllKept(items, keep)
    ensures SelectFrom(items, keep, shape) == Some(items) <==> AllFixed(items, shape)
    ensures SelectFrom(items, keep, shape).Some? ==> |SelectFrom(items, keep, shape).value| == |items|
  {
    if items != [] {
      var front, last := items[..|items| - 1], items[|items| - 1];
      assert items == front + [last];
      FrontIsKept(front, last, keep);
      SelectAgainIff(front, keep, shape);
      SelectNextIff(SelectFrom(front, keep, shape), front, last, keep, shape);
      FixedOneMore(front, last, shape);
    }
  }

  lemma FrontIsKept(front: seq<Json>, last: Json, keep: set<string>)
    requires AllKept(front + [last], keep)
    ensures AllKept(front, keep) && IsKept(last, keep)
  {
    assert (front + [last])[|front|] == last;
    assert forall i | 0 <= i < |front| :: (front + [last])[i] == front[i];
  }

  lemma FixedOneMore(front: seq<Json>, last: Json, shape: Shape)
    ensures AllFixed(front + [last], shape) <==> AllFixed(front, shape) && IsFixed(last, shape)
  {
    assert (front + [last])[|front|] == last;
    assert forall i | 0 <= i < |front| :: (front + [last])[i] == front[i];
  }

  lemma SelectNextIff(selected: Option<seq<Json>>, front: seq<Json>, last: Json, keep: set<string>, shape: Shape)
    requires IsKept(last, keep)
    requires selected.Some? ==> |selected.value| == |front|
    ensures SelectNext(selected, last, keep, shape) == Some(front + [last])
       <==> selected == Some(front) && IsFixed(last, shape)
    ensures var next := SelectNext(selected, last, keep, shape); next.Some? ==> |next.value| == |front| + 1
  {
    if SelectNext(selected, last, keep, shape) == Some(front + [last]) {
      var g := Dict(shape(last.fields).value);
      assert selected.value == (selected.value + [g])[..|front|] == (front + [last])[..|front|] == front;
      assert g == (selected.value + [g])[|front|] == last;
    }
  }

  /** Pruning what was pruned changes nothing. */
  lemma PruneTwice(items: seq<Json>, selected: seq<Json>)
    ensures PrunedTypes(PrunedTypes(items, selected), selected) == PrunedTypes(items, selected)
  {
    var pruned, needed := PrunedTypes(items, selected), Needed(items, selected);
    var order := Filter(OrderedNames(items), needed);
    NeededOfPruned(items, selected);
    PrunedIndex(items, selected);
    FilterSubset(OrderedNames(items), needed);
    FilterAll(order, needed);
    NamesAreDefined(items, needed);
    NamesAreDefined(pruned, needed);
    RewriteTwice(order, ByName(items), ByName(pruned));
  }

  /** The pruned definitions need the same names. */
  lemma NeededOfPruned(items: seq<Json>, selected: seq<Json>)
    ensures Needed(PrunedTypes(items, selected), selected) == Needed(items, selected)
  {
    var byName, byName' := ByName(items), ByName(PrunedTypes(items, selected));
    PrunedIndex(items, selected);
    forall name | name in Needed(items, selected)
      ensures Deps(GraphOf(byName'), name) == Deps(GraphOf(byName), name)
    {
      if name in byName {
        CanonTypeDefLaws(byName[name]);
      }
    }
    ClosureOfRestriction(GraphOf(byName), RootsOf(selected), GraphOf(byName'));
  }

  lemma RewriteTwice(names: seq<string>, byName: map<string, Fields>, byName': map<string, Fields>)
    requires forall name | name in names ::
               name in byName && name in byName' && byName'[name] == CanonTypeDef(byName[name])
    ensures CanonDefs(names, byName') == CanonDefs(names, byName)
  {
    forall i | 0 <= i < |names|
      ensures CanonTypeDef(byName'[names[i]]) == CanonTypeDef(byName[names[i]])
    {
      assert names[i] in names;
      CanonTypeDefLaws(byName[names[i]]);
    }
  }

  lemma {:induction false} FilterAll(names: seq<string>, needed: set<string>)
    requires forall name | name in names :: name in needed
    ensures Filter(names, needed) == names
  {
    if names != [] {
      var n := |names| - 1;
      FilterAll(names[..n], needed);
      assert names == names[..n] + [names[n]];
    }
  }

  /** The pruned definitions index as the rewritten needed ones, under the same names in the same order. */
  lemma PrunedIndex(items: seq<Json>, selected: seq<Json>)
    ensures var pruned, needed, byName := PrunedTypes(items, selected), Needed(items, selected), ByName(items);
      && OrderedNames(pruned) == Filter(OrderedNames(items), needed)
      && ByName(pruned) == map name | name in byName && name in needed :: CanonTypeDef(byName[name])
  {
    var needed, byName := Needed(items, selected), ByName(items);
    var order := Filter(OrderedNames(items), needed);
    NamesAreDefined(items, needed);
    FilterSubset(OrderedNames(items), needed);
    OrderedNamesAreKeys(items);
    IndexOfDefs(order, byName);
    assert PrunedTypes(items, selected) == CanonDefs(order, byName);
  }

  lemma {:induction false} IndexOfDefs(names: seq<string>, byName: map<string, Fields>)
    requires forall name | name in names ::
               name in byName && Named(byName[name]) && byName[name]["name"] == Str(name)
    ensures OrderedNames(CanonDefs(names, byName)) == names
    ensures ByName(CanonDefs(names, byName)) == map name | name in names :: CanonTypeDef(byName[name])
  {
    if names != [] {
      var n := |names| - 1;
      IndexOfDefs(names[..n], byName);
      LastDef(names, byName);
      IndexOneMore(names, byName);
    }
  }

  lemma LastDef(names: seq<string>, byName: map<string, Fields>)
    requires names != [] && forall name | name in names ::
               name in byName && Named(byName[name]) && byName[name]["name"] == Str(name)
    ensures var n, defs := |names| - 1, CanonDefs(names, byName);
      && defs[..n] == CanonDefs(names[..n], byName)
      && defs[n] == Dict(CanonTypeDef(byName[names[n]])) && NameOf(defs[n]) == Some(names[n])
  {
    var n := |names| - 1;
    assert names[n] in names;
    CanonTypeDefLaws(byName[names[n]]);
  }

  lemma IndexOneMore(names: seq<string>, byName: map<string, Fields>)
    requires names != [] && forall name | name in names :: name in byName
    ensures var n := |names| - 1;
      (map name | name in names[..n] :: CanonTypeDef(byName[name]))[names[n] := CanonTypeDef(byName[names[n]])]
        == map name | name in names :: CanonTypeDef(byName[name])
    ensures names == names[..|names| - 1] + [names[|names| - 1]]
  {
    var n := |names| - 1;
    assert forall name :: name in names <==> name in names[..n] || name == names[n];
  }

  ghost predicate DistillsToItself(idl: Fields, keep: set<string>, dropAccounts: bool, shape: Shape) {
    Distilled(idl, keep, dropAccounts, shape) == Some(idl)
  }

  lemma AssembledParts(idl: Fields, selected: seq<Json>, types: seq<Json>, dropAccounts: bool)
    ensures var out := Assemble(idl, selected, types, dropAccounts);
      && InstructionsOf(out) == Some(selected) && TypesOf(out) == types
      && Assemble(out, selected, types, dropAccounts) == out
  {
  }

  /** Distilling twice is distilling once exactly when the shape leaves every selected instruction alone. */
  lemma DistillTwiceIff(idl: Fields, keep: set<string>, dropAccounts: bool, shape: Shape)
    requires NamesInSnake(shape) && Distilled(idl, keep, dropAccounts, shape).Some?
    ensures DistillsToItself(Distilled(idl, keep, dropAccounts, shape).value, keep, dropAccounts, shape)
       <==> AllFixed(SelectFrom(InstructionsOf(idl).value, keep, shape).value, shape)
  {
    var out := Distilled(idl, keep, dropAccounts, shape).value;
    var selected := SelectFrom(InstructionsOf(idl).value, keep, shape).value;
    var pruned := PrunedTypes(TypesOf(idl), selected);
    SelectedAreKept(InstructionsOf(idl).value, keep, shape);
    SelectAgainIff(selected, keep, shape);
    AssembledParts(idl, selected, pruned, dropAccounts);
    PruneTwice(TypesOf(idl), selected);
    var again := SelectFrom(selected, keep, shape);
    if again.Some? {
      AssembledParts(out, again.value, PrunedTypes(pruned, again.value), dropAccounts);
    }
  }

  lemma {:induction false} SelectedAreShaped(items: seq<Json>, keep: set<string>, shape: Shape)
    requires SelectFrom(items, keep, shape).Some?
    ensures forall g | g in SelectFrom(items, keep, shape).value ::
              exists ix :: ix in items && IsKept(ix, keep) && shape(ix.fields).Some? && g == Dict(shape(ix.fields).value)
    ensures forall ix | ix in items && IsKept(ix, keep) ::
              shape(ix.fields).Some? && Dict(shape(ix.fields).value) in SelectFrom(items, keep, shape).value
  {
    if items != [] {
      var n := |items| - 1;
      SelectedAreShaped(items[..n], keep, shape);
      assert forall ix :: ix in items <==> ix in items[..n] || ix == items[n];
    }
  }

  /** Every instruction that comes out has the discriminator it came with, or that of its name. */
  lemma OutputDiscriminators(items: seq<Json>, keep: set<string>, hash: string -> Json, g: Json)
    requires SelectFrom(items, keep, f => CanonInstruction(f, hash)).Some?
    requires g in SelectFrom(items, keep, f => CanonInstruction(f, hash)).value
    ensures exists ix :: ix in items && IsKept(ix, keep) && g.Dict?
                    && Get(g.fields, "discriminator") == Some(DiscriminatorOf(ix.fields, hash))
  {
    var shape: Shape := f => CanonInstruction(f, hash);
    SelectedAreShaped(items, keep, shape);
    var ix :| ix in items && IsKept(ix, keep) && shape(ix.fields).Some? && g == Dict(shape(ix.fields).value);
    DiscriminatorExact(ix.fields, hash);
  }

  /** The Drift and JupLend script is idempotent. */
  lemma DistillIdempotent(idl: Fields, keep: set<string>, dropAccounts: bool, hash: string -> Json)
    requires Distilled(idl, keep, dropAccounts, f => CanonInstruction(f, hash)).Some?
    ensures var shape: Shape := f => CanonInstruction(f, hash);
      DistillsToItself(Distilled(idl, keep, dropAccounts, shape).value, keep, dropAccounts, shape)
  {
    var shape: Shape := f => CanonInstruction(f, hash);
    var items := InstructionsOf(idl).value;
    forall f: Fields | Named(f) && shape(f).Some?
      ensures Named(shape(f).value) && shape(f).value["name"].s == ToSnake(f["name"].s)
    {
      CanonInstructionIdempotent(f, hash);
    }
    DistillTwiceIff(idl, keep, dropAccounts, shape);
    SelectedAreShaped(items, keep, shape);
    var selected := SelectFrom(items, keep, shape).value;
    forall i | 0 <= i < |selected|
      ensures IsFixed(selected[i], shape)
    {
      var g := selected[i];
      assert g in selected;
      var ix :| ix in items && IsKept(ix, keep) && shape(ix.fields).Some? && g == Dict(shape(ix.fields).value);
      CanonInstructionIdempotent(ix.fields, hash);
    }
  }
}
