/** What comes out of distilling an IDL, entry by entry, in terms of what went in. */
module IdlOutput {
  import opened Outcomes
  import opened IdlTypes
  import opened SnakeCase
  import opened Reachability
  import opened IdlDistill
  import opened IdlMeaning

  // ---- Positions in a list ----

  ghost predicate Increasing(ks: seq<nat>, bound: nat) {
    && (forall i | 0 <= i < |ks| :: ks[i] < bound)
    && forall i, j | 0 <= i < j < |ks| :: ks[i] < ks[j]
  }

  lemma IncreasingOneMore(ks: seq<nat>, n: nat)
    requires Increasing(ks, n)
    ensures Increasing(ks, n + 1) && Increasing(ks + [n], n + 1)
  {
  }

  // ---- The instructions ----

  /** An instruction with a name that is called. */
  predicate IsCalled(ix: Json, keep: set<string>) {
    ix.Dict? && "name" in ix.fields && ix.fields["name"].Str? && ToSnake(ix.fields["name"].s) in keep
  }

  /** `out` holds the shaped copies of the called instructions, which stand at `ks`, and of no others. */
  ghost predicate ShapedFrom(out: seq<Json>, items: seq<Json>, keep: set<string>, shape: Shape, ks: seq<nat>) {
    && Increasing(ks, |items|) && |ks| == |out|
    && (forall i | 0 <= i < |ks| ::
          IsCalled(items[ks[i]], keep) && shape(items[ks[i]].fields).Some?
          && out[i] == Dict(shape(items[ks[i]].fields).value))
    && (forall k | 0 <= k < |items| && IsCalled(items[k], keep) :: k in ks)
  }

  /** Every called instruction comes out, shaped, in its place, and no other does. */
  lemma {:induction false} SelectedExactly(items: seq<Json>, keep: set<string>, shape: Shape) returns (ks: seq<nat>)
    requires SelectFrom(items, keep, shape).Some?
    ensures ShapedFrom(SelectFrom(items, keep, shape).value, items, keep, shape, ks)
  {
    if items == [] {
      ks := [];
    } else {
      var n := |items| - 1;
      ks := SelectedExactly(items[..n], keep, shape);
      IncreasingOneMore(ks, n);
      if IsCalled(items[n], keep) {
        SelectedOneMore(items, keep, shape, ks);
        ks := ks + [n];
      } else {
        assert SelectFrom(items, keep, shape) == SelectFrom(items[..n], keep, shape);
      }
    }
  }

  lemma SelectedOneMore(items: seq<Json>, keep: set<string>, shape: Shape, ks: seq<nat>)
    requires items != [] && SelectFrom(items, keep, shape).Some? && IsCalled(items[|items| - 1], keep)
    requires SelectFrom(items[..|items| - 1], keep, shape).Some?
    requires ShapedFrom(SelectFrom(items[..|items| - 1], keep, shape).value, items[..|items| - 1], keep, shape, ks)
    ensures ShapedFrom(SelectFrom(items, keep, shape).value, items, keep, shape, ks + [|items| - 1])
  {
    var n := |items| - 1;
    IncreasingOneMore(ks, n);
    forall k | 0 <= k < |items| && IsCalled(items[k], keep)
      ensures k in ks + [n]
    {
      assert k < n ==> items[..n][k] == items[k];
      assert k == n ==> (ks + [n])[|ks|] == k;
    }
  }

  /** Whatever comes out is named in `keep`. */
  lemma OutputNamesAreKept(out: seq<Json>, items: seq<Json>, keep: set<string>, shape: Shape, ks: seq<nat>, i: nat)
    requires NamesInSnake(shape) && ShapedFrom(out, items, keep, shape, ks) && i < |out|
    ensures out[i].Dict? && "name" in out[i].fields && out[i].fields["name"].Str? && out[i].fields["name"].s in keep
  {
  }

  /** Selecting fails exactly when shaping a called instruction does. */
  lemma {:induction false} SelectFailsIff(items: seq<Json>, keep: set<string>, shape: Shape)
    ensures SelectFrom(items, keep, shape).None?
       <==> exists ix :: ix in items && IsCalled(ix, keep) && shape(ix.fields).None?
  {
    if items != [] {
      var n := |items| - 1;
      SelectFailsIff(items[..n], keep, shape);
      assert forall ix :: ix in items <==> ix in items[..n] || ix == items[n];
    }
  }

  // ---- The definitions ----

  predicate IsNamed(def: Json, name: string) {
    def.Dict? && "name" in def.fields && def.fields["name"] == Str(name)
  }

  /** The last item of a name stands at `k`. */
  ghost predicate LastAt(items: seq<Json>, name: string, k: nat) {
    && k < |items| && IsNamed(items[k], name)
    && forall m | k < m < |items| :: !IsNamed(items[m], name)
  }

  /** The last definition of a name. */
  ghost predicate LastDef(items: seq<Json>, name: string, def: Fields) {
    exists k: nat :: LastAt(items, name, k) && items[k].fields == def
  }

  lemma {:induction false} ByNameIff(items: seq<Json>, name: string, def: Fields)
    ensures name in ByName(items) && ByName(items)[name] == def <==> LastDef(items, name, def)
  {
    if items != [] {
      var n := |items| - 1;
      ByNameIff(items[..n], name, def);
      if IsNamed(items[n], name) {
        LastDefAtEnd(items, name, def);
      } else {
        LastDefOfFront(items, name, def);
      }
    }
  }

  lemma LastDefAtEnd(items: seq<Json>, name: string, def: Fields)
    requires items != [] && IsNamed(items[|items| - 1], name)
    ensures LastDef(items, name, def) <==> items[|items| - 1].fields == def
  {
    assert LastAt(items, name, |items| - 1);
    if k: nat :| LastAt(items, name, k) && items[k].fields == def {
      assert k == |items| - 1;
    }
  }

  lemma LastDefOfFront(items: seq<Json>, name: string, def: Fields)
    requires items != [] && !IsNamed(items[|items| - 1], name)
    ensures LastDef(items, name, def) <==> LastDef(items[..|items| - 1], name, def)
  {
    var n := |items| - 1;
    if k: nat :| LastAt(items, name, k) && items[k].fields == def {
      LastAtFront(items, name, k);
    }
    if k: nat :| LastAt(items[..n], name, k) && items[..n][k].fields == def {
      LastAtFront(items, name, k);
    }
  }

  lemma LastAtFront(items: seq<Json>, name: string, k: nat)
    requires items != [] && !IsNamed(items[|items| - 1], name)
    ensures LastAt(items, name, k) <==> LastAt(items[..|items| - 1], name, k)
  {
  }

  /** The last definition of one name refers to the other. */
  ghost predicate Leads(items: seq<Json>, name: string, dep: string) {
    exists def :: LastDef(items, name, def) && DefRefers(def, dep)
  }

  /** A chain of references from an argument of a selected instruction, each through the last definition of its name. */
  ghost predicate IsChain(items: seq<Json>, selected: seq<Json>, chain: seq<string>) {
    && chain != []
    && (exists ix :: ix in selected && InstructionRefers(ix, chain[0]))
    && forall i | 0 < i < |chain| :: Leads(items, chain[i - 1], chain[i])
  }

  ghost predicate ChainTo(items: seq<Json>, selected: seq<Json>, chain: seq<string>, name: string) {
    IsChain(items, selected, chain) && chain[|chain| - 1] == name
  }

  ghost predicate IsNeeded(items: seq<Json>, selected: seq<Json>, name: string) {
    exists chain :: ChainTo(items, selected, chain, name)
  }

  lemma DepsIff(items: seq<Json>, name: string, dep: string)
    ensures dep in Deps(GraphOf(ByName(items)), name) <==> Leads(items, name, dep)
  {
    if name in ByName(items) {
      ByNameIff(items, name, ByName(items)[name]);
      DependsIff(ByName(items)[name], dep);
    }
    if def :| LastDef(items, name, def) && DefRefers(def, dep) {
      ByNameIff(items, name, def);
      DependsIff(def, dep);
    }
  }

  lemma ChainIsPath(items: seq<Json>, selected: seq<Json>, chain: seq<string>)
    ensures IsPath(GraphOf(ByName(items)), RootsOf(selected), chain) <==> IsChain(items, selected, chain)
  {
    if chain != [] {
      RootsIff(selected, chain[0]);
      forall i | 0 < i < |chain|
        ensures chain[i] in Deps(GraphOf(ByName(items)), chain[i - 1]) <==> Leads(items, chain[i - 1], chain[i])
      {
        DepsIff(items, chain[i - 1], chain[i]);
      }
    }
  }

  /** The worklist finds exactly the needed names. */
  lemma NeededIff(items: seq<Json>, selected: seq<Json>, name: string)
    ensures name in Needed(items, selected) <==> IsNeeded(items, selected, name)
  {
    var graph, roots := GraphOf(ByName(items)), RootsOf(selected);
    if name in Needed(items, selected) {
      var path :| PathTo(graph, roots, path, name);
      ChainIsPath(items, selected, path);
      assert ChainTo(items, selected, path, name);
    }
    if IsNeeded(items, selected, name) {
      var chain :| ChainTo(items, selected, chain, name);
      ChainIsPath(items, selected, chain);
      assert PathTo(graph, roots, chain, name);
      ReachableInUniverse(graph, roots, name);
    }
  }

  /** The names at the positions `ks`. */
  ghost predicate NamesAt(names: seq<string>, items: seq<Json>, ks: seq<nat>) {
    && Increasing(ks, |items|) && |ks| == |names|
    && forall i | 0 <= i < |ks| :: IsNamed(items[ks[i]], names[i])
  }

  ghost predicate NoneLeftOut(items: seq<Json>, needed: set<string>, ks: seq<nat>) {
    forall k, name | 0 <= k < |items| && IsNamed(items[k], name) && name in needed :: k in ks
  }

  /** The needed names in the order of their definitions, and none left out. */
  lemma {:induction false} FilteredNames(items: seq<Json>, needed: set<string>) returns (ks: seq<nat>)
    ensures NamesAt(Filter(OrderedNames(items), needed), items, ks)
    ensures NoneLeftOut(items, needed, ks)
  {
    if items == [] {
      ks := [];
    } else {
      var n := |items| - 1;
      ks := FilteredNames(items[..n], needed);
      NamesOneMore(items, needed);
      if NameOf(items[n]).Some? && NameOf(items[n]).value in needed {
        TakeLast(Filter(OrderedNames(items[..n]), needed), items, needed, ks);
        ks := ks + [n];
      } else {
        SkipLast(Filter(OrderedNames(items[..n]), needed), items, needed, ks);
      }
    }
  }

  lemma TakeLast(names: seq<string>, items: seq<Json>, needed: set<string>, ks: seq<nat>)
    requires items != [] && NameOf(items[|items| - 1]).Some?
    requires NamesAt(names, items[..|items| - 1], ks) && NoneLeftOut(items[..|items| - 1], needed, ks)
    ensures NamesAt(names + [NameOf(items[|items| - 1]).value], items, ks + [|items| - 1])
    ensures NoneLeftOut(items, needed, ks + [|items| - 1])
  {
    var n := |items| - 1;
    IncreasingOneMore(ks, n);
    forall k, name | 0 <= k < |items| && IsNamed(items[k], name) && name in needed
      ensures k in ks + [n]
    {
      assert k < n ==> items[..n][k] == items[k];
      assert k == n ==> (ks + [n])[|ks|] == k;
    }
  }

  lemma SkipLast(names: seq<string>, items: seq<Json>, needed: set<string>, ks: seq<nat>)
    requires items != []
    requires NameOf(items[|items| - 1]).None? || NameOf(items[|items| - 1]).value !in needed
    requires NamesAt(names, items[..|items| - 1], ks) && NoneLeftOut(items[..|items| - 1], needed, ks)
    ensures NamesAt(names, items, ks) && NoneLeftOut(items, needed, ks)
  {
    var n := |items| - 1;
    IncreasingOneMore(ks, n);
    forall k, name | 0 <= k < |items| && IsNamed(items[k], name) && name in needed
      ensures k in ks
    {
      assert k < n ==> items[..n][k] == items[k];
    }
  }

  lemma NamesOneMore(items: seq<Json>, needed: set<string>)
    requires items != []
    ensures var n := |items| - 1;
      Filter(OrderedNames(items), needed)
        == if NameOf(items[n]).Some? && NameOf(items[n]).value in needed
           then Filter(OrderedNames(items[..n]), needed) + [NameOf(items[n]).value]
           else Filter(OrderedNames(items[..n]), needed)
  {
    var n := |items| - 1;
    var names := OrderedNames(items);
    if NameOf(items[n]).Some? {
      assert names[..|names| - 1] == OrderedNames(items[..n]);
    } else {
      assert names == OrderedNames(items[..n]);
    }
  }

  /** What comes out for a definition: the last one of its name, rewritten. */
  ghost predicate Rewrites(g: Json, item: Json, items: seq<Json>, selected: seq<Json>, name: string, def: Fields) {
    && IsNamed(item, name) && IsNeeded(items, selected, name)
    && LastDef(items, name, def) && g == Dict(CanonTypeDef(def))
  }

  ghost predicate RewritesSome(g: Json, item: Json, items: seq<Json>, selected: seq<Json>) {
    exists name, def :: Rewrites(g, item, items, selected, name, def)
  }

  /** `out` holds, for each definition at `ks`, the last definition of its name, rewritten. */
  ghost predicate RewrittenFrom(out: seq<Json>, items: seq<Json>, selected: seq<Json>, ks: seq<nat>) {
    && Increasing(ks, |items|) && |ks| == |out|
    && (forall i | 0 <= i < |ks| :: RewritesSome(out[i], items[ks[i]], items, selected))
    && (forall k, name | 0 <= k < |items| && IsNamed(items[k], name) && IsNeeded(items, selected, name) :: k in ks)
  }

  /** Every needed definition comes out, rewritten, in its place, and no other does. */
  lemma PrunedExactly(items: seq<Json>, selected: seq<Json>) returns (ks: seq<nat>)
    ensures RewrittenFrom(PrunedTypes(items, selected), items, selected, ks)
  {
    ks := FilteredNames(items, Needed(items, selected));
    PrunedTypesExact(items, selected);
    forall i | 0 <= i < |ks|
      ensures RewritesSome(PrunedTypes(items, selected)[i], items[ks[i]], items, selected)
    {
      PrunedAt(items, selected, i, items[ks[i]]);
    }
    NothingNeededIsLeftOut(items, selected, ks);
  }

  lemma PrunedAt(items: seq<Json>, selected: seq<Json>, i: nat, item: Json)
    requires i < |PrunedTypes(items, selected)| == |Filter(OrderedNames(items), Needed(items, selected))|
    requires IsNamed(item, Filter(OrderedNames(items), Needed(items, selected))[i])
    ensures RewritesSome(PrunedTypes(items, selected)[i], item, items, selected)
  {
    PrunedTypesExact(items, selected);
    var names := Filter(OrderedNames(items), Needed(items, selected));
    FilterSubset(OrderedNames(items), Needed(items, selected));
    assert names[i] in names;
    NeededIff(items, selected, names[i]);
    ByNameIff(items, names[i], ByName(items)[names[i]]);
    assert Rewrites(PrunedTypes(items, selected)[i], item, items, selected, names[i], ByName(items)[names[i]]);
  }

  lemma NothingNeededIsLeftOut(items: seq<Json>, selected: seq<Json>, ks: seq<nat>)
    requires NoneLeftOut(items, Needed(items, selected), ks)
    ensures forall k, name | 0 <= k < |items| && IsNamed(items[k], name) && IsNeeded(items, selected, name) :: k in ks
  {
    forall k, name | 0 <= k < |items| && IsNamed(items[k], name) && IsNeeded(items, selected, name)
      ensures k in ks
    {
      NeededIff(items, selected, name);
    }
  }

  // ---- The whole output ----

  /** The items of an entry that is a list. */
  function ItemsAt(idl: Fields, key: string): seq<Json> {
    if key in idl && idl[key].List? then idl[key].items else []
  }

  /**
   The output holds the called instructions shaped, the definitions they need rewritten, no events, no
   accounts when they are to be dropped, and everything else as it was.
   */
  lemma DistilledExactly(idl: Fields, keep: set<string>, dropAccounts: bool, shape: Shape, out: Fields)
    returns (selected: seq<Json>, types: seq<Json>, ks: seq<nat>, ts: seq<nat>)
    requires Distilled(idl, keep, dropAccounts, shape) == Some(out)
    ensures Get(out, "instructions") == Some(List(selected)) && Get(out, "types") == Some(List(types))
    ensures ShapedFrom(selected, ItemsAt(idl, "instructions"), keep, shape, ks)
    ensures RewrittenFrom(types, ItemsAt(idl, "types"), selected, ts)
    ensures Get(out, "events") == Some(List([]))
    ensures Get(out, "accounts") == if dropAccounts then Some(List([])) else Get(idl, "accounts")
    ensures forall key | key !in {"instructions", "types", "events", "accounts"} :: Get(out, key) == Get(idl, key)
  {
    selected := SelectFrom(InstructionsOf(idl).value, keep, shape).value;
    types := PrunedTypes(TypesOf(idl), selected);
    ks := SelectedExactly(InstructionsOf(idl).value, keep, shape);
    ts := PrunedExactly(TypesOf(idl), selected);
    AssembledEntries(idl, selected, types, dropAccounts);
  }

  lemma AssembledEntries(idl: Fields, selected: seq<Json>, types: seq<Json>, dropAccounts: bool)
    ensures var out := Assemble(idl, selected, types, dropAccounts);
      && Get(out, "instructions") == Some(List(selected)) && Get(out, "types") == Some(List(types))
      && Get(out, "events") == Some(List([]))
      && Get(out, "accounts") == (if dropAccounts then Some(List([])) else Get(idl, "accounts"))
      && forall key | key !in {"instructions", "types", "events", "accounts"} :: Get(out, key) == Get(idl, key)
  {
  }

  /** It fails exactly when the instructions cannot be looped over, or a called one cannot be shaped. */
  lemma DistillFailsIff(idl: Fields, keep: set<string>, dropAccounts: bool, shape: Shape)
    ensures Distilled(idl, keep, dropAccounts, shape).None? <==>
      || ("instructions" in idl
          && (idl["instructions"].Null? || idl["instructions"].Boolean? || idl["instructions"].Number?))
      || exists ix :: ix in ItemsAt(idl, "instructions") && IsCalled(ix, keep) && shape(ix.fields).None?
  {
    SelectFailsIff(ItemsAt(idl, "instructions"), keep, shape);
  }
}
