/** Which names a set of roots reaches through a dependency graph, and the worklist that finds them. */
module Reachability {
  import opened Sets

  /** Every defined name with the names it mentions; a mentioned name need not be defined. */
  type Graph = map<string, set<string>>

  function Deps(graph: Graph, name: string): set<string> {
    if name in graph then graph[name] else {}
  }

  /** A chain of mentions from a root. */
  ghost predicate IsPath(graph: Graph, roots: set<string>, path: seq<string>) {
    && path != []
    && path[0] in roots
    && forall i | 0 < i < |path| :: path[i] in Deps(graph, path[i - 1])
  }

  ghost predicate PathTo(graph: Graph, roots: set<string>, path: seq<string>, name: string) {
    IsPath(graph, roots, path) && path[|path| - 1] == name
  }

  ghost predicate Reachable(graph: Graph, roots: set<string>, name: string) {
    exists path :: PathTo(graph, roots, path, name)
  }

  /** All names that occur at all. */
  ghost function Universe(graph: Graph, roots: set<string>): set<string> {
    roots + set defined, name | defined in graph && name in graph[defined] :: name
  }

  ghost function Closure(graph: Graph, roots: set<string>): set<string> {
    set name | name in Universe(graph, roots) && Reachable(graph, roots, name)
  }

  ghost predicate Closed(graph: Graph, names: set<string>) {
    forall name | name in names :: Deps(graph, name) <= names
  }

  lemma ExtendPath(graph: Graph, roots: set<string>, path: seq<string>, name: string, dep: string)
    requires PathTo(graph, roots, path, name) && dep in Deps(graph, name)
    ensures Reachable(graph, roots, dep)
  {
    assert PathTo(graph, roots, path + [dep], dep);
  }

  lemma ReachableInUniverse(graph: Graph, roots: set<string>, name: string)
    requires Reachable(graph, roots, name)
    ensures name in Universe(graph, roots)
  {
    var path :| PathTo(graph, roots, path, name);
    if |path| > 1 {
      assert name in Deps(graph, path[|path| - 2]);
    }
  }

  lemma {:induction false} PathStaysInside(graph: Graph, roots: set<string>, path: seq<string>, names: set<string>)
    requires roots <= names && Closed(graph, names) && IsPath(graph, roots, path)
    ensures path[|path| - 1] in names
  {
    if |path| > 1 {
      var front := path[..|path| - 1];
      PathStaysInside(graph, roots, front, names);
      assert path[|path| - 1] in Deps(graph, front[|front| - 1]);
    }
  }

  /** The closure is the least closed set that contains the roots. */
  lemma ClosureIsLeast(graph: Graph, roots: set<string>)
    ensures roots <= Closure(graph, roots) && Closed(graph, Closure(graph, roots))
    ensures forall names | roots <= names && Closed(graph, names) :: Closure(graph, roots) <= names
  {
    forall name | name in roots
      ensures name in Closure(graph, roots)
    {
      assert PathTo(graph, roots, [name], name);
    }
    forall name, dep | name in Closure(graph, roots) && dep in Deps(graph, name)
      ensures dep in Closure(graph, roots)
    {
      var path :| PathTo(graph, roots, path, name);
      ExtendPath(graph, roots, path, name, dep);
      ReachableInUniverse(graph, roots, dep);
    }
    forall names, name | roots <= names && Closed(graph, names) && name in Closure(graph, roots)
      ensures name in names
    {
      var path :| PathTo(graph, roots, path, name);
      PathStaysInside(graph, roots, path, names);
    }
  }

  /** A least closed set is the closure: the order of the worklist cannot matter. */
  lemma LeastClosedIsClosure(graph: Graph, roots: set<string>, names: set<string>)
    requires roots <= names <= Closure(graph, roots) && Closed(graph, names)
    ensures names == Closure(graph, roots)
  {
    ClosureIsLeast(graph, roots);
  }

  /** Forgetting definitions that are not reached does not change what is reached. */
  lemma ClosureOfRestriction(graph: Graph, roots: set<string>, small: Graph)
    requires forall name | name in Closure(graph, roots) :: Deps(small, name) == Deps(graph, name)
    ensures Closure(small, roots) == Closure(graph, roots)
  {
    var all, few := Closure(graph, roots), Closure(small, roots);
    ClosureIsLeast(graph, roots);
    ClosureIsLeast(small, roots);
    assert Closed(small, all);
    assert few <= all;
    assert Closed(graph, few);
  }

  /** What is not waiting has all its dependencies among the needed names. */
  ghost predicate Frontier(graph: Graph, needed: set<string>, queue: seq<string>) {
    && (forall name | name in queue :: name in needed)
    && forall name | name in needed && name !in queue :: Deps(graph, name) <= needed
  }

  lemma FrontierStep(
    graph: Graph, before: set<string>, waiting: seq<string>, name: string, needed: set<string>, queue: seq<string>)
    requires Frontier(graph, before, waiting + [name])
    requires needed == before + Deps(graph, name)
    requires forall n :: n in queue <==> n in waiting || (n in Deps(graph, name) && n !in before)
    ensures Frontier(graph, needed, queue)
  {
  }

  ghost function Missing(all: set<string>, needed: set<string>): nat {
    |all - needed|
  }

  /** Handling a needed name adds a new one, or nothing at all. */
  lemma Progress(graph: Graph, all: set<string>, needed: set<string>, name: string)
    requires Closed(graph, all) && name in needed && needed <= all
    ensures Deps(graph, name) <= all
    ensures needed + Deps(graph, name) == needed || Missing(all, needed + Deps(graph, name)) < Missing(all, needed)
  {
    SubsetSize(all - (needed + Deps(graph, name)), all - needed);
    if dep :| dep in Deps(graph, name) && dep !in needed {
      assert dep in all - needed && dep !in all - (needed + Deps(graph, name));
    }
  }

  /** The dependencies not seen before become needed and are put on the worklist. */
  method AddNew(deps: set<string>, before: set<string>, waiting: seq<string>)
    returns (needed: set<string>, queue: seq<string>)
    ensures needed == before + deps
    ensures forall n :: n in queue <==> n in waiting || (n in deps && n !in before)
    ensures needed == before ==> queue == waiting
  {
    needed, queue := before, waiting;
    var left := deps;
    while left != {}
      invariant left <= deps && needed == before + (deps - left)
      invariant forall n :: n in queue <==> n in waiting || (n in deps - left && n !in before)
      invariant deps <= before ==> queue == waiting
    {
      var dep :| dep in left;
      left := left - {dep};
      if dep !in needed {
        needed := needed + {dep};
        queue := queue + [dep];
      }
    }
  }

  /** The elements in some order. */
  method SetToSeq(names: set<string>) returns (order: seq<string>)
    ensures forall name :: name in order <==> name in names
  {
    order := [];
    var left := names;
    while left != {}
      invariant left <= names
      invariant forall name :: name in order <==> name in names - left
    {
      var name :| name in left;
      order := order + [name];
      left := left - {name};
    }
  }
}
