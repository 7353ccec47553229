/** The ignore list of a repository: validating it, reducing it, and deleting what it names. */
module IgnoredPaths {
  import opened Outcomes
  import opened Sets

  // ---- Paths ----

  function SplitSlashes(s: string): (parts: seq<string>)
    ensures |parts| > 0
  {
    if s == [] then [""]
    else
      var rest := SplitSlashes(s[1..]);
      if s[0] == '/' then [""] + rest else [[s[0]] + rest[0]] + rest[1..]
  }

  function DropDots(parts: seq<string>): seq<string> {
    if parts == [] then []
    else (if parts[0] == "" || parts[0] == "." then [] else [parts[0]]) + DropDots(parts[1..])
  }

  /** Where an absolute path starts; exactly two slashes are a root of their own. */
  function RootOf(path: string): string {
    if path == "" || path[0] != '/' then ""
    else if |path| >= 2 && path[1] == '/' && (|path| == 2 || path[2] != '/') then "//"
    else "/"
  }

  /** The names in a path; empty components and single dots do not count. */
  function Names(path: string): seq<string> {
    DropDots(SplitSlashes(path))
  }

  /** The components of a path: its root, if it has one, and its names. */
  function Parts(path: string): seq<string> {
    (if RootOf(path) == "" then [] else [RootOf(path)]) + Names(path)
  }

  function JoinSlashes(parts: seq<string>): string {
    if parts == [] then "" else if |parts| == 1 then parts[0] else parts[0] + "/" + JoinSlashes(parts[1..])
  }

  /** A directory or file name as it can occur in a tree. */
  predicate IsName(part: string) {
    part != "" && part != "." && '/' !in part
  }

  lemma {:induction false} SplitName(name: string, rest: string)
    requires '/' !in name
    ensures SplitSlashes(name) == [name]
    ensures SplitSlashes(name + "/" + rest) == [name] + SplitSlashes(rest)
  {
    if name == [] {
      assert (name + "/" + rest)[1..] == rest;
    } else {
      SplitName(name[1..], rest);
      assert (name + "/" + rest)[1..] == name[1..] + "/" + rest;
      assert name == [name[0]] + name[1..];
    }
  }

  lemma {:induction false} NamesOfJoined(parts: seq<string>)
    requires forall part | part in parts :: IsName(part)
    ensures Names(JoinSlashes(parts)) == parts
  {
    if parts == [] {
      assert SplitSlashes("") == [""];
      assert [""][1..] == [];
      assert DropDots([""]) == [];
    } else {
      assert IsName(parts[0]);
      NamesOfJoined(parts[1..]);
      SplitName(parts[0], JoinSlashes(parts[1..]));
      if |parts| == 1 {
        assert parts == [parts[0]];
        assert [parts[0]][1..] == [];
      } else {
        assert ([parts[0]] + SplitSlashes(JoinSlashes(parts[1..])))[1..] == SplitSlashes(JoinSlashes(parts[1..]));
        assert parts == [parts[0]] + parts[1..];
      }
    }
  }

  lemma JoinedIsRelative(parts: seq<string>)
    requires forall part | part in parts :: IsName(part)
    ensures JoinSlashes(parts) == "" || JoinSlashes(parts)[0] != '/'
  {
    if parts != [] {
      assert IsName(parts[0]);
      assert parts[0][0] in parts[0];
    }
  }

  /** Writing names out with slashes and taking them apart again gives them back. */
  lemma PartsOfJoined(parts: seq<string>)
    requires forall part | part in parts :: IsName(part)
    ensures Parts(JoinSlashes(parts)) == parts
  {
    NamesOfJoined(parts);
    JoinedIsRelative(parts);
  }

  lemma {:induction false} SplitHasNoSlash(s: string)
    ensures forall part | part in SplitSlashes(s) :: '/' !in part
  {
    if s != [] {
      SplitHasNoSlash(s[1..]);
    }
  }

  lemma {:induction false} DropDotsKeeps(parts: seq<string>)
    ensures forall part :: part in DropDots(parts) <==> part in parts && part != "" && part != "."
  {
    if parts != [] {
      DropDotsKeeps(parts[1..]);
      assert parts == [parts[0]] + parts[1..];
    }
  }

  lemma SlashInFront(path: string)
    ensures Names("/" + path) == Names(path)
  {
    assert ("/" + path)[1..] == path;
    assert ([""] + SplitSlashes(path))[1..] == SplitSlashes(path);
  }

  lemma PartsOfRooted(root: string, path: string)
    requires root in {"", "/", "//"} && (path == "" || path[0] != '/')
    ensures RootOf(root + path) == root && Names(root + path) == Names(path)
  {
    if root == "" {
      assert root + path == path;
    } else {
      SlashInFront(path);
      if root == "//" {
        SlashInFront("/" + path);
        assert root + path == "/" + ("/" + path);
      }
    }
  }

  /** Every path is as good as its root and its names written out, and its names are proper. */
  lemma PathsAreParts(path: string)
    ensures forall part | part in Names(path) :: IsName(part)
    ensures Parts(RootOf(path) + JoinSlashes(Names(path))) == Parts(path)
  {
    SplitHasNoSlash(path);
    DropDotsKeeps(SplitSlashes(path));
    NamesOfJoined(Names(path));
    JoinedIsRelative(Names(path));
    PartsOfRooted(RootOf(path), JoinSlashes(Names(path)));
  }

  /** Relative, not the root itself, and never upwards. */
  predicate ValidPath(path: string) {
    && RootOf(path) == ""
    && Parts(path) != []
    && path !in {".", ""}
    && ".." !in Parts(path)
  }

  /** Safe paths are relative, name something, and never go up. */
  lemma ValidPathIff(path: string)
    ensures ValidPath(path) <==>
      && path != "" && path[0] != '/' && Parts(path) != []
      && forall part | part in Parts(path) :: part != "" && part != "." && part != ".." && '/' !in part
  {
    PathsAreParts(path);
    if path == "" {
      assert SplitSlashes("") == [""];
      assert [""][1..] == [];
      assert DropDots([""]) == [];
    }
    if path == "." {
      assert Parts(".") == [] by { DotIsNothing(); }
    }
  }

  lemma DotIsNothing()
    ensures Parts(".") == []
  {
    SplitName(".", "");
    assert ["."][1..] == [];
    assert DropDots(["."]) == [];
  }

  /** An absolute path has its root for its first component: two slashes when there are exactly two. */
  lemma AbsolutePaths(path: string)
    requires path != "" && path[0] == '/'
    ensures Parts(path) != []
    ensures Parts(path)[0] == if |path| > 1 && path[1] == '/' && (|path| == 2 || path[2] != '/') then "//" else "/"
  {
  }

  /** One path lies at or above another. */
  predicate Covers(p: string, q: string) {
    Parts(p) <= Parts(q)
  }

  // ---- The order of the list: shallow paths first, then by characters ----

  predicate StringLess(a: string, b: string) {
    b != [] && (a == [] || a[0] < b[0] || (a[0] == b[0] && StringLess(a[1..], b[1..])))
  }

  predicate Before(p: string, q: string) {
    |Parts(p)| < |Parts(q)| || (|Parts(p)| == |Parts(q)| && StringLess(p, q))
  }

  lemma {:induction false} StringLessTotal(a: string, b: string)
    ensures a == b || StringLess(a, b) || StringLess(b, a)
    ensures !(StringLess(a, b) && StringLess(b, a))
  {
    if a != [] && b != [] {
      StringLessTotal(a[1..], b[1..]);
      assert a == [a[0]] + a[1..] && b == [b[0]] + b[1..];
    }
  }

  lemma {:induction false} StringLessTransitive(a: string, b: string, c: string)
    requires StringLess(a, b) && StringLess(b, c)
    ensures StringLess(a, c)
  {
    if a != [] && a[0] == b[0] == c[0] {
      StringLessTransitive(a[1..], b[1..], c[1..]);
    }
  }

  lemma BeforeTotal(p: string, q: string)
    ensures p == q || Before(p, q) || Before(q, p)
    ensures !(Before(p, q) && Before(q, p)) && !Before(p, p)
  {
    StringLessTotal(p, q);
    StringLessTotal(p, p);
  }

  lemma BeforeTransitive(p: string, q: string, r: string)
    requires Before(p, q) && Before(q, r)
    ensures Before(p, r)
  {
    if StringLess(p, q) && StringLess(q, r) {
      StringLessTransitive(p, q, r);
    }
  }

  predicate InOrder(paths: seq<string>) {
    forall i, j | 0 <= i < j < |paths| :: !Before(paths[j], paths[i])
  }

  function Insert(path: string, paths: seq<string>): seq<string> {
    if paths == [] then [path]
    else if Before(path, paths[0]) then [path] + paths
    else [paths[0]] + Insert(path, paths[1..])
  }

  /** The list sorted by number of components, then by characters. */
  function Sorted(paths: seq<string>): seq<string> {
    if paths == [] then [] else Insert(paths[0], Sorted(paths[1..]))
  }

  lemma {:induction false} InsertInOrder(path: string, paths: seq<string>)
    requires InOrder(paths)
    ensures InOrder(Insert(path, paths))
    ensures forall p :: p in Insert(path, paths) <==> p == path || p in paths
  {
    if paths != [] {
      assert forall p :: p in paths <==> p == paths[0] || p in paths[1..];
      InsertInOrder(path, paths[1..]);
      var rest := Insert(path, paths[1..]);
      BeforeTotal(paths[0], paths[0]);
      if Before(path, paths[0]) {
        forall i | 0 <= i < |paths|
          ensures !Before(paths[i], path)
        {
          NotBefore(path, paths[0], paths[i]);
        }
      } else {
        forall i | 0 <= i < |rest|
          ensures !Before(rest[i], paths[0])
        {
          assert rest[i] in rest;
        }
      }
    }
  }

  lemma NotBefore(p: string, q: string, r: string)
    requires Before(p, q) && !Before(r, q)
    ensures !Before(r, p)
  {
    BeforeTotal(q, r);
    if Before(r, p) {
      BeforeTransitive(r, p, q);
    }
  }

  lemma {:induction false} SortedInOrder(paths: seq<string>)
    ensures InOrder(Sorted(paths))
    ensures forall p :: p in Sorted(paths) <==> p in paths
  {
    if paths != [] {
      SortedInOrder(paths[1..]);
      InsertInOrder(paths[0], Sorted(paths[1..]));
      assert forall p :: p in paths <==> p == paths[0] || p in paths[1..];
    }
  }

  // ---- The reduced list ----

  /** No listed path before `p` covers it. */
  ghost predicate Minimal(p: string, paths: seq<string>) {
    p in paths && forall q | q in paths && Covers(q, p) :: !Before(q, p)
  }

  ghost predicate StrictlyOrdered(paths: seq<string>) {
    forall i, j | 0 <= i < j < |paths| :: Before(paths[i], paths[j])
  }

  /** The minimal paths of the list, in order. */
  ghost predicate IsReduced(reduced: seq<string>, paths: seq<string>) {
    && StrictlyOrdered(reduced)
    && forall p :: p in reduced <==> Minimal(p, paths)
  }

  /** Some path of the list lies at or above `p`. */
  ghost predicate CoveredBy(p: string, parents: seq<string>) {
    exists q :: q in parents && Covers(q, p)
  }

  ghost predicate CoversAll(parents: seq<string>, paths: seq<string>) {
    forall p {:trigger CoveredBy(p, parents)} | p in paths :: CoveredBy(p, parents)
  }

  /** Whether some path already kept covers this one. */
  method AnyCovers(parents: seq<string>, path: string) returns (covered: bool)
    ensures covered <==> CoveredBy(path, parents)
  {
    for i := 0 to |parents|
      invariant forall k | 0 <= k < i :: !Covers(parents[k], path)
    {
      if Covers(parents[i], path) {
        return true;
      }
    }
    return false;
  }

  /** The kept paths so far: minimal among those gone through, in order, and covering all of them. */
  ghost predicate ReducedSoFar(normalized: seq<string>, before: seq<string>) {
    && IsReduced(normalized, before)
    && CoversAll(normalized, before)
  }

  lemma CoveredNext(normalized: seq<string>, before: seq<string>, next: string)
    requires ReducedSoFar(normalized, before) && ComesAfter(next, before)
    requires CoveredBy(next, normalized)
    ensures ReducedSoFar(normalized, before + [next])
  {
  }

  lemma UncoveredNext(normalized: seq<string>, before: seq<string>, next: string)
    requires ReducedSoFar(normalized, before) && ComesAfter(next, before)
    requires !CoveredBy(next, normalized)
    ensures next !in normalized && ReducedSoFar(normalized + [next], before + [next])
  {
    UncoveredIsMinimal(before, next, normalized);
    MinimalIsListed(normalized, before);
    AppendInOrder(normalized, before, next);
    AppendReduced(normalized, before, next);
    CoverMore(normalized, before, next);
  }

  lemma MinimalIsListed(normalized: seq<string>, before: seq<string>)
    requires IsReduced(normalized, before)
    ensures forall p | p in normalized :: p in before
  {
  }

  lemma AppendInOrder(normalized: seq<string>, before: seq<string>, next: string)
    requires StrictlyOrdered(normalized) && ComesAfter(next, before) && next !in before
    requires forall p | p in normalized :: p in before
    ensures StrictlyOrdered(normalized + [next])
  {
  }

  lemma AppendReduced(normalized: seq<string>, before: seq<string>, next: string)
    requires IsReduced(normalized, before) && StrictlyOrdered(normalized + [next])
    requires forall p :: Minimal(p, before + [next]) <==> Minimal(p, before) || p == next
    ensures IsReduced(normalized + [next], before + [next])
  {
  }

  lemma ReducedAtEnd(normalized: seq<string>, order: seq<string>, paths: seq<string>)
    requires ReducedSoFar(normalized, order)
    requires forall p :: p in order <==> p in paths
    ensures IsReduced(normalized, paths)
  {
  }

  lemma CoverMore(normalized: seq<string>, before: seq<string>, next: string)
    requires CoversAll(normalized, before)
    ensures CoversAll(normalized + [next], before + [next])
  {
    forall p | p in before + [next]
      ensures CoveredBy(p, normalized + [next])
    {
      if p in before {
        assert CoveredBy(p, normalized);
        var q :| q in normalized && Covers(q, p);
        assert q in normalized + [next];
      } else {
        assert Covers(next, p) && next in normalized + [next];
      }
    }
  }

  /** Goes through the sorted list and keeps a path unless a kept one covers it. */
  method NormalizeIgnored(ignored: seq<string>) returns (normalized: seq<string>)
    ensures IsReduced(normalized, ignored)
  {
    normalized := [];
    var seen: set<string> := {};
    var order := Sorted(ignored);
    SortedInOrder(ignored);
    for i := 0 to |order|
      invariant ReducedSoFar(normalized, order[..i])
      invariant forall p :: p in seen <==> p in normalized
    {
      NextInOrder(order, i);
      var covered := AnyCovers(normalized, order[i]);
      if covered {
        CoveredNext(normalized, order[..i], order[i]);
        continue;
      }
      UncoveredNext(normalized, order[..i], order[i]);
      if order[i] !in seen {
        normalized := normalized + [order[i]];
        seen := seen + {order[i]};
      }
    }
    assert order[..|order|] == order;
    ReducedAtEnd(normalized, order, ignored);
  }

  lemma SameMinimal(xs: seq<string>, ys: seq<string>)
    requires forall p :: p in xs <==> p in ys
    ensures forall p :: Minimal(p, xs) <==> Minimal(p, ys)
  {
  }

  lemma EarlierIsBefore(order: seq<string>, i: nat, p: string)
    requires InOrder(order) && i < |order| && p in order[..i]
    ensures !Before(order[i], p) && (p != order[i] ==> Before(p, order[i]))
  {
    var k :| 0 <= k < i && order[k] == p;
    BeforeTotal(p, order[i]);
  }

  /** `next` comes after everything in `before`, except itself. */
  ghost predicate ComesAfter(next: string, before: seq<string>) {
    forall p | p in before :: !Before(next, p) && (p != next ==> Before(p, next))
  }

  lemma NextInOrder(order: seq<string>, i: nat)
    requires InOrder(order) && i < |order|
    ensures order[..i + 1] == order[..i] + [order[i]]
    ensures ComesAfter(order[i], order[..i])
  {
    forall p | p in order[..i]
      ensures !Before(order[i], p) && (p != order[i] ==> Before(p, order[i]))
    {
      EarlierIsBefore(order, i, p);
    }
  }

  /** A path that no kept one covers is new and minimal. */
  lemma UncoveredIsMinimal(before: seq<string>, next: string, normalized: seq<string>)
    requires ComesAfter(next, before)
    requires CoversAll(normalized, before)
    requires !CoveredBy(next, normalized)
    ensures next !in before
    ensures forall p :: Minimal(p, before + [next]) <==> Minimal(p, before) || p == next
  {
    forall q | q in before
      ensures !Covers(q, next)
    {
      assert CoveredBy(q, normalized);
      var q' :| q' in normalized && Covers(q', q);
    }
    BeforeTotal(next, next);
  }

  // ---- What the reduced list is ----

  /** No path of the reduced list lies at or above another. */
  lemma ReducedIsAntichain(reduced: seq<string>, paths: seq<string>, p: string, q: string)
    requires IsReduced(reduced, paths) && p in reduced && q in reduced && p != q
    ensures !(Parts(p) <= Parts(q))
  {
    assert Minimal(p, paths) && Minimal(q, paths);
    BeforeTotal(p, q);
    assert Covers(p, q) && |Parts(q)| <= |Parts(p)| ==> Parts(p) == Parts(q);
  }

  /** Every listed path lies at or below a path of the reduced list. */
  lemma ReducedCovers(reduced: seq<string>, paths: seq<string>, p: string) returns (q: string)
    requires IsReduced(reduced, paths) && p in paths
    ensures q in reduced && Parts(q) <= Parts(p)
    decreases |Earlier(paths, p)|
  {
    if Minimal(p, paths) {
      q := p;
    } else {
      var r :| r in paths && Covers(r, p) && Before(r, p);
      EarlierShrinks(paths, r, p);
      q := ReducedCovers(reduced, paths, r);
    }
  }

  ghost function Earlier(paths: seq<string>, p: string): set<string> {
    set q | q in paths && Before(q, p)
  }

  lemma EarlierShrinks(paths: seq<string>, r: string, p: string)
    requires r in paths && Before(r, p)
    ensures |Earlier(paths, r)| < |Earlier(paths, p)|
  {
    forall q | q in Earlier(paths, r)
      ensures q in Earlier(paths, p)
    {
      BeforeTransitive(q, r, p);
    }
    BeforeTotal(r, r);
    assert Earlier(paths, r) <= Earlier(paths, p) - {r};
    SubsetSize(Earlier(paths, r), Earlier(paths, p) - {r});
  }

  /** The order of strings: the first difference decides, and a beginning comes before what it begins. */
  lemma {:induction false} StringLessIff(a: string, b: string)
    ensures StringLess(a, b) <==> exists k :: DiffersAt(a, b, k)
  {
    if b != [] && a == [] {
      assert DiffersAt(a, b, 0);
    } else if b != [] && a[0] == b[0] {
      StringLessIff(a[1..], b[1..]);
      if k: nat :| DiffersAt(a[1..], b[1..], k) {
        DiffersBelow(a, b, k + 1);
      }
      if k: nat :| DiffersAt(a, b, k) {
        DiffersBelow(a, b, k);
      }
    } else if b != [] {
      DiffersFirst(a, b, 0);
      if k: nat :| DiffersAt(a, b, k) {
        DiffersFirst(a, b, k);
      }
    }
  }

  lemma DiffersFirst(a: string, b: string, k: nat)
    requires a != [] && b != [] && a[0] != b[0]
    ensures DiffersAt(a, b, k) <==> k == 0 && a[0] < b[0]
  {
    if 0 < k <= |a| && k <= |b| {
      assert a[..k][0] == a[0] && b[..k][0] == b[0];
    }
  }

  predicate DiffersAt(a: string, b: string, k: nat) {
    k <= |a| && k < |b| && a[..k] == b[..k] && (k == |a| || a[k] < b[k])
  }

  lemma DiffersBelow(a: string, b: string, k: nat)
    requires a != [] && b != [] && a[0] == b[0]
    ensures DiffersAt(a, b, k) <==> k > 0 && DiffersAt(a[1..], b[1..], k - 1)
  {
    if 0 < k <= |a| && k <= |b| {
      assert a[..k] == [a[0]] + a[1..][..k - 1] && b[..k] == [b[0]] + b[1..][..k - 1];
      assert a[1..][..k - 1] == a[..k][1..] && b[1..][..k - 1] == b[..k][1..];
    }
  }

  /** A listed path is kept exactly when those listed at or above it are spellings of it that sort later. */
  lemma ReducedIff(reduced: seq<string>, paths: seq<string>, p: string)
    requires IsReduced(reduced, paths)
    ensures p in reduced <==>
      p in paths && forall q | q in paths && q != p && Parts(q) <= Parts(p) :: Parts(q) == Parts(p) && StringLess(p, q)
  {
    assert p in reduced <==> Minimal(p, paths);
    forall q | q in paths
      ensures Covers(q, p) && q != p ==> (!Before(q, p) <==> Parts(q) == Parts(p) && StringLess(p, q))
    {
      if Covers(q, p) && q != p {
        AboveIsBefore(p, q);
      }
    }
    BeforeTotal(p, p);
  }

  lemma AboveIsBefore(p: string, q: string)
    requires Parts(q) <= Parts(p) && p != q
    ensures !Before(q, p) <==> Parts(q) == Parts(p) && StringLess(p, q)
  {
    StringLessTotal(p, q);
    assert |Parts(q)| == |Parts(p)| ==> Parts(q) == Parts(p);
  }

  /** The kept paths stand in order: fewer components first, then by characters. */
  lemma ReducedInOrder(reduced: seq<string>, paths: seq<string>, i: nat, j: nat)
    requires IsReduced(reduced, paths) && i < j < |reduced|
    ensures |Parts(reduced[i])| <= |Parts(reduced[j])|
    ensures |Parts(reduced[i])| == |Parts(reduced[j])| ==> exists k :: DiffersAt(reduced[i], reduced[j], k)
  {
    assert Before(reduced[i], reduced[j]);
    StringLessIff(reduced[i], reduced[j]);
  }

  /** The reduced list depends only on which paths are listed, not on their order or repetition. */
  lemma ReducedDependsOnSet(reduced: seq<string>, reduced': seq<string>, paths: seq<string>, paths': seq<string>)
    requires IsReduced(reduced, paths) && IsReduced(reduced', paths')
    requires forall p :: p in paths <==> p in paths'
    ensures reduced == reduced'
  {
    SameMinimal(paths, paths');
    StrictOrderUnique(reduced, reduced');
  }

  /** A strictly ordered list is determined by its elements. */
  lemma {:induction false} StrictOrderUnique(xs: seq<string>, ys: seq<string>)
    requires StrictlyOrdered(xs) && StrictlyOrdered(ys)
    requires forall p :: p in xs <==> p in ys
    ensures xs == ys
  {
    assert xs != [] ==> xs[0] in xs;
    assert ys != [] ==> ys[0] in ys;
    if xs != [] && ys != [] {
      FirstIsLeast(xs, ys);
      FirstIsLeast(ys, xs);
      BeforeTotal(xs[0], ys[0]);
      RestElements(xs);
      RestElements(ys);
      StrictOrderUnique(xs[1..], ys[1..]);
      assert xs == [xs[0]] + xs[1..] && ys == [ys[0]] + ys[1..];
    }
  }

  lemma FirstIsLeast(xs: seq<string>, ys: seq<string>)
    requires StrictlyOrdered(xs) && xs != [] && ys != [] && ys[0] in xs
    ensures xs[0] == ys[0] || Before(xs[0], ys[0])
  {
  }

  lemma RestElements(xs: seq<string>)
    requires StrictlyOrdered(xs) && xs != []
    ensures StrictlyOrdered(xs[1..])
    ensures forall p :: p in xs[1..] <==> p in xs && p != xs[0]
  {
    forall p | p in xs[1..]
      ensures p != xs[0]
    {
      var k :| 0 <= k < |xs| - 1 && xs[1..][k] == p;
      assert Before(xs[0], xs[k + 1]);
      BeforeTotal(xs[0], xs[0]);
    }
    assert xs == [xs[0]] + xs[1..];
  }

  /** Reducing a reduced list gives it back. */
  lemma ReducedIdempotent(reduced: seq<string>, paths: seq<string>)
    requires IsReduced(reduced, paths)
    ensures IsReduced(reduced, reduced)
    ensures forall again :: IsReduced(again, reduced) ==> again == reduced
  {
    ReducedOfItself(reduced, paths);
    forall again | IsReduced(again, reduced)
      ensures again == reduced
    {
      ReducedDependsOnSet(again, reduced, reduced, reduced);
    }
  }

  lemma ReducedOfItself(reduced: seq<string>, paths: seq<string>)
    requires IsReduced(reduced, paths)
    ensures IsReduced(reduced, reduced)
  {
    forall p
      ensures p in reduced <==> Minimal(p, reduced)
    {
      if p in reduced {
        assert Minimal(p, paths);
        assert forall q | q in reduced :: Minimal(q, paths);
      }
    }
  }

  // ---- Deleting ----

  datatype Kind = File | Directory

  /** A directory tree: every entry by its components. */
  type Entries = map<seq<string>, Kind>

  /** Everything but the root lies in a directory that exists. */
  ghost predicate WellFormed(entries: Entries) {
    forall p | p in entries ::
      p != [] && (|p| > 1 ==> p[..|p| - 1] in entries && entries[p[..|p| - 1]] == Directory)
  }

  /** The tree without what lies at or below a listed path. */
  function Without(entries: Entries, ignored: seq<string>): Entries {
    map p | p in entries && (forall q | q in ignored :: !(Parts(q) <= p)) :: entries[p]
  }

  /** The tree without one target and what lies below it. */
  function RemoveBelow(entries: Entries, target: seq<string>): Entries {
    map p | p in entries && !(target <= p) :: entries[p]
  }

  function Subtree(entries: Entries, root: seq<string>): set<seq<string>> {
    set p | p in entries && root <= p
  }

  /** Nothing lies below a file, and nothing below what does not exist. */
  lemma {:induction false} NothingBelow(entries: Entries, p: seq<string>, q: seq<string>)
    requires WellFormed(entries) && q in entries && p <= q && p != q && p != []
    ensures p in entries && entries[p] == Directory
  {
    var parent := q[..|q| - 1];
    if p != parent {
      NothingBelow(entries, p, parent);
    }
  }

  class Checkout {
    var entries: Entries

    ghost predicate Valid()
      reads this
    {
      WellFormed(entries)
    }

    /** A directory is removed with everything in it, a file alone. */
    method Remove(target: seq<string>)
      requires Valid() && target in entries
      modifies this
      ensures Valid()
      ensures entries == RemoveBelow(old(entries), target)
    {
      RemovalKeepsTree(entries, target);
      if entries[target] == Directory {
        entries := entries - Subtree(entries, target);
      } else {
        FileIsAlone(entries, target);
        entries := entries - {target};
      }
    }

    /** One ignored path; nothing happens when it does not exist. */
    method RemoveIfPresent(path: string) returns (present: bool)
      requires Valid() && ValidPath(path)
      modifies this
      ensures Valid()
      ensures present <==> Parts(path) in old(entries)
      ensures entries == RemoveBelow(old(entries), Parts(path))
    {
      var target := Parts(path);
      if target !in entries {
        AbsentHasNothingBelow(entries, target);
        return false;
      }
      Remove(target);
      return true;
    }

    /** Path by path; the removed ones are reported. */
    method RemoveIgnored(ignored: seq<string>) returns (removed: seq<string>)
      requires Valid() && forall q | q in ignored :: ValidPath(q)
      modifies this
      ensures Valid()
      ensures entries == Without(old(entries), ignored)
      ensures removed == RemovedBy(old(entries), ignored)
    {
      ghost var before := entries;
      removed := [];
      WithoutNothing(before);
      for i := 0 to |ignored|
        invariant Valid()
        invariant entries == Without(before, ignored[..i])
        invariant removed == RemovedBy(before, ignored[..i])
      {
        var present := RemoveIfPresent(ignored[i]);
        RemoveOneMore(before, ignored, i);
        if present {
          removed := removed + [ignored[i]];
        }
      }
      assert ignored[..|ignored|] == ignored;
    }
  }

  lemma RemoveOneMore(entries: Entries, ignored: seq<string>, i: nat)
    requires i < |ignored|
    ensures Without(entries, ignored[..i + 1]) == RemoveBelow(Without(entries, ignored[..i]), Parts(ignored[i]))
    ensures RemovedBy(entries, ignored[..i + 1])
         == if Parts(ignored[i]) in Without(entries, ignored[..i]) then RemovedBy(entries, ignored[..i]) + [ignored[i]]
            else RemovedBy(entries, ignored[..i])
  {
    WithoutOneMore(entries, ignored, i);
    RemovedOneMore(entries, ignored, i);
  }

  lemma RemovedOneMore(entries: Entries, ignored: seq<string>, i: nat)
    requires i < |ignored|
    ensures RemovedBy(entries, ignored[..i + 1])
         == if Parts(ignored[i]) in Without(entries, ignored[..i]) then RemovedBy(entries, ignored[..i]) + [ignored[i]]
            else RemovedBy(entries, ignored[..i])
  {
    assert ignored[..i + 1][..i] == ignored[..i];
  }

  function RemovedBy(entries: Entries, ignored: seq<string>): seq<string> {
    if ignored == [] then []
    else
      var n := |ignored| - 1;
      RemovedBy(entries, ignored[..n])
        + if Parts(ignored[n]) in Without(entries, ignored[..n]) then [ignored[n]] else []
  }

  lemma WithoutNothing(entries: Entries)
    ensures Without(entries, []) == entries
  {
  }

  lemma WithoutOneMore(entries: Entries, ignored: seq<string>, i: nat)
    requires i < |ignored|
    ensures var before := Without(entries, ignored[..i]);
      Without(entries, ignored[..i + 1]) == RemoveBelow(before, Parts(ignored[i]))
  {
  }

  lemma RemovalKeepsTree(entries: Entries, target: seq<string>)
    requires WellFormed(entries)
    ensures WellFormed(RemoveBelow(entries, target))
  {
  }

  lemma FileIsAlone(entries: Entries, target: seq<string>)
    requires WellFormed(entries) && target in entries && entries[target] == File
    ensures Subtree(entries, target) == {target}
  {
    forall p | p in Subtree(entries, target)
      ensures p == target
    {
      if p != target {
        NothingBelow(entries, target, p);
      }
    }
  }

  lemma AbsentHasNothingBelow(entries: Entries, target: seq<string>)
    requires WellFormed(entries) && target !in entries && target != []
    ensures RemoveBelow(entries, target) == entries
  {
    forall p | p in entries
      ensures !(target <= p)
    {
      if target <= p {
        NothingBelow(entries, target, p);
      }
    }
  }

  /** Deleting the reduced list leaves exactly the tree that deleting the whole list leaves. */
  lemma ReducedDeletesTheSame(entries: Entries, reduced: seq<string>, paths: seq<string>)
    requires IsReduced(reduced, paths)
    ensures Without(entries, reduced) == Without(entries, paths)
  {
    forall p | p in entries
      ensures (forall q | q in reduced :: !(Parts(q) <= p)) <==> (forall q | q in paths :: !(Parts(q) <= p))
    {
      assert forall q | q in reduced :: Minimal(q, paths);
      if q :| q in paths && Parts(q) <= p {
        var r := ReducedCovers(reduced, paths, q);
        assert Parts(r) <= p;
      }
    }
  }

  /** The order of deletion does not matter. */
  lemma DeletionOrderIrrelevant(entries: Entries, xs: seq<string>, ys: seq<string>)
    requires forall p :: p in xs <==> p in ys
    ensures Without(entries, xs) == Without(entries, ys)
  {
  }

  function Existing(entries: Entries, ignored: seq<string>): seq<string> {
    if ignored == [] then []
    else
      var n := |ignored| - 1;
      Existing(entries, ignored[..n]) + if Parts(ignored[n]) in entries then [ignored[n]] else []
  }

  /** With a reduced list, what is reported as removed is what existed at the start. */
  lemma {:induction false} ReducedReportsExisting(entries: Entries, reduced: seq<string>, paths: seq<string>, i: nat)
    requires IsReduced(reduced, paths) && i <= |reduced|
    ensures RemovedBy(entries, reduced[..i]) == Existing(entries, reduced[..i])
  {
    if i > 0 {
      var n := i - 1;
      assert reduced[..i][..n] == reduced[..n];
      ReducedReportsExisting(entries, reduced, paths, n);
      forall q | q in reduced[..n]
        ensures !Covers(q, reduced[n])
      {
        var k :| 0 <= k < n && reduced[k] == q;
        assert Before(q, reduced[n]);
        BeforeTotal(q, q);
        ReducedIsAntichain(reduced, paths, q, reduced[n]);
      }
    }
  }

  /** Reported are the listed paths that existed, and no others. */
  lemma {:induction false} ExistingIff(entries: Entries, ignored: seq<string>, p: string)
    ensures p in Existing(entries, ignored) <==> p in ignored && Parts(p) in entries
  {
    if ignored != [] {
      var n := |ignored| - 1;
      ExistingIff(entries, ignored[..n], p);
      assert ignored == ignored[..n] + [ignored[n]];
    }
  }

  lemma ReportIff(entries: Entries, reduced: seq<string>, paths: seq<string>, p: string)
    requires IsReduced(reduced, paths)
    ensures p in RemovedBy(entries, reduced) <==> p in reduced && Parts(p) in entries
  {
    ReducedReportsExisting(entries, reduced, paths, |reduced|);
    assert reduced[..|reduced|] == reduced;
    ExistingIff(entries, reduced, p);
  }

  // ---- Loading ----

  /** The validated and reduced list of one repository; an unsafe path is refused. */
  method LoadIgnored(ignored: seq<string>) returns (loaded: Option<seq<string>>)
    ensures loaded.None? <==> exists q :: q in ignored && !ValidPath(q)
    ensures loaded.Some? ==> IsReduced(loaded.value, ignored) && forall q | q in loaded.value :: ValidPath(q)
  {
    for i := 0 to |ignored|
      invariant forall k | 0 <= k < i :: ValidPath(ignored[k])
    {
      if !ValidPath(ignored[i]) {
        return None;
      }
    }
    var normalized := NormalizeIgnored(ignored);
    assert forall q | q in normalized :: Minimal(q, ignored);
    return Some(normalized);
  }
}
