/** Finding the chain pairs without an inbound limit. */
module InboundLimits {
  import opened Outcomes
  import opened LimitFormatting

  type Chain = string

  datatype Limits = Limits(outbound: Option<string>, inbound: Option<map<Chain, string>>)

  datatype ChainConfig = ChainConfig(limits: Option<Limits>)

  type Configs = map<Chain, ChainConfig>

  datatype Group = Group(destination: Chain, sources: seq<Chain>, defaultLimit: string, decimals: nat)

  // ---- Reading the configuration ----

  /** The outbound limit; an empty string is as good as none. */
  function OutboundOf(configs: Configs, destination: Chain): Option<string> {
    if destination in configs && configs[destination].limits.Some? then
      match configs[destination].limits.value.outbound
      case None => None
      case Some(outbound) => if outbound == "" then None else Some(outbound)
    else None
  }

  function InboundOf(configs: Configs, destination: Chain, source: Chain): Option<string> {
    if destination in configs && configs[destination].limits.Some?
       && configs[destination].limits.value.inbound.Some?
       && source in configs[destination].limits.value.inbound.value
    then Some(configs[destination].limits.value.inbound.value[source])
    else None
  }

  predicate HasWellFormedOutbound(configs: Configs, destination: Chain) {
    OutboundOf(configs, destination).Some? && GetDecimalsFromLimit(OutboundOf(configs, destination).value).Some?
  }

  /** With a new chain, only pairs that involve it are looked at; an empty name counts as none. */
  predicate InScope(newChain: Option<Chain>, destination: Chain, source: Chain) {
    newChain.None? || newChain.value == "" || source == newChain.value || destination == newChain.value
  }

  predicate UnsetOrZero(limit: Option<string>) {
    limit.None? || IsZeroLimit(limit.value)
  }

  predicate MissingPair(configs: Configs, newChain: Option<Chain>, destination: Chain, source: Chain) {
    && source != destination
    && HasWellFormedOutbound(configs, destination)
    && InScope(newChain, destination, source)
    && UnsetOrZero(InboundOf(configs, destination, source))
  }

  /** What counts as an outbound limit. */
  lemma OutboundIff(configs: Configs, destination: Chain, outbound: string)
    ensures OutboundOf(configs, destination) == Some(outbound) <==>
      && outbound != "" && destination in configs
      && exists limits :: configs[destination].limits == Some(limits) && limits.outbound == Some(outbound)
  {
  }

  /** What counts as an inbound limit. */
  lemma InboundIff(configs: Configs, destination: Chain, source: Chain, inbound: string)
    ensures InboundOf(configs, destination, source) == Some(inbound) <==>
      destination in configs && exists limits, entries ::
        && configs[destination].limits == Some(limits) && limits.inbound == Some(entries)
        && source in entries && entries[source] == inbound
  {
  }

  // ---- The groups, as a function of the configuration ----

  function MissingSources(
    sources: seq<Chain>, configs: Configs, newChain: Option<Chain>, destination: Chain): seq<Chain>
  {
    if sources == [] then []
    else
      var n := |sources| - 1;
      MissingSources(sources[..n], configs, newChain, destination)
        + if MissingPair(configs, newChain, destination, sources[n]) then [sources[n]] else []
  }

  /** The group of a destination, if it misses anything. */
  function GroupsAt(
    sources: seq<Chain>, configs: Configs, newChain: Option<Chain>, destination: Chain): seq<Group>
  {
    var missing := MissingSources(sources, configs, newChain, destination);
    if missing == [] || !HasWellFormedOutbound(configs, destination) then []
    else
      var outbound := OutboundOf(configs, destination).value;
      [Group(destination, missing, outbound, GetDecimalsFromLimit(outbound).value)]
  }

  function GroupsOf(
    destinations: seq<Chain>, names: seq<Chain>, configs: Configs, newChain: Option<Chain>): seq<Group>
  {
    if destinations == [] then []
    else
      var n := |destinations| - 1;
      GroupsOf(destinations[..n], names, configs, newChain) + GroupsAt(names, configs, newChain, destinations[n])
  }

  // ---- Sorting, by the rank a collation gives ----

  function InsertBy<T>(x: T, xs: seq<T>, rank: T -> int): (inserted: seq<T>)
    ensures |inserted| == |xs| + 1
  {
    if xs == [] then [x]
    else if rank(xs[|xs| - 1]) <= rank(x) then xs + [x]
    else InsertBy(x, xs[..|xs| - 1], rank) + [xs[|xs| - 1]]
  }

  /** A stable sort. */
  function SortBy<T>(xs: seq<T>, rank: T -> int): (sorted: seq<T>)
    ensures |sorted| == |xs|
  {
    if xs == [] then [] else InsertBy(xs[|xs| - 1], SortBy(xs[..|xs| - 1], rank), rank)
  }

  predicate SortedBy<T>(xs: seq<T>, rank: T -> int) {
    forall i, j | 0 <= i < j < |xs| :: rank(xs[i]) <= rank(xs[j])
  }

  lemma {:induction false} InsertByIsPermutation<T>(x: T, xs: seq<T>, rank: T -> int)
    ensures multiset(InsertBy(x, xs, rank)) == multiset(xs) + multiset{x}
  {
    if xs != [] && !(rank(xs[|xs| - 1]) <= rank(x)) {
      InsertByIsPermutation(x, xs[..|xs| - 1], rank);
      assert xs == xs[..|xs| - 1] + [xs[|xs| - 1]];
    }
  }

  lemma {:induction false} InsertBySorted<T>(x: T, xs: seq<T>, rank: T -> int)
    requires SortedBy(xs, rank)
    ensures SortedBy(InsertBy(x, xs, rank), rank)
    ensures forall y | y in InsertBy(x, xs, rank) :: y == x || y in xs
  {
    if xs != [] && !(rank(xs[|xs| - 1]) <= rank(x)) {
      InsertBySorted(x, xs[..|xs| - 1], rank);
      var front := InsertBy(x, xs[..|xs| - 1], rank);
      forall i | 0 <= i < |front|
        ensures rank(front[i]) <= rank(xs[|xs| - 1])
      {
        assert front[i] in front;
      }
    }
  }

  lemma LastOut<T>(xs: seq<T>)
    requires xs != []
    ensures multiset(xs) == multiset(xs[..|xs| - 1]) + multiset{xs[|xs| - 1]}
  {
    assert xs == xs[..|xs| - 1] + [xs[|xs| - 1]];
  }

  lemma {:induction false} SortByIsPermutation<T>(xs: seq<T>, rank: T -> int)
    ensures multiset(SortBy(xs, rank)) == multiset(xs)
  {
    if xs != [] {
      var n := |xs| - 1;
      SortByIsPermutation(xs[..n], rank);
      InsertByIsPermutation(xs[n], SortBy(xs[..n], rank), rank);
      LastOut(xs);
    }
  }

  lemma {:induction false} SortByInOrder<T>(xs: seq<T>, rank: T -> int)
    ensures SortedBy(SortBy(xs, rank), rank)
  {
    if xs != [] {
      var n := |xs| - 1;
      SortByInOrder(xs[..n], rank);
      InsertBySorted(xs[n], SortBy(xs[..n], rank), rank);
    }
  }

  lemma SortByIsSortedPermutation<T>(xs: seq<T>, rank: T -> int)
    ensures multiset(SortBy(xs, rank)) == multiset(xs)
    ensures SortedBy(SortBy(xs, rank), rank)
  {
    SortByIsPermutation(xs, rank);
    SortByInOrder(xs, rank);
  }

  // ---- Collecting ----

  predicate Distinct<T(==)>(xs: seq<T>) {
    forall i, j | 0 <= i < j < |xs| :: xs[i] != xs[j]
  }

  /** The entry of an insertion-ordered map from destination to group. */
  function Find(groups: seq<Group>, destination: Chain): (index: Option<nat>)
    ensures index.None? ==> forall g | g in groups :: g.destination != destination
    ensures index.Some? ==> index.value < |groups| && groups[index.value].destination == destination
  {
    if groups == [] then None
    else if groups[|groups| - 1].destination == destination then Some(|groups| - 1)
    else Find(groups[..|groups| - 1], destination)
  }

  lemma {:induction false} GroupsOfDestinations(
    destinations: seq<Chain>, names: seq<Chain>, configs: Configs, newChain: Option<Chain>)
    ensures forall g | g in GroupsOf(destinations, names, configs, newChain) :: g.destination in destinations
  {
    if destinations != [] {
      GroupsOfDestinations(destinations[..|destinations| - 1], names, configs, newChain);
    }
  }

  lemma GroupsOneDestinationMore(chains: seq<Chain>, i: nat, configs: Configs, newChain: Option<Chain>)
    requires Distinct(chains) && i < |chains|
    ensures var sofar, at := GroupsOf(chains[..i], chains, configs, newChain), GroupsAt(chains, configs, newChain, chains[i]);
      && GroupsOf(chains[..i + 1], chains, configs, newChain) == sofar + at
      && (!HasWellFormedOutbound(configs, chains[i]) ==> sofar + at == sofar)
      && forall g | g in sofar :: g.destination != chains[i]
  {
    assert chains[..i + 1][..i] == chains[..i];
    GroupsOfDestinations(chains[..i], chains, configs, newChain);
  }

  /** The nested loops over destinations and sources, filling the map one source at a time. */
  method CollectPairs(chains: seq<Chain>, configs: Configs, newChain: Option<Chain>) returns (missing: seq<Group>)
    requires Distinct(chains)
    ensures missing == GroupsOf(chains, chains, configs, newChain)
  {
    missing := [];
    for i := 0 to |chains|
      invariant missing == GroupsOf(chains[..i], chains, configs, newChain)
    {
      var destination := chains[i];
      GroupsOneDestinationMore(chains, i, configs, newChain);
      if !HasWellFormedOutbound(configs, destination) {
        continue;
      }
      missing := CollectSources(missing, destination, chains, configs, newChain);
    }
    assert chains[..|chains|] == chains;
  }

  /** Pushes onto the destination's group, or starts one. */
  function AddSource(
    missing: seq<Group>, destination: Chain, source: Chain, outbound: string, decimals: nat): seq<Group>
  {
    var existing := Find(missing, destination);
    if existing.Some? then
      var g := missing[existing.value];
      missing[existing.value := g.(sources := g.sources + [source])]
    else missing + [Group(destination, [source], outbound, decimals)]
  }

  lemma AddSourceMeans(
    before: seq<Group>, sofar: seq<Chain>, destination: Chain, source: Chain, outbound: string, decimals: nat)
    requires forall g | g in before :: g.destination != destination
    ensures var group := Group(destination, sofar, outbound, decimals);
      AddSource(if sofar == [] then before + [] else before + [group], destination, source, outbound, decimals)
        == before + [group.(sources := sofar + [source])]
  {
    var group := Group(destination, sofar, outbound, decimals);
    if sofar == [] {
      assert before + [] == before;
      assert sofar + [source] == [source];
    } else {
      assert (before + [group])[..|before|] == before;
      assert Find(before + [group], destination) == Some(|before|);
    }
  }

  lemma MissingOneMore(chains: seq<Chain>, j: nat, configs: Configs, newChain: Option<Chain>, destination: Chain)
    requires j < |chains|
    ensures var sofar := MissingSources(chains[..j], configs, newChain, destination);
      MissingSources(chains[..j + 1], configs, newChain, destination)
        == if MissingPair(configs, newChain, destination, chains[j]) then sofar + [chains[j]] else sofar
  {
    assert chains[..j + 1][..j] == chains[..j];
  }

  method CollectSources(
    before: seq<Group>, destination: Chain, chains: seq<Chain>, configs: Configs, newChain: Option<Chain>)
    returns (missing: seq<Group>)
    requires HasWellFormedOutbound(configs, destination)
    requires forall g | g in before :: g.destination != destination
    ensures missing == before + GroupsAt(chains, configs, newChain, destination)
  {
    var outbound := OutboundOf(configs, destination).value;
    var decimals := GetDecimalsFromLimit(outbound).value;
    missing := before;
    for j := 0 to |chains|
      invariant missing == before + GroupsAt(chains[..j], configs, newChain, destination)
    {
      var source := chains[j];
      MissingOneMore(chains, j, configs, newChain, destination);
      if source == destination || !InScope(newChain, destination, source) {
        continue;
      }
      if !UnsetOrZero(InboundOf(configs, destination, source)) {
        continue;
      }
      AddSourceMeans(before, MissingSources(chains[..j], configs, newChain, destination), destination, source, outbound,
                     decimals);
      missing := AddSource(missing, destination, source, outbound, decimals);
    }
    assert chains[..|chains|] == chains;
  }

  /** What the collector returns, before sorting. */
  function Collected(names: seq<Chain>, configs: Configs, newChain: Option<Chain>): seq<Group> {
    if newChain.Some? && newChain.value != "" && newChain.value !in names then []
    else GroupsOf(names, names, configs, newChain)
  }

  // ---- What the collector lists ----

  ghost function PairsFrom(destination: Chain, sources: seq<Chain>): set<(Chain, Chain)> {
    set source | source in sources :: (destination, source)
  }

  /** The pairs the groups list. */
  ghost function PairsOf(groups: seq<Group>): set<(Chain, Chain)> {
    set g, source | g in groups && source in g.sources :: (g.destination, source)
  }

  /** A group's default and precision are those of its destination's outbound limit. */
  predicate DescribedBy(configs: Configs, g: Group) {
    && OutboundOf(configs, g.destination) == Some(g.defaultLimit)
    && GetDecimalsFromLimit(g.defaultLimit) == Some(g.decimals)
  }

  lemma SortedKeepsPairs(destination: Chain, sources: seq<Chain>, rank: Chain -> int)
    ensures PairsFrom(destination, SortBy(sources, rank)) == PairsFrom(destination, sources)
  {
    SortByIsSortedPermutation(sources, rank);
    SameElements(sources, SortBy(sources, rank));
  }

  lemma SameElements<T>(xs: seq<T>, ys: seq<T>)
    requires multiset(xs) == multiset(ys)
    ensures forall x :: x in xs <==> x in ys
  {
    forall x
      ensures x in xs <==> x in ys
    {
      assert x in xs <==> x in multiset(xs);
    }
  }

  lemma SamePairs(xs: seq<Group>, ys: seq<Group>)
    requires multiset(xs) == multiset(ys)
    ensures PairsOf(xs) == PairsOf(ys) && (xs == [] <==> ys == [])
  {
    SameElements(xs, ys);
    assert |multiset(xs)| == |xs| && |multiset(ys)| == |ys|;
  }

  lemma {:induction false} MissingSourcesExact(
    sources: seq<Chain>, configs: Configs, newChain: Option<Chain>, destination: Chain)
    requires Distinct(sources)
    ensures var missing := MissingSources(sources, configs, newChain, destination);
      && Distinct(missing)
      && forall s :: s in missing <==> s in sources && MissingPair(configs, newChain, destination, s)
  {
    if sources != [] {
      var n := |sources| - 1;
      MissingSourcesExact(sources[..n], configs, newChain, destination);
      assert forall s :: s in sources <==> s in sources[..n] || s == sources[n];
    }
  }

  /** No destination has two groups, and no group lists a source twice. */
  ghost predicate ListsOnce(groups: seq<Group>) {
    && (forall i, j | 0 <= i < j < |groups| :: groups[i].destination != groups[j].destination)
    && forall g | g in groups :: g.sources != [] && Distinct(g.sources)
  }

  lemma {:induction false} GroupsExact(
    destinations: seq<Chain>, names: seq<Chain>, configs: Configs, newChain: Option<Chain>)
    requires Distinct(destinations) && Distinct(names)
    ensures var groups := GroupsOf(destinations, names, configs, newChain);
      && ListsOnce(groups)
      && (forall g | g in groups :: DescribedBy(configs, g))
      && forall d, s :: (d, s) in PairsOf(groups)
           <==> d in destinations && s in names && MissingPair(configs, newChain, d, s)
  {
    if destinations != [] {
      var n := |destinations| - 1;
      var d := destinations[n];
      GroupsExact(destinations[..n], names, configs, newChain);
      GroupsOfDestinations(destinations[..n], names, configs, newChain);
      MissingSourcesExact(names, configs, newChain, d);
      var front := GroupsOf(destinations[..n], names, configs, newChain);
      var groups := GroupsOf(destinations, names, configs, newChain);
      PairsOfConcat(front, GroupsAt(names, configs, newChain, d));
      assert forall x :: x in destinations <==> x in destinations[..n] || x == d;
    }
  }

  lemma PairsOfConcat(xs: seq<Group>, ys: seq<Group>)
    ensures PairsOf(xs + ys) == PairsOf(xs) + PairsOf(ys)
  {
  }

  /** The collector lists every eligible pair with a missing or zero inbound limit, once, and nothing else. */
  lemma CollectorListsMissing(names: seq<Chain>, configs: Configs, newChain: Option<Chain>)
    requires Distinct(names)
    ensures var groups := Collected(names, configs, newChain);
      && ListsOnce(groups)
      && (forall g | g in groups :: DescribedBy(configs, g))
      && forall d, s :: (d, s) in PairsOf(groups) <==>
           && d in names && s in names && d != s
           && OutboundOf(configs, d).Some? && GetDecimalsFromLimit(OutboundOf(configs, d).value).Some?
           && (newChain.None? || newChain.value == "" || newChain.value == d || newChain.value == s)
           && (InboundOf(configs, d, s).None? || IsZeroLimit(InboundOf(configs, d, s).value))
  {
    GroupsExact(names, names, configs, newChain);
  }

  /** Sorting by destination keeps every pair listed once. */
  lemma {:induction false} SortKeepsListsOnce(groups: seq<Group>, rank: Group -> int)
    requires ListsOnce(groups)
    ensures ListsOnce(SortBy(groups, rank))
  {
    if groups != [] {
      var n := |groups| - 1;
      SortKeepsListsOnce(groups[..n], rank);
      SortByIsSortedPermutation(groups[..n], rank);
      SameElements(groups[..n], SortBy(groups[..n], rank));
      InsertKeepsListsOnce(groups[n], SortBy(groups[..n], rank), rank);
    }
  }

  lemma {:induction false} InsertKeepsListsOnce(x: Group, xs: seq<Group>, rank: Group -> int)
    requires ListsOnce(xs) && x.sources != [] && Distinct(x.sources)
    requires forall g | g in xs :: g.destination != x.destination
    ensures ListsOnce(InsertBy(x, xs, rank))
    ensures forall g | g in InsertBy(x, xs, rank) :: g == x || g in xs
  {
    if xs == [] || rank(xs[|xs| - 1]) <= rank(x) {
      OneMoreListedOnce(xs, x);
    } else {
      var n := |xs| - 1;
      FrontListsOnce(xs);
      InsertKeepsListsOnce(x, xs[..n], rank);
      OneMoreListedOnce(InsertBy(x, xs[..n], rank), xs[n]);
    }
  }

  lemma FrontListsOnce(xs: seq<Group>)
    requires ListsOnce(xs) && xs != []
    ensures ListsOnce(xs[..|xs| - 1])
    ensures forall g | g in xs[..|xs| - 1] :: g in xs && g.destination != xs[|xs| - 1].destination
  {
  }

  lemma OneMoreListedOnce(xs: seq<Group>, x: Group)
    requires ListsOnce(xs) && x.sources != [] && Distinct(x.sources)
    requires forall g | g in xs :: g.destination != x.destination
    ensures ListsOnce(xs + [x])
  {
  }
}
