/** The deployment file's inbound limits: asking for the missing ones, and what the answers leave behind. */
module InboundRepair {
  import opened Outcomes
  import opened LimitFormatting
  import opened InboundLimits

  function SetInbound(configs: Configs, destination: Chain, source: Chain, limit: string): Configs {
    if destination !in configs then configs
    else
      var limits := configs[destination].limits.GetOr(Limits(Some("0.0"), Some(map[])));
      var inbound := limits.inbound.GetOr(map[]);
      configs[destination := ChainConfig(Some(limits.(inbound := Some(inbound[source := limit]))))]
  }

  /** White space and line ends as ECMAScript has them. */
  predicate IsWhite(c: char) {
    || '\U{9}' <= c <= '\U{d}' || c == ' ' || c == '\U{a0}' || c == '\U{1680}'
    || '\U{2000}' <= c <= '\U{200a}' || c == '\U{2028}' || c == '\U{2029}' || c == '\U{202f}'
    || c == '\U{205f}' || c == '\U{3000}' || c == '\U{feff}'
  }

  /** Leading and trailing white space removed. */
  function Trim(s: string): string
    decreases |s|
  {
    if s != [] && IsWhite(s[0]) then Trim(s[1..])
    else if s != [] && IsWhite(s[|s| - 1]) then Trim(s[..|s| - 1])
    else s
  }

  predicate IsBlank(s: string) {
    forall c | c in s :: IsWhite(c)
  }

  /** No white space is left at the ends. */
  lemma {:induction false} TrimmedEnds(s: string)
    ensures Trim(s) != [] ==> !IsWhite(Trim(s)[0]) && !IsWhite(Trim(s)[|Trim(s)| - 1])
    decreases |s|
  {
    if s != [] && IsWhite(s[0]) {
      TrimmedEnds(s[1..]);
    } else if s != [] && IsWhite(s[|s| - 1]) {
      TrimmedEnds(s[..|s| - 1]);
    }
  }

  /** Nothing but white space is lost. */
  lemma {:induction false} TrimKeeps(s: string) returns (before: string, after: string)
    ensures s == before + Trim(s) + after && IsBlank(before) && IsBlank(after)
    decreases |s|
  {
    if s != [] && IsWhite(s[0]) {
      before, after := TrimKeeps(s[1..]);
      BlankInFront(s, before, Trim(s), after);
      before := [s[0]] + before;
    } else if s != [] && IsWhite(s[|s| - 1]) {
      before, after := TrimKeeps(s[..|s| - 1]);
      BlankBehind(s, before, Trim(s), after);
      after := after + [s[|s| - 1]];
    } else {
      before, after := "", "";
    }
  }

  lemma BlankInFront(s: string, before: string, kept: string, after: string)
    requires s != [] && IsWhite(s[0]) && IsBlank(before) && s[1..] == before + kept + after
    ensures s == [s[0]] + before + kept + after && IsBlank([s[0]] + before)
  {
    assert s == [s[0]] + s[1..];
  }

  lemma BlankBehind(s: string, before: string, kept: string, after: string)
    requires s != [] && IsWhite(s[|s| - 1]) && IsBlank(after) && s[..|s| - 1] == before + kept + after
    ensures s == before + kept + (after + [s[|s| - 1]]) && IsBlank(after + [s[|s| - 1]])
  {
    assert s == s[..|s| - 1] + [s[|s| - 1]];
  }

  /** The limit an answer stands for: nothing is the default, a plain 0 is zero at the right precision. */
  function AnsweredLimit(line: string, group: Group): string {
    var answer := Trim(line);
    if answer == "0" then if group.decimals == 0 then "0" else "0." + Zeros(group.decimals)
    else if answer == "" then group.defaultLimit
    else answer
  }

  // ---- What an answered dialogue writes ----

  datatype Write = Write(destination: Chain, source: Chain, limit: string)

  /** The configurations after some writes, first to last. */
  function Written(configs: Configs, writes: seq<Write>): Configs {
    if writes == [] then configs
    else
      var n := |writes| - 1;
      SetInbound(Written(configs, writes[..n]), writes[n].destination, writes[n].source, writes[n].limit)
  }

  /** The answers that are valid limits, in order. */
  function ValidAnswers(lines: seq<string>, g: Group): seq<string> {
    if lines == [] then []
    else
      var limit := AnsweredLimit(lines[0], g);
      (if IsValidLimit(limit, g.decimals) then [limit] else []) + ValidAnswers(lines[1..], g)
  }

  /** What is left of the input after `k` valid answers. */
  function LinesAfter(lines: seq<string>, g: Group, k: nat): seq<string> {
    if k == 0 || lines == [] then lines
    else LinesAfter(lines[1..], g, if IsValidLimit(AnsweredLimit(lines[0], g), g.decimals) then k - 1 else k)
  }

  /** Each source gets one limit, in turn, while there are any. */
  function WritesTo(destination: Chain, sources: seq<Chain>, limits: seq<string>): (writes: seq<Write>)
    ensures |writes| == if |sources| <= |limits| then |sources| else |limits|
  {
    var n := if |sources| <= |limits| then |sources| else |limits|;
    seq(n, i requires 0 <= i < n => Write(destination, sources[i], limits[i]))
  }

  /** The sources get the valid answers. */
  function Asked(g: Group, sources: seq<Chain>, lines: seq<string>): seq<Write> {
    WritesTo(g.destination, sources, ValidAnswers(lines, g))
  }

  /** There is a valid answer for each of `n` sources. */
  predicate AskedDone(g: Group, n: nat, lines: seq<string>) {
    n <= |ValidAnswers(lines, g)|
  }

  function Defaulted(g: Group, sources: seq<Chain>): seq<Write> {
    WritesTo(g.destination, sources, seq(|sources|, _ => g.defaultLimit))
  }

  function GroupWrites(g: Group, applyDefault: bool, lines: seq<string>, rank: Chain -> int): seq<Write> {
    if applyDefault then Defaulted(g, SortBy(g.sources, rank)) else Asked(g, SortBy(g.sources, rank), lines)
  }

  predicate GroupDone(g: Group, applyDefault: bool, lines: seq<string>) {
    applyDefault || AskedDone(g, |g.sources|, lines)
  }

  function GroupLeft(g: Group, applyDefault: bool, lines: seq<string>): seq<string> {
    if applyDefault then lines else LinesAfter(lines, g, |g.sources|)
  }

  /** Group after group, as long as the user answers. */
  function AllWrites(groups: seq<Group>, defaults: seq<bool>, lines: seq<string>, rank: Chain -> int): seq<Write>
    decreases |groups|
  {
    if groups == [] || defaults == [] then []
    else
      GroupWrites(groups[0], defaults[0], lines, rank)
        + if GroupDone(groups[0], defaults[0], lines)
          then AllWrites(groups[1..], defaults[1..], GroupLeft(groups[0], defaults[0], lines), rank)
          else []
  }

  predicate AllDone(groups: seq<Group>, defaults: seq<bool>, lines: seq<string>)
    decreases |groups|
  {
    groups == [] || (
      && defaults != []
      && GroupDone(groups[0], defaults[0], lines)
      && AllDone(groups[1..], defaults[1..], GroupLeft(groups[0], defaults[0], lines)))
  }

  /** How applying ends: without asking, with everything set, or cut short by the user. */
  datatype Applied = NotUpdated | Updated | Aborted

  function Ending(groups: seq<Group>, skipPrompts: bool, defaults: seq<bool>, lines: seq<string>): Applied {
    if groups == [] || skipPrompts then NotUpdated
    else if AllDone(groups, defaults, lines) then Updated
    else Aborted
  }

  lemma {:induction false} WrittenConcat(configs: Configs, xs: seq<Write>, ys: seq<Write>)
    ensures Written(configs, xs + ys) == Written(Written(configs, xs), ys)
  {
    if ys == [] {
      assert xs + [] == xs;
    } else {
      var n := |ys| - 1;
      assert (xs + ys)[..|xs| + n] == xs + ys[..n];
      WrittenConcat(configs, xs, ys[..n]);
    }
  }

  lemma WriteFirst(configs: Configs, w: Write, rest: seq<Write>)
    ensures Written(configs, [w] + rest) == Written(SetInbound(configs, w.destination, w.source, w.limit), rest)
  {
    WrittenConcat(configs, [w], rest);
    assert Written(configs, [w][..0]) == configs;
  }

  lemma WriteOneMore(configs: Configs, destination: Chain, sources: seq<Chain>, limits: seq<string>, i: nat)
    requires i < |sources| && i < |limits|
    ensures Written(configs, WritesTo(destination, sources[..i + 1], limits))
         == SetInbound(Written(configs, WritesTo(destination, sources[..i], limits)), destination, sources[i], limits[i])
  {
    var writes := WritesTo(destination, sources[..i + 1], limits);
    assert writes[..i] == WritesTo(destination, sources[..i], limits);
  }

  lemma WriteNone(configs: Configs, destination: Chain, sources: seq<Chain>, limits: seq<string>)
    ensures Written(configs, WritesTo(destination, sources[..0], limits)) == configs
  {
    assert WritesTo(destination, sources[..0], limits) == [];
  }

  /** Asks until an answer is valid; None when the user stops before. */
  method NextAnswer(g: Group, lines: seq<string>, ghost k: nat) returns (value: Option<string>, left: seq<string>)
    requires k > 0
    ensures value.None? <==> ValidAnswers(lines, g) == []
    ensures value.Some? ==> ValidAnswers(lines, g) == [value.value] + ValidAnswers(left, g)
    ensures value.Some? ==> LinesAfter(lines, g, k) == LinesAfter(left, g, k - 1)
  {
    left := lines;
    while left != []
      invariant ValidAnswers(left, g) == ValidAnswers(lines, g)
      invariant LinesAfter(left, g, k) == LinesAfter(lines, g, k)
    {
      var limit := AnsweredLimit(left[0], g);
      left := left[1..];
      if IsValidLimit(limit, g.decimals) {
        return Some(limit), left;
      }
    }
    return None, left;
  }

  /** What asking the sources from `i` on, with the rest of the input, still does is what asking all of them does. */
  ghost predicate Asking(
    before: Configs, now: Configs, g: Group, sources: seq<Chain>, lines: seq<string>, left: seq<string>, i: nat)
  {
    && i <= |sources|
    && Written(before, Asked(g, sources, lines)) == Written(now, Asked(g, sources[i..], left))
    && AskedDone(g, |sources|, lines) == AskedDone(g, |sources| - i, left)
    && LinesAfter(lines, g, |sources|) == LinesAfter(left, g, |sources| - i)
  }

  lemma AskingStarts(before: Configs, g: Group, sources: seq<Chain>, lines: seq<string>)
    ensures Asking(before, before, g, sources, lines, lines, 0)
  {
    assert sources[0..] == sources;
  }

  lemma FirstWrite(destination: Chain, sources: seq<Chain>, limit: string, rest: seq<string>)
    requires sources != []
    ensures WritesTo(destination, sources, [limit] + rest)
         == [Write(destination, sources[0], limit)] + WritesTo(destination, sources[1..], rest)
  {
  }

  lemma FirstAsked(g: Group, sources: seq<Chain>, lines: seq<string>, limit: string, left: seq<string>)
    requires sources != [] && ValidAnswers(lines, g) == [limit] + ValidAnswers(left, g)
    ensures Asked(g, sources, lines) == [Write(g.destination, sources[0], limit)] + Asked(g, sources[1..], left)
    ensures AskedDone(g, |sources|, lines) == AskedDone(g, |sources| - 1, left)
  {
    FirstWrite(g.destination, sources, limit, ValidAnswers(left, g));
  }

  lemma AskingNext(
    before: Configs, now: Configs, g: Group, sources: seq<Chain>, lines: seq<string>, left: seq<string>, i: nat,
    limit: string, left': seq<string>)
    requires i < |sources| && Asking(before, now, g, sources, lines, left, i)
    requires ValidAnswers(left, g) == [limit] + ValidAnswers(left', g)
    requires LinesAfter(left, g, |sources| - i) == LinesAfter(left', g, |sources| - i - 1)
    ensures Asking(before, SetInbound(now, g.destination, sources[i], limit), g, sources, lines, left', i + 1)
  {
    FirstAsked(g, sources[i..], left, limit, left');
    assert sources[i..][1..] == sources[i + 1..];
    WriteFirst(now, Write(g.destination, sources[i], limit), Asked(g, sources[i + 1..], left'));
  }

  /** Nobody left to ask, or no valid answer left: nothing more is written. */
  lemma AskingEnds(
    before: Configs, now: Configs, g: Group, sources: seq<Chain>, lines: seq<string>, left: seq<string>, i: nat)
    requires Asking(before, now, g, sources, lines, left, i)
    requires i == |sources| || ValidAnswers(left, g) == []
    ensures now == Written(before, Asked(g, sources, lines))
    ensures AskedDone(g, |sources|, lines) <==> i == |sources|
    ensures i == |sources| ==> left == LinesAfter(lines, g, |sources|)
  {
    assert Asked(g, sources[i..], left) == [];
  }

  /** What the groups from `i` on, with the rest of the input, still do is what all of them do. */
  ghost predicate Applying(
    before: Configs, now: Configs, groups: seq<Group>, defaults: seq<bool>, lines: seq<string>, left: seq<string>,
    rank: Chain -> int, i: nat)
  {
    && i <= |groups| && i <= |defaults|
    && Written(before, AllWrites(groups, defaults, lines, rank)) == Written(now, AllWrites(groups[i..], defaults[i..], left, rank))
    && AllDone(groups, defaults, lines) == AllDone(groups[i..], defaults[i..], left)
  }

  lemma ApplyingStarts(before: Configs, groups: seq<Group>, defaults: seq<bool>, lines: seq<string>, rank: Chain -> int)
    ensures Applying(before, before, groups, defaults, lines, lines, rank, 0)
  {
    assert groups[0..] == groups && defaults[0..] == defaults;
  }

  lemma FirstGroup(groups: seq<Group>, defaults: seq<bool>, lines: seq<string>, rank: Chain -> int, i: nat)
    requires i < |groups| && i < |defaults|
    ensures var g, applyDefault := groups[i], defaults[i];
      var left, writes := GroupLeft(g, applyDefault, lines), GroupWrites(g, applyDefault, lines, rank);
      if GroupDone(g, applyDefault, lines) then
        && AllWrites(groups[i..], defaults[i..], lines, rank) == writes + AllWrites(groups[i + 1..], defaults[i + 1..], left, rank)
        && AllDone(groups[i..], defaults[i..], lines) == AllDone(groups[i + 1..], defaults[i + 1..], left)
      else
        && AllWrites(groups[i..], defaults[i..], lines, rank) == writes
        && !AllDone(groups[i..], defaults[i..], lines)
  {
    assert groups[i..][1..] == groups[i + 1..];
    assert defaults[i..][1..] == defaults[i + 1..];
  }

  /** One more group, or the end when it is not answered to the last. */
  lemma ApplyingNext(
    before: Configs, now: Configs, groups: seq<Group>, defaults: seq<bool>, lines: seq<string>, left: seq<string>,
    rank: Chain -> int, i: nat)
    requires i < |groups| && i < |defaults| && Applying(before, now, groups, defaults, lines, left, rank, i)
    ensures var after := Written(now, GroupWrites(groups[i], defaults[i], left, rank));
      if GroupDone(groups[i], defaults[i], left)
      then Applying(before, after, groups, defaults, lines, GroupLeft(groups[i], defaults[i], left), rank, i + 1)
      else after == Written(before, AllWrites(groups, defaults, lines, rank)) && !AllDone(groups, defaults, lines)
  {
    FirstGroup(groups, defaults, left, rank, i);
    WrittenConcat(now, GroupWrites(groups[i], defaults[i], left, rank),
                  AllWrites(groups[i + 1..], defaults[i + 1..], GroupLeft(groups[i], defaults[i], left), rank));
  }

  lemma ApplyingEnds(
    before: Configs, now: Configs, groups: seq<Group>, defaults: seq<bool>, lines: seq<string>, left: seq<string>,
    rank: Chain -> int, i: nat)
    requires Applying(before, now, groups, defaults, lines, left, rank, i)
    requires i == |groups| || i == |defaults|
    ensures now == Written(before, AllWrites(groups, defaults, lines, rank))
    ensures AllDone(groups, defaults, lines) <==> i == |groups|
  {
  }

  class Deployment {
    var names: seq<Chain>
    var configs: Configs

    /** Keys are distinct, and every configuration belongs to one. */
    ghost predicate Valid()
      reads this
    {
      Distinct(names) && forall name | name in configs :: name in names
    }

    /** The groups with missing inbound limits, sorted; a name that is no known chain throws. */
    method CollectMissingInboundGroups(newChain: Option<Chain>, known: set<Chain>, rank: Chain -> int)
      returns (result: Outcome<seq<Group>>)
      requires Valid()
      ensures result.Panic? <==> exists name | name in names :: name !in known
      ensures result.Value? ==>
        result.value == SortBy(Collected(names, configs, newChain), (g: Group) => rank(g.destination))
    {
      var chains: seq<Chain> := [];
      for i := 0 to |names|
        invariant chains == names[..i]
        invariant forall name | name in chains :: name in known
      {
        if names[i] !in known {
          return Panic;
        }
        chains := chains + [names[i]];
      }
      assert chains == names;
      if newChain.Some? && newChain.value != "" && newChain.value !in chains {
        return Value([]);
      }
      var missing := CollectPairs(chains, configs, newChain);
      return Value(SortBy(missing, (g: Group) => rank(g.destination)));
    }

    /** Writes one limit; a destination without configuration is left alone. */
    method SetInboundLimit(destination: Chain, source: Chain, limit: string)
      modifies this`configs
      ensures configs == SetInbound(old(configs), destination, source, limit)
      ensures configs.Keys == old(configs).Keys
      ensures forall d, s :: InboundOf(configs, d, s)
                == if d == destination && d in configs && s == source then Some(limit) else InboundOf(old(configs), d, s)
      ensures forall d :: OutboundOf(configs, d)
                == if d == destination && d in configs && old(configs)[d].limits.None? then Some("0.0")
                   else OutboundOf(old(configs), d)
    {
      SetInboundMeans(configs, destination, source, limit);
      if destination !in configs {
        return;
      }
      var limits := configs[destination].limits.GetOr(Limits(Some("0.0"), Some(map[])));
      var inbound := limits.inbound.GetOr(map[]);
      configs := configs[destination := ChainConfig(Some(limits.(inbound := Some(inbound[source := limit]))))];
    }

    /** Sets the default for every source of a group. */
    method ApplyDefault(group: Group, sources: seq<Chain>)
      modifies this`configs
      ensures configs == Written(old(configs), Defaulted(group, sources))
    {
      ghost var before := configs;
      ghost var limits := seq(|sources|, _ => group.defaultLimit);
      WriteNone(before, group.destination, sources, limits);
      for i := 0 to |sources|
        invariant configs == Written(before, WritesTo(group.destination, sources[..i], limits))
      {
        WriteOneMore(before, group.destination, sources, limits, i);
        SetInboundLimit(group.destination, sources[i], group.defaultLimit);
      }
      assert sources[..|sources|] == sources;
    }

    /** Asks for each source until the answer is a valid limit; the user can stop at any prompt. */
    method AskForSources(group: Group, sources: seq<Chain>, lines: seq<string>)
      returns (applied: Applied, left: seq<string>)
      modifies this`configs
      ensures applied == if AskedDone(group, |sources|, lines) then Updated else Aborted
      ensures configs == Written(old(configs), Asked(group, sources, lines))
      ensures applied == Updated ==> left == LinesAfter(lines, group, |sources|)
    {
      left := lines;
      ghost var before := configs;
      AskingStarts(before, group, sources, lines);
      for i := 0 to |sources|
        invariant Asking(before, configs, group, sources, lines, left, i)
      {
        ghost var waiting := left;
        var value;
        value, left := NextAnswer(group, left, |sources| - i);
        if value.None? {
          AskingEnds(before, configs, group, sources, lines, waiting, i);
          return Aborted, [];
        }
        AskingNext(before, configs, group, sources, lines, waiting, i, value.value, left);
        SetInboundLimit(group.destination, sources[i], value.value);
      }
      AskingEnds(before, configs, group, sources, lines, left, |sources|);
      return Updated, left;
    }

    method ApplyGroup(g: Group, applyDefault: bool, lines: seq<string>, rank: Chain -> int)
      returns (asked: Applied, left: seq<string>)
      modifies this`configs
      ensures asked == if GroupDone(g, applyDefault, lines) then Updated else Aborted
      ensures configs == Written(old(configs), GroupWrites(g, applyDefault, lines, rank))
      ensures asked == Updated ==> left == GroupLeft(g, applyDefault, lines)
    {
      var sources := SortBy(g.sources, rank);
      if applyDefault {
        ApplyDefault(g, sources);
        return Updated, lines;
      }
      asked, left := AskForSources(g, sources, lines);
    }

    /**
     Goes through the groups: the default for all sources of a group, or one question a source.
     `defaults` and `lines` are the user's answers; running out of them is the user stopping.
     */
    method ApplyInboundGroups(
      groups: seq<Group>, skipPrompts: bool, defaults: seq<bool>, lines: seq<string>, rank: Chain -> int)
      returns (applied: Applied)
      modifies this`configs
      ensures applied == Ending(groups, skipPrompts, defaults, lines)
      ensures applied == NotUpdated <==> groups == [] || skipPrompts
      ensures configs == if skipPrompts then old(configs) else Written(old(configs), AllWrites(groups, defaults, lines, rank))
    {
      if groups == [] || skipPrompts {
        return NotUpdated;
      }
      var left := lines;
      ghost var before := configs;
      ApplyingStarts(before, groups, defaults, lines, rank);
      for i := 0 to |groups|
        invariant Applying(before, configs, groups, defaults, lines, left, rank, i)
      {
        if i == |defaults| {
          ApplyingEnds(before, configs, groups, defaults, lines, left, rank, i);
          return Aborted;
        }
        ApplyingNext(before, configs, groups, defaults, lines, left, rank, i);
        var asked;
        asked, left := ApplyGroup(groups[i], defaults[i], left, rank);
        if asked == Aborted {
          return Aborted;
        }
      }
      ApplyingEnds(before, configs, groups, defaults, lines, left, rank, |groups|);
      return Updated;
    }

    /**
     Collect, then ask. Once everything is answered, collecting again lists exactly the pairs that
     were just set to zero.
     */
    method ConfigureInboundLimits(
      newChain: Option<Chain>, skipPrompts: bool, known: set<Chain>, defaults: seq<bool>, lines: seq<string>,
      rank: Chain -> int)
      returns (result: Outcome<(Applied, bool)>)
      requires Valid()
      modifies this`configs
      ensures Valid()
      ensures result.Panic? <==> exists name | name in names :: name !in known
      ensures result.Panic? ==> configs == old(configs)
      ensures var missing := Collected(names, old(configs), newChain);
        var groups := SortBy(missing, (g: Group) => rank(g.destination));
        result.Value? ==>
          && result.value == (Ending(groups, skipPrompts, defaults, lines), missing != [])
          && configs == (if skipPrompts then old(configs) else Written(old(configs), AllWrites(groups, defaults, lines, rank)))
          && FrameKept(old(configs), configs, PairsOf(missing))
          && (result.value.0 == Updated ==>
                PairsOf(Collected(names, configs, newChain)) == ZeroPairs(configs, PairsOf(missing)))
      ensures result.Value? ==> (result.value.0 == NotUpdated <==> skipPrompts || !result.value.1)
      ensures result.Value? && result.value.0 == Updated ==>
        forall d, s | Expected(names, configs, newChain, d, s) :: InboundOf(configs, d, s).Some?
    {
      var collected := CollectMissingInboundGroups(newChain, known, rank);
      if collected.Panic? {
        return Panic;
      }
      var groups := collected.value;
      ghost var before := configs;
      var applied := ApplyInboundGroups(groups, skipPrompts, defaults, lines, rank);
      DialogueRepairs(names, before, newChain, defaults, lines, rank);
      if applied == Updated {
        DialogueCompletes(names, before, newChain, defaults, lines, rank);
      }
      return Value((applied, groups != []));
    }
  }

  // ---- What a repair changes ----

  /** Everything but the inbound limits of `pairs` is as it was. */
  ghost predicate FrameKept(before: Configs, after: Configs, pairs: set<(Chain, Chain)>) {
    && after.Keys == before.Keys
    && (forall d :: OutboundOf(after, d) == OutboundOf(before, d))
    && (forall d, s | (d, s) !in pairs :: InboundOf(after, d, s) == InboundOf(before, d, s))
  }

  /** A limit a repair may write: the destination's own outbound limit, or a valid one at its precision. */
  predicate Acceptable(configs: Configs, destination: Chain, limit: string) {
    && OutboundOf(configs, destination).Some?
    && var outbound := OutboundOf(configs, destination).value;
       || limit == outbound
       || (GetDecimalsFromLimit(outbound).Some? && IsValidLimit(limit, GetDecimalsFromLimit(outbound).value))
  }

  /** Besides, every one of `pairs` has an acceptable limit. */
  ghost predicate Repaired(before: Configs, after: Configs, pairs: set<(Chain, Chain)>) {
    && FrameKept(before, after, pairs)
    && forall d, s | (d, s) in pairs ::
         InboundOf(after, d, s).Some? && Acceptable(before, d, InboundOf(after, d, s).value)
  }

  lemma RepairedStep(
    before: Configs, mid: Configs, pairs: set<(Chain, Chain)>, destination: Chain, source: Chain, limit: string)
    requires Repaired(before, mid, pairs)
    requires Acceptable(before, destination, limit)
    ensures Repaired(before, SetInbound(mid, destination, source, limit), pairs + {(destination, source)})
    ensures OutboundOf(SetInbound(mid, destination, source, limit), destination) == OutboundOf(mid, destination)
  {
    SetInboundMeans(mid, destination, source, limit);
    assert OutboundOf(mid, destination) == OutboundOf(before, destination);
  }

  /** Writing a limit changes that one entry; a destination without limits also gets a placeholder outbound. */
  lemma SetInboundMeans(configs: Configs, destination: Chain, source: Chain, limit: string)
    ensures var after := SetInbound(configs, destination, source, limit);
      && after.Keys == configs.Keys
      && (forall d :: OutboundOf(after, d)
            == if d == destination && d in configs && configs[d].limits.None? then Some("0.0") else OutboundOf(configs, d))
      && (forall d, s :: InboundOf(after, d, s)
            == if d == destination && d in configs && s == source then Some(limit) else InboundOf(configs, d, s))
  {
  }

  /** Typing 0 sets a valid zero limit at any precision. */
  lemma ZeroAnswerIsZero(line: string, group: Group)
    requires Trim(line) == "0"
    ensures IsValidLimit(AnsweredLimit(line, group), group.decimals) && IsZeroLimit(AnsweredLimit(line, group))
  {
    var limit := AnsweredLimit(line, group);
    DigitsHaveNoDots("0");
    if group.decimals == 0 {
      SplitWithoutDots("0");
    } else {
      DigitsHaveNoDots(Zeros(group.decimals));
      assert limit == "0" + "." + Zeros(group.decimals);
      SplitOneDot("0", Zeros(group.decimals));
      StripOneDot("0", Zeros(group.decimals));
    }
  }

  ghost function PairsWritten(writes: seq<Write>): set<(Chain, Chain)> {
    set w | w in writes :: (w.destination, w.source)
  }

  ghost predicate AllAcceptable(configs: Configs, writes: seq<Write>) {
    forall w | w in writes :: Acceptable(configs, w.destination, w.limit)
  }

  /** Acceptable writes repair the pairs they write. */
  lemma {:induction false} WritesRepair(configs: Configs, writes: seq<Write>)
    requires AllAcceptable(configs, writes)
    ensures Repaired(configs, Written(configs, writes), PairsWritten(writes))
  {
    if writes != [] {
      var n := |writes| - 1;
      var w := writes[n];
      WritesRepair(configs, writes[..n]);
      RepairedStep(configs, Written(configs, writes[..n]), PairsWritten(writes[..n]), w.destination, w.source, w.limit);
      assert PairsWritten(writes) == PairsWritten(writes[..n]) + {(w.destination, w.source)};
    }
  }

  lemma {:induction false} ValidAnswersAreValid(lines: seq<string>, g: Group)
    ensures forall limit | limit in ValidAnswers(lines, g) :: IsValidLimit(limit, g.decimals)
  {
    if lines != [] {
      ValidAnswersAreValid(lines[1..], g);
    }
  }

  /** A group's writes are acceptable, and only for its own pairs; for all of them once it is done. */
  lemma GroupWritesMean(configs: Configs, g: Group, applyDefault: bool, lines: seq<string>, rank: Chain -> int)
    requires DescribedBy(configs, g)
    ensures var writes := GroupWrites(g, applyDefault, lines, rank);
      && AllAcceptable(configs, writes)
      && PairsWritten(writes) <= PairsFrom(g.destination, g.sources)
      && (GroupDone(g, applyDefault, lines) ==> PairsWritten(writes) == PairsFrom(g.destination, g.sources))
  {
    var sources := SortBy(g.sources, rank);
    ValidAnswersAreValid(lines, g);
    SortedKeepsPairs(g.destination, g.sources, rank);
    PairsOfWrites(g.destination, sources, if applyDefault then seq(|sources|, _ => g.defaultLimit) else ValidAnswers(lines, g));
  }

  lemma PairsOfWrites(destination: Chain, sources: seq<Chain>, limits: seq<string>)
    ensures PairsWritten(WritesTo(destination, sources, limits)) <= PairsFrom(destination, sources)
    ensures |sources| <= |limits| ==> PairsWritten(WritesTo(destination, sources, limits)) == PairsFrom(destination, sources)
  {
    var writes := WritesTo(destination, sources, limits);
    if |sources| <= |limits| {
      forall p | p in PairsFrom(destination, sources)
        ensures p in PairsWritten(writes)
      {
        var i :| 0 <= i < |sources| && sources[i] == p.1;
        assert writes[i] in writes;
      }
    }
  }

  lemma {:induction false} AllWritesMean(
    configs: Configs, groups: seq<Group>, defaults: seq<bool>, lines: seq<string>, rank: Chain -> int)
    requires forall g | g in groups :: DescribedBy(configs, g)
    ensures var writes := AllWrites(groups, defaults, lines, rank);
      && AllAcceptable(configs, writes)
      && PairsWritten(writes) <= PairsOf(groups)
      && (AllDone(groups, defaults, lines) ==> PairsWritten(writes) == PairsOf(groups))
    decreases |groups|
  {
    if groups != [] && defaults != [] {
      GroupWritesMean(configs, groups[0], defaults[0], lines, rank);
      var left := GroupLeft(groups[0], defaults[0], lines);
      AllWritesMean(configs, groups[1..], defaults[1..], left, rank);
      PairsOfFirst(groups);
      PairsConcat(GroupWrites(groups[0], defaults[0], lines, rank), AllWrites(groups[1..], defaults[1..], left, rank));
    }
  }

  lemma PairsConcat(xs: seq<Write>, ys: seq<Write>)
    ensures PairsWritten(xs + ys) == PairsWritten(xs) + PairsWritten(ys)
  {
  }

  lemma PairsOfFirst(groups: seq<Group>)
    requires groups != []
    ensures PairsOf(groups) == PairsFrom(groups[0].destination, groups[0].sources) + PairsOf(groups[1..])
  {
    assert groups == [groups[0]] + groups[1..];
  }

  // ---- Repairing, then collecting again ----

  ghost function ZeroPairs(configs: Configs, pairs: set<(Chain, Chain)>): set<(Chain, Chain)> {
    set p | p in pairs && InboundOf(configs, p.0, p.1).Some? && IsZeroLimit(InboundOf(configs, p.0, p.1).value)
  }

  /** After every listed pair got a limit, what is listed again is what was set to zero. */
  lemma RepairThenCollect(names: seq<Chain>, before: Configs, after: Configs, newChain: Option<Chain>)
    requires Distinct(names)
    requires Repaired(before, after, PairsOf(Collected(names, before, newChain)))
    ensures PairsOf(Collected(names, after, newChain)) == ZeroPairs(after, PairsOf(Collected(names, before, newChain)))
  {
    CollectorListsMissing(names, before, newChain);
    CollectorListsMissing(names, after, newChain);
    var pairs := PairsOf(Collected(names, before, newChain));
    forall d, s
      ensures (d, s) in PairsOf(Collected(names, after, newChain)) <==> (d, s) in ZeroPairs(after, pairs)
    {
      assert OutboundOf(after, d) == OutboundOf(before, d);
      if (d, s) !in pairs {
        assert InboundOf(after, d, s) == InboundOf(before, d, s);
      }
    }
  }

  /**
   Whatever the user answers, only listed inbound limits change; and when all is answered, collecting
   again lists exactly the pairs that were set to zero.
   */
  lemma DialogueRepairs(
    names: seq<Chain>, configs: Configs, newChain: Option<Chain>, defaults: seq<bool>, lines: seq<string>,
    rank: Chain -> int)
    requires Distinct(names)
    ensures var missing := Collected(names, configs, newChain);
      var groups := SortBy(missing, (g: Group) => rank(g.destination));
      var after := Written(configs, AllWrites(groups, defaults, lines, rank));
      && FrameKept(configs, after, PairsOf(missing))
      && (AllDone(groups, defaults, lines) ==>
            PairsOf(Collected(names, after, newChain)) == ZeroPairs(after, PairsOf(missing)))
  {
    var missing := Collected(names, configs, newChain);
    var groups := SortBy(missing, (g: Group) => rank(g.destination));
    SortByIsSortedPermutation(missing, (g: Group) => rank(g.destination));
    SamePairs(missing, groups);
    SameElements(missing, groups);
    CollectorListsMissing(names, configs, newChain);
    AllWritesMean(configs, groups, defaults, lines, rank);
    var writes := AllWrites(groups, defaults, lines, rank);
    WritesRepair(configs, writes);
    if AllDone(groups, defaults, lines) {
      RepairThenCollect(names, configs, Written(configs, writes), newChain);
    }
  }

  /** Both chains have a name, the destination has a well-formed outbound limit, and the new chain, if any, is one of them. */
  ghost predicate Expected(
    names: seq<Chain>, configs: Configs, newChain: Option<Chain>, destination: Chain, source: Chain)
  {
    && destination in names && source in names && destination != source
    && OutboundOf(configs, destination).Some? && GetDecimalsFromLimit(OutboundOf(configs, destination).value).Some?
    && (newChain.None? || newChain.value == "" || newChain.value == destination || newChain.value == source)
  }

  /** After a repair no expected pair lacks an inbound limit. */
  lemma RepairCompletes(
    names: seq<Chain>, before: Configs, after: Configs, newChain: Option<Chain>, destination: Chain, source: Chain)
    requires Distinct(names)
    requires Repaired(before, after, PairsOf(Collected(names, before, newChain)))
    requires Expected(names, after, newChain, destination, source)
    ensures InboundOf(after, destination, source).Some?
  {
    CollectorListsMissing(names, before, newChain);
    assert OutboundOf(after, destination) == OutboundOf(before, destination);
    if (destination, source) !in PairsOf(Collected(names, before, newChain)) {
      assert InboundOf(after, destination, source) == InboundOf(before, destination, source);
    }
  }

  lemma DialogueCompletes(
    names: seq<Chain>, configs: Configs, newChain: Option<Chain>, defaults: seq<bool>, lines: seq<string>,
    rank: Chain -> int)
    requires Distinct(names)
    requires AllDone(SortBy(Collected(names, configs, newChain), (g: Group) => rank(g.destination)), defaults, lines)
    ensures var groups := SortBy(Collected(names, configs, newChain), (g: Group) => rank(g.destination));
      var after := Written(configs, AllWrites(groups, defaults, lines, rank));
      forall d, s | Expected(names, after, newChain, d, s) :: InboundOf(after, d, s).Some?
  {
    var groups := SortBy(Collected(names, configs, newChain), (g: Group) => rank(g.destination));
    var after := Written(configs, AllWrites(groups, defaults, lines, rank));
    DoneRepairs(names, configs, newChain, defaults, lines, rank);
    forall d, s | Expected(names, after, newChain, d, s)
      ensures InboundOf(after, d, s).Some?
    {
      RepairCompletes(names, configs, after, newChain, d, s);
    }
  }

  lemma DoneRepairs(
    names: seq<Chain>, configs: Configs, newChain: Option<Chain>, defaults: seq<bool>, lines: seq<string>,
    rank: Chain -> int)
    requires Distinct(names)
    requires AllDone(SortBy(Collected(names, configs, newChain), (g: Group) => rank(g.destination)), defaults, lines)
    ensures var missing := Collected(names, configs, newChain);
      var groups := SortBy(missing, (g: Group) => rank(g.destination));
      Repaired(configs, Written(configs, AllWrites(groups, defaults, lines, rank)), PairsOf(missing))
  {
    var missing := Collected(names, configs, newChain);
    var groups := SortBy(missing, (g: Group) => rank(g.destination));
    SortByIsSortedPermutation(missing, (g: Group) => rank(g.destination));
    SamePairs(missing, groups);
    SameElements(missing, groups);
    CollectorListsMissing(names, configs, newChain);
    AllWritesMean(configs, groups, defaults, lines, rank);
    WritesRepair(configs, AllWrites(groups, defaults, lines, rank));
  }

  // ---- Every answer ends up where it was given ----

  /** No pair is written twice. */
  ghost predicate WritesOnce(writes: seq<Write>) {
    forall i, j | 0 <= i < j < |writes| ::
      writes[i].destination != writes[j].destination || writes[i].source != writes[j].source
  }

  /** A limit written once to a configured destination is the one found there afterwards. */
  lemma {:induction false} WriteHolds(configs: Configs, writes: seq<Write>, k: nat)
    requires WritesOnce(writes) && k < |writes| && writes[k].destination in configs
    ensures InboundOf(Written(configs, writes), writes[k].destination, writes[k].source) == Some(writes[k].limit)
    decreases |writes|
  {
    var n := |writes| - 1;
    WrittenKeys(configs, writes[..n]);
    SetInboundMeans(Written(configs, writes[..n]), writes[n].destination, writes[n].source, writes[n].limit);
    if k < n {
      WriteHolds(configs, writes[..n], k);
    }
  }

  lemma {:induction false} WrittenKeys(configs: Configs, writes: seq<Write>)
    ensures Written(configs, writes).Keys == configs.Keys
  {
    if writes != [] {
      WrittenKeys(configs, writes[..|writes| - 1]);
    }
  }

  lemma {:induction false} SortKeepsDistinct(xs: seq<Chain>, rank: Chain -> int)
    requires Distinct(xs)
    ensures Distinct(SortBy(xs, rank))
  {
    if xs != [] {
      var n := |xs| - 1;
      SortKeepsDistinct(xs[..n], rank);
      SortByIsSortedPermutation(xs[..n], rank);
      SameElements(xs[..n], SortBy(xs[..n], rank));
      InsertKeepsDistinct(xs[n], SortBy(xs[..n], rank), rank);
    }
  }

  lemma {:induction false} InsertKeepsDistinct(x: Chain, xs: seq<Chain>, rank: Chain -> int)
    requires Distinct(xs) && x !in xs
    ensures Distinct(InsertBy(x, xs, rank))
    ensures forall y | y in InsertBy(x, xs, rank) :: y == x || y in xs
  {
    if xs != [] && !(rank(xs[|xs| - 1]) <= rank(x)) {
      var n := |xs| - 1;
      InsertKeepsDistinct(x, xs[..n], rank);
      var front := InsertBy(x, xs[..n], rank);
      forall i | 0 <= i < |front|
        ensures front[i] != xs[n]
      {
        assert front[i] in front;
      }
    }
  }

  lemma GroupWritesOnce(g: Group, applyDefault: bool, lines: seq<string>, rank: Chain -> int)
    requires Distinct(g.sources)
    ensures WritesOnce(GroupWrites(g, applyDefault, lines, rank))
    ensures forall w | w in GroupWrites(g, applyDefault, lines, rank) :: w.destination == g.destination
  {
    SortKeepsDistinct(g.sources, rank);
  }

  lemma {:induction false} AllWritesOnce(groups: seq<Group>, defaults: seq<bool>, lines: seq<string>, rank: Chain -> int)
    requires ListsOnce(groups)
    ensures WritesOnce(AllWrites(groups, defaults, lines, rank))
    ensures forall w | w in AllWrites(groups, defaults, lines, rank) :: exists g :: g in groups && w.destination == g.destination
    decreases |groups|
  {
    if groups != [] && defaults != [] {
      var left := GroupLeft(groups[0], defaults[0], lines);
      GroupWritesOnce(groups[0], defaults[0], lines, rank);
      AllWritesOnce(groups[1..], defaults[1..], left, rank);
      var rest := AllWrites(groups[1..], defaults[1..], left, rank);
      forall w | w in rest
        ensures w.destination != groups[0].destination
      {
        var g :| g in groups[1..] && w.destination == g.destination;
        var k :| 0 <= k < |groups| - 1 && groups[1..][k] == g;
        assert groups[k + 1] == g;
      }
      WritesApart(GroupWrites(groups[0], defaults[0], lines, rank), rest, groups[0].destination);
    }
  }

  lemma WritesApart(xs: seq<Write>, ys: seq<Write>, destination: Chain)
    requires WritesOnce(xs) && WritesOnce(ys)
    requires forall w | w in xs :: w.destination == destination
    requires forall w | w in ys :: w.destination != destination
    ensures WritesOnce(xs + ys)
  {
  }

  /** Whatever a dialogue writes is found in the deployment file afterwards. */
  lemma DialogueSetsAnswers(
    names: seq<Chain>, configs: Configs, newChain: Option<Chain>, defaults: seq<bool>, lines: seq<string>,
    rank: Chain -> int, w: Write)
    requires Distinct(names)
    requires w in AllWrites(SortBy(Collected(names, configs, newChain), (g: Group) => rank(g.destination)), defaults, lines, rank)
    ensures var groups := SortBy(Collected(names, configs, newChain), (g: Group) => rank(g.destination));
      InboundOf(Written(configs, AllWrites(groups, defaults, lines, rank)), w.destination, w.source) == Some(w.limit)
  {
    var missing, byRank := Collected(names, configs, newChain), (g: Group) => rank(g.destination);
    var groups := SortBy(missing, byRank);
    CollectorListsMissing(names, configs, newChain);
    SortKeepsListsOnce(missing, byRank);
    SortByIsSortedPermutation(missing, byRank);
    SameElements(missing, groups);
    AllWritesOnce(groups, defaults, lines, rank);
    AllWritesMean(configs, groups, defaults, lines, rank);
    var writes := AllWrites(groups, defaults, lines, rank);
    var k :| 0 <= k < |writes| && writes[k] == w;
    assert Acceptable(configs, w.destination, w.limit);
    WriteHolds(configs, writes, k);
  }
}
