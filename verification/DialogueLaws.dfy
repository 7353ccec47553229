/** What the user of the inbound-limit dialogue can rely on, answer by answer. */
module DialogueLaws {
  import opened Outcomes
  import opened LimitFormatting
  import opened InboundLimits
  import opened InboundRepair

  // ---- One answer ----

  /** The code points that count as white space. */
  lemma WhiteCharacters(c: char)
    ensures IsWhite(c) <==>
      (c as int) in {9, 10, 11, 12, 13, 32, 160, 5760, 8192, 8193, 8194, 8195, 8196, 8197, 8198, 8199, 8200, 8201, 8202,
                     8232, 8233, 8239, 8287, 12288, 65279}
  {
  }

  /** No white space at either end. */
  predicate IsTrimmed(text: string) {
    text == "" || (!IsWhite(text[0]) && !IsWhite(text[|text| - 1]))
  }

  lemma {:induction false} BlankTrims(blank: string)
    requires IsBlank(blank)
    ensures Trim(blank) == ""
  {
    if blank != [] {
      BlankTrims(blank[1..]);
    }
  }

  lemma {:induction false} TrailingBlankTrims(text: string, after: string)
    requires IsTrimmed(text) && text != "" && IsBlank(after)
    ensures Trim(text + after) == text
  {
    if after == "" {
      assert text + after == text;
    } else {
      var n := |after| - 1;
      assert (text + after)[..|text| + n] == text + after[..n];
      TrailingBlankTrims(text, after[..n]);
    }
  }

  /** White space around an answer does not matter. */
  lemma {:induction false} TrimOfWrapped(before: string, text: string, after: string)
    requires IsBlank(before) && IsTrimmed(text) && IsBlank(after)
    ensures Trim(before + text + after) == text
  {
    if text == "" {
      BlankTrims(before + text + after);
    } else if before == "" {
      assert before + text + after == text + after;
      TrailingBlankTrims(text, after);
    } else {
      assert (before + text + after)[1..] == before[1..] + text + after;
      TrimOfWrapped(before[1..], text, after);
    }
  }

  /** Nothing answered is the default, 0 is a valid zero limit, and anything else is taken as it is. */
  lemma AnswerMeans(before: string, text: string, after: string, g: Group)
    requires IsBlank(before) && IsTrimmed(text) && IsBlank(after)
    ensures var limit := AnsweredLimit(before + text + after, g);
      if text == "" then limit == g.defaultLimit
      else if text == "0" then IsValidLimit(limit, g.decimals) && IsZeroLimit(limit)
      else limit == text
  {
    TrimOfWrapped(before, text, after);
    if text == "0" {
      ZeroAnswerIsZero(before + text + after, g);
    }
  }

  // ---- The answers to a group ----

  lemma {:induction false} AnswersConcat(xs: seq<string>, ys: seq<string>, g: Group)
    ensures ValidAnswers(xs + ys, g) == ValidAnswers(xs, g) + ValidAnswers(ys, g)
  {
    if xs == [] {
      assert xs + ys == ys;
    } else {
      assert (xs + ys)[1..] == xs[1..] + ys;
      AnswersConcat(xs[1..], ys, g);
    }
  }

  /** An answer counts exactly when it is a valid limit, and in its place. */
  lemma AnswerCounts(before: seq<string>, line: string, after: seq<string>, g: Group)
    ensures ValidAnswers(before + [line] + after, g)
         == ValidAnswers(before, g)
              + (if IsValidLimit(AnsweredLimit(line, g), g.decimals) then [AnsweredLimit(line, g)] else [])
              + ValidAnswers(after, g)
  {
    AnswersConcat(before + [line], after, g);
    AnswersConcat(before, [line], g);
    assert [line][1..] == [];
  }

  /** No more of the input is used than it takes to get `k` valid answers: the last line used is one of them. */
  lemma {:induction false} LinesUsed(lines: seq<string>, g: Group, k: nat) returns (used: seq<string>)
    requires k <= |ValidAnswers(lines, g)|
    ensures lines == used + LinesAfter(lines, g, k) && |ValidAnswers(used, g)| == k
    ensures k == 0 <==> used == []
    ensures k > 0 ==> IsValidLimit(AnsweredLimit(used[|used| - 1], g), g.decimals)
  {
    if k == 0 {
      used := [];
    } else {
      var valid := IsValidLimit(AnsweredLimit(lines[0], g), g.decimals);
      var rest := LinesUsed(lines[1..], g, if valid then k - 1 else k);
      used := [lines[0]] + rest;
      assert lines == [lines[0]] + lines[1..];
      assert used[1..] == rest;
    }
  }

  /** A group's sources are gone through in the order of their names, each with the default or the next valid answer. */
  lemma GroupWritesInOrder(g: Group, applyDefault: bool, lines: seq<string>, rank: Chain -> int)
    ensures var writes, answers := GroupWrites(g, applyDefault, lines, rank), ValidAnswers(lines, g);
      && (forall i, j | 0 <= i < j < |writes| :: rank(writes[i].source) <= rank(writes[j].source))
      && (forall i | 0 <= i < |writes| ::
            writes[i].destination == g.destination && writes[i].source in g.sources
            && (if applyDefault then writes[i].limit == g.defaultLimit
                else i < |answers| && writes[i].limit == answers[i]))
      && |writes| == if applyDefault || |g.sources| <= |answers| then |g.sources| else |answers|
  {
    var sources := SortBy(g.sources, rank);
    SortByIsSortedPermutation(g.sources, rank);
    SameElements(g.sources, sources);
    forall i | 0 <= i < |sources|
      ensures sources[i] in g.sources
    {
      assert sources[i] in sources;
    }
  }

  // ---- How a dialogue ends ----

  /** A dialogue is done exactly when it has written every listed pair. */
  lemma {:induction false} DoneIffAllWritten(
    groups: seq<Group>, defaults: seq<bool>, lines: seq<string>, rank: Chain -> int)
    requires ListsOnce(groups)
    ensures AllDone(groups, defaults, lines) <==> |AllWrites(groups, defaults, lines, rank)| == CountPairs(groups)
    ensures |AllWrites(groups, defaults, lines, rank)| <= CountPairs(groups)
    decreases |groups|
  {
    if groups != [] {
      assert groups[0] in groups;
      RestListsOnce(groups);
      if defaults != [] {
        GroupWritesInOrder(groups[0], defaults[0], lines, rank);
        DoneIffAllWritten(groups[1..], defaults[1..], GroupLeft(groups[0], defaults[0], lines), rank);
      }
    }
  }

  lemma RestListsOnce(groups: seq<Group>)
    requires ListsOnce(groups) && groups != []
    ensures ListsOnce(groups[1..])
  {
  }

  /** How many pairs are listed. */
  function CountPairs(groups: seq<Group>): nat {
    if groups == [] then 0 else |groups[0].sources| + CountPairs(groups[1..])
  }
}
