// The random scheduler that both worker pools use (randomPairScheduler of
// dbHelper/compare_results.go and its twin in dbHelper/run_sqls.go). The random index
// is an arbitrary in-range choice made by the caller.
module Scheduler {
  import opened Basics

  datatype State = State(limit: int, counts: seq<nat>, available: seq<nat>)

  // A reserved run; run numbers start at 1.
  datatype Issue = Issue(item: nat, run: nat)

  function Fresh(items: nat, limit: int): State {
    State(limit, seq(items, _ => 0), seq(items, i => i))
  }

  /** Overwrite the chosen entry with the last one and drop the last one. */
  function SwapRemove(s: seq<nat>, k: nat): seq<nat>
    requires k < |s|
  {
    s[k := s[|s| - 1]][..|s| - 1]
  }

  ghost predicate Valid(s: State) {
    && (forall i, j :: 0 <= i < j < |s.available| ==> s.available[i] != s.available[j])
    && (forall i :: 0 <= i < |s.available| ==> s.available[i] < |s.counts|)
    && (s.limit <= 0 ==> forall i :: 0 <= i < |s.counts| ==> i in s.available)
    && (s.limit > 0 ==> forall i :: 0 <= i < |s.counts| ==>
          s.counts[i] <= s.limit && (i in s.available <==> s.counts[i] < s.limit))
  }

  predicate CanIssue(s: State, k: nat) {
    k < |s.available| && s.available[k] < |s.counts|
  }

  function Issued(s: State, k: nat): Issue
    requires CanIssue(s, k)
  {
    Issue(s.available[k], s.counts[s.available[k]] + 1)
  }

  function AfterIssue(s: State, k: nat): State
    requires CanIssue(s, k)
  {
    var issue := Issued(s, k);
    State(s.limit, s.counts[issue.item := issue.run],
          if s.limit > 0 && issue.run >= s.limit then SwapRemove(s.available, k) else s.available)
  }

  class RandomScheduler {
    const limit: int
    var runCounts: array<nat>
    var available: array<nat>
    var availableCount: nat

    ghost predicate IsConsistent()
      reads this, runCounts, available
    {
      runCounts != available && availableCount <= available.Length && Valid(Model())
    }

    ghost function Model(): State
      reads this, runCounts, available
    {
      State(limit, runCounts[..], if availableCount <= available.Length then available[..availableCount] else [])
    }

    constructor (items: nat, limit: int)
      ensures IsConsistent() && Model() == Fresh(items, limit)
      ensures runCounts.Length == available.Length == availableCount == items && this.limit == limit
      ensures forall i :: 0 <= i < items ==> runCounts[i] == 0 && available[i] == i
      ensures fresh(runCounts) && fresh(available)
    {
      this.limit := limit;
      var counts := new nat[items](_ => 0);
      var indices := new nat[items];
      for i := 0 to items
        invariant forall k :: 0 <= k < items ==> counts[k] == 0
        invariant forall k :: 0 <= k < i ==> indices[k] == k
      {
        indices[i] := i;
      }
      runCounts, available, availableCount := counts, indices, items;
      new;
      assert runCounts[..] == Fresh(items, limit).counts && available[..items] == Fresh(items, limit).available;
      FreshIsValid(items, limit);
    }

    method Next(random: nat) returns (issue: Option<Issue>)
      requires IsConsistent()
      requires availableCount > 0 ==> random < availableCount
      modifies this`availableCount, runCounts, available
      ensures IsConsistent()
      ensures issue == if old(availableCount) == 0 then None else Some(Issued(old(Model()), random))
      ensures Model() == if old(availableCount) == 0 then old(Model()) else AfterIssue(old(Model()), random)
      ensures issue.None? <==> old(availableCount) == 0
      ensures issue.Some? ==>
        var item, last := old(available[random]), old(availableCount) - 1;
        && issue.value.item == item && issue.value.run == old(runCounts[item]) + 1
        && runCounts[..] == old(runCounts[..])[item := issue.value.run]
        && if limit > 0 && issue.value.run >= limit
           then availableCount == last && available[..] == old(available[..])[random := old(available[last])]
           else availableCount == old(availableCount) && available[..] == old(available[..])
    {
      if availableCount == 0 {
        return None;
      }
      ghost var before := Model();
      var item := available[random];
      assert before.available[random] == item;
      runCounts[item] := runCounts[item] + 1;
      var run := runCounts[item];
      if limit > 0 && run >= limit {
        var last := availableCount - 1;
        available[random] := available[last];
        availableCount := last;
      }
      assert Model() == AfterIssue(before, random);
      IssueKeepsValid(before, random);
      return Some(Issue(item, run));
    }
  }

  lemma FreshIsValid(items: nat, limit: int)
    ensures Valid(Fresh(items, limit))
  {
    var s := Fresh(items, limit);
    forall i | 0 <= i < items ensures i in s.available {
      assert s.available[i] == i;
    }
  }

  lemma SwapRemoveMembers(s: seq<nat>, k: nat)
    requires k < |s|
    requires forall i, j :: 0 <= i < j < |s| ==> s[i] != s[j]
    ensures forall i, j :: 0 <= i < j < |s| - 1 ==> SwapRemove(s, k)[i] != SwapRemove(s, k)[j]
    ensures forall x :: x in SwapRemove(s, k) <==> x in s && x != s[k]
  {
    var r := SwapRemove(s, k);
    forall x ensures x in r <==> x in s && x != s[k] {
      if x in s && x != s[k] {
        var i :| 0 <= i < |s| && s[i] == x;
        assert r[if i == |s| - 1 then k else i] == x;
      }
    }
  }

  /** With a positive limit the available list stays duplicate-free and stays exactly the
      items whose count is below the limit; without one every item stays available. */
  lemma {:induction false} IssueKeepsValid(s: State, k: nat)
    requires Valid(s) && k < |s.available|
    ensures CanIssue(s, k) && Valid(AfterIssue(s, k))
  {
    SwapRemoveMembers(s.available, k);
    var t := AfterIssue(s, k);
    if t.available != s.available {
      forall i | 0 <= i < |t.available| ensures t.available[i] < |t.counts| {
        assert t.available[i] in t.available;
      }
    }
  }

  // ---------- Whole sequences of calls ----------

  // A choice is in range, or the call finds nothing available.
  predicate InRange(s: State, choices: seq<nat>)
    decreases |choices|
  {
    choices == [] || (CanIssue(s, choices[0]) && InRange(AfterIssue(s, choices[0]), choices[1..]))
  }

  function After(s: State, choices: seq<nat>): State
    requires InRange(s, choices)
    decreases |choices|
  {
    if choices == [] then s else After(AfterIssue(s, choices[0]), choices[1..])
  }

  /** The runs handed out by successive successful calls. */
  function Issues(s: State, choices: seq<nat>): seq<Issue>
    requires InRange(s, choices)
    decreases |choices|
  {
    if choices == [] then [] else [Issued(s, choices[0])] + Issues(AfterIssue(s, choices[0]), choices[1..])
  }

  /** The run numbers handed out for one item, in order. */
  ghost function RunsOf(issues: seq<Issue>, item: nat): seq<nat> {
    if issues == [] then []
    else (if issues[0].item == item then [issues[0].run] else []) + RunsOf(issues[1..], item)
  }

  ghost function Below(limit: int): nat -> int {
    count => limit - count
  }

  /** Calls that can still succeed under a positive limit. */
  ghost function Remaining(s: State): int {
    Sum(s.counts, Below(s.limit))
  }

  lemma IssueUsesOneRun(s: State, k: nat)
    requires CanIssue(s, k)
    ensures Remaining(AfterIssue(s, k)) == Remaining(s) - 1
  {
    var issue := Issued(s, k);
    SumUpdate(s.counts, issue.item, issue.run, Below(s.limit));
  }

  /** Successful calls so far. */
  ghost function Scheduled(s: State): int {
    Sum(s.counts, Itself())
  }

  lemma IssueSchedulesOneRun(s: State, k: nat)
    requires CanIssue(s, k)
    ensures Scheduled(AfterIssue(s, k)) == Scheduled(s) + 1
  {
    var issue := Issued(s, k);
    SumUpdate(s.counts, issue.item, issue.run, Itself());
  }

  /** Every success uses up one remaining run, and no count ever falls. */
  lemma {:induction false} CallsUseRuns(s: State, choices: seq<nat>)
    requires Valid(s) && InRange(s, choices)
    ensures var t := After(s, choices);
      && Valid(t) && |t.counts| == |s.counts| && t.limit == s.limit
      && (forall i :: 0 <= i < |s.counts| ==> s.counts[i] <= t.counts[i])
      && Remaining(t) == Remaining(s) - |choices|
    decreases |choices|
  {
    hide Valid;
    if choices == [] {
    } else {
      IssueKeepsValid(s, choices[0]);
      IssueUsesOneRun(s, choices[0]);
      CallsUseRuns(AfterIssue(s, choices[0]), choices[1..]);
    }
  }

  // from + 1, ..., to
  ghost function Numbers(from: nat, to: nat): seq<nat>
    decreases to - from
  {
    if to <= from then [] else [from + 1] + Numbers(from + 1, to)
  }

  /** An item is handed its next run numbers in order, none skipped and none repeated. */
  lemma {:induction false} RunsContinueInOrder(s: State, choices: seq<nat>, item: nat)
    requires Valid(s) && InRange(s, choices) && item < |s.counts|
    ensures |After(s, choices).counts| == |s.counts|
    ensures RunsOf(Issues(s, choices), item) == Numbers(s.counts[item], After(s, choices).counts[item])
    decreases |choices|
  {
    hide Valid;
    CallsUseRuns(s, choices);
    if choices == [] {
    } else {
      var next := AfterIssue(s, choices[0]);
      IssueKeepsValid(s, choices[0]);
      CallsUseRuns(next, choices[1..]);
      RunsContinueInOrder(next, choices[1..], item);
      assert Issues(s, choices)[1..] == Issues(next, choices[1..]);
    }
  }

  lemma {:induction false} RemainingAtStart(items: nat, limit: int)
    ensures Remaining(Fresh(items, limit)) == items * limit
  {
    SumBetween(Fresh(items, limit).counts, Below(limit), limit, limit);
  }

  /** Every run of the scheduler, for every random choice: each item is issued 1, 2, 3, ...
      up to its count; with a positive limit exactly items * limit calls can succeed, since
      the list is empty precisely when that many have. */
  lemma {:induction false} EveryScheduleIsExact(items: nat, limit: int, choices: seq<nat>, item: nat)
    requires InRange(Fresh(items, limit), choices) && item < items
    ensures var s := Fresh(items, limit); var t := After(s, choices);
      && Valid(t) && |t.counts| == items
      && RunsOf(Issues(s, choices), item) == Numbers(0, t.counts[item])
      && (limit > 0 ==> t.counts[item] <= limit
                        && |choices| <= items * limit
                        && (t.available == [] <==> |choices| == items * limit))
      && (limit <= 0 ==> t.available != [])
  {
    var s, t := Fresh(items, limit), After(Fresh(items, limit), choices);
    FreshIsValid(items, limit);
    RunsContinueInOrder(s, choices, item);
    CallsUseRuns(s, choices);
    RemainingAtStart(items, limit);
    if limit > 0 {
      RemainingMeansAvailable(t);
    } else {
      assert item in t.available;
    }
  }

  /** Under a positive limit nothing remains exactly when nothing is available. */
  lemma RemainingMeansAvailable(s: State)
    requires Valid(s) && s.limit > 0
    ensures Remaining(s) >= 0
    ensures s.available == [] <==> Remaining(s) == 0
    ensures s.available == [] ==> forall i :: 0 <= i < |s.counts| ==> s.counts[i] == s.limit
  {
    forall c | c in s.counts ensures 0 <= Below(s.limit)(c) <= s.limit {}
    if s.available == [] {
      forall i | 0 <= i < |s.counts| ensures s.counts[i] == s.limit {
        assert i !in s.available;
      }
      SumBetween(s.counts, Below(s.limit), 0, 0);
    } else {
      SumAtLeast(s.counts, s.available[0], Below(s.limit));
      assert s.available[0] in s.available;
    }
  }
}
