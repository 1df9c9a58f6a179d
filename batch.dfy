/**
 * The search worker: `SearchWorker.run` splits the description into terms
 * (USPTO_Checker_Final.py:318-319) and, once every task has been consumed,
 * reports the search time (USPTO_Checker_Final.py:328-331);
 * `SearchWorker._run_searches` consumes the tasks' outcomes in completion
 * order and reports each result and the progress
 * (USPTO_Checker_Final.py:298-312).
 *
 * The order in which the tasks complete, and how each one ends, are given
 * as a sequence of outcomes; the signals become a sequence of events.
 */
module Batch {
  import opened Wrappers
  import opened Text
  import opened Subsequence

  // ---------------------------------------------------------------------
  // Splitting the description.

  /** `[term.strip() for term in parts if term.strip()]`. */
  function KeepTerms(parts: seq<string>): seq<string> {
    if parts == [] then []
    else (if Strip(parts[0]) != "" then [Strip(parts[0])] else []) + KeepTerms(parts[1..])
  }

  /** The terms of USPTO_Checker_Final.py:319. */
  function SplitTerms(description: string): seq<string> {
    KeepTerms(SplitOn(description, ';'))
  }

  /** Every piece, stripped. */
  function StripAll(parts: seq<string>): (r: seq<string>)
    ensures |r| == |parts| && forall i :: 0 <= i < |parts| ==> r[i] == Strip(parts[i])
  {
    if parts == [] then [] else [Strip(parts[0])] + StripAll(parts[1..])
  }

  lemma SliceLacks(r: string, s: string, i: int, c: char)
    requires SliceAt(r, s, i) && c !in s
    ensures c !in r
  {
    assert forall k :: 0 <= k < |r| ==> r[k] == s[i + k];
  }

  /** The stripped non-empty pieces, in order: each term is one of them, and
      each of them is a term. */
  lemma {:induction false} KeepTermsShape(parts: seq<string>)
    ensures forall t | t in KeepTerms(parts) :: t != "" && exists i :: 0 <= i < |parts| && t == Strip(parts[i])
    ensures forall i :: 0 <= i < |parts| && Strip(parts[i]) != "" ==> Strip(parts[i]) in KeepTerms(parts)
    ensures IsSubseq(KeepTerms(parts), StripAll(parts))
  {
    if parts != [] {
      KeepTermsShape(parts[1..]);
      assert forall i :: 1 <= i < |parts| ==> parts[i] == parts[1..][i - 1];
      var rest := KeepTerms(parts[1..]);
      var all := StripAll(parts);
      assert all[1..] == StripAll(parts[1..]);
      if Strip(parts[0]) != "" {
        assert KeepTerms(parts) == [Strip(parts[0])] + rest;
        assert KeepTerms(parts)[1..] == rest;
      } else {
        assert KeepTerms(parts) == rest;
        IsSubseqDrop(rest, all);
      }
    }
  }

  /** The indices of the pieces that are non-empty once stripped. */
  ghost function Kept(parts: seq<string>): set<int> {
    set i | 0 <= i < |parts| && Strip(parts[i]) != ""
  }

  lemma {:induction false} KeepTermsSnoc(parts: seq<string>, p: string)
    ensures KeepTerms(parts + [p]) == KeepTerms(parts) + (if Strip(p) != "" then [Strip(p)] else [])
  {
    if parts == [] {
      assert parts + [p] == [p];
    } else {
      assert (parts + [p])[0] == parts[0] && (parts + [p])[1..] == parts[1..] + [p];
      KeepTermsSnoc(parts[1..], p);
    }
  }

  lemma KeptSnoc(parts: seq<string>, p: string)
    ensures Kept(parts + [p]) == Kept(parts) + (if Strip(p) != "" then {|parts|} else {})
  {
    var q := parts + [p];
    assert q[|parts|] == p;
    forall i | 0 <= i < |parts| ensures q[i] == parts[i] {
    }
  }

  /** Every non-empty stripped piece gives one term: repeated terms are
      kept. */
  lemma {:induction false} KeepTermsCount(parts: seq<string>)
    ensures |KeepTerms(parts)| == |Kept(parts)|
  {
    if parts == [] {
      assert Kept(parts) == {};
    } else {
      var init, p := parts[..|parts| - 1], parts[|parts| - 1];
      assert parts == init + [p];
      KeepTermsCount(init);
      KeepTermsSnoc(init, p);
      KeptSnoc(init, p);
      assert |init| !in Kept(init);
    }
  }

  /** The terms are non-empty, stripped, free of `;`, and are the stripped
      non-empty pieces of the description in their input order, one term
      per such piece. */
  lemma SplitTermsShape(description: string)
    ensures var parts := SplitOn(description, ';');
      && (forall t | t in SplitTerms(description) :: t != "" && Trimmed(t) && ';' !in t)
      && (forall i :: 0 <= i < |parts| && Strip(parts[i]) != "" ==> Strip(parts[i]) in SplitTerms(description))
      && IsSubseq(SplitTerms(description), StripAll(parts))
      && |SplitTerms(description)| == |set i | 0 <= i < |parts| && Strip(parts[i]) != ""|
  {
    var parts := SplitOn(description, ';');
    KeepTermsShape(parts);
    KeepTermsCount(parts);
    forall t | t in SplitTerms(description) ensures Trimmed(t) && ';' !in t {
      var i :| 0 <= i < |parts| && t == Strip(parts[i]);
      StripIsSlice(parts[i]);
      SliceLacks(t, parts[i], |parts[i]| - |StripLeft(parts[i])|, ';');
    }
  }

  // ---------------------------------------------------------------------
  // Consuming the outcomes.

  /** How one awaited task ends: with `(term, result)`, with
      `asyncio.CancelledError`, or with another exception. */
  datatype TaskEnd = Returned(term: string, result: string) | CancelledError | Raised(message: string)

  /** `result_signal`, `error_signal` and `progress_signal`. */
  datatype Event = Result(term: string, status: string) | Error(message: string) | Progress(percent: int)

  /** `completed_count` after the outcomes `os`: a failure does not count. */
  function Completed(os: seq<TaskEnd>): (c: nat)
    ensures c <= |os|
  {
    if os == [] then 0
    else Completed(os[..|os| - 1]) + (if os[|os| - 1].Raised? then 0 else 1)
  }

  /** The reported progress after `c` of `n` tasks. */
  function Percent(c: nat, n: nat): nat
    requires n > 0
  {
    c * 100 / n
  }

  /** The events of one pass of the loop, after `c` tasks have been
      counted. */
  function StepEvents(o: TaskEnd, c: nat, n: nat): seq<Event>
    requires c < n
  {
    match o
    case Returned(t, r) => [Result(t, r), Progress(Percent(c + 1, n))]
    case CancelledError => [Result("Cancelled", "Cancelled"), Progress(Percent(c + 1, n))]
    case Raised(m) => [Error(m)]
  }

  /** The events emitted for the outcomes `os` of `n` tasks. */
  function Events(os: seq<TaskEnd>, n: nat): seq<Event>
    requires |os| <= n
  {
    if os == [] then []
    else
      var init := os[..|os| - 1];
      Events(init, n) + StepEvents(os[|os| - 1], Completed(init), n)
  }

  /** The `for task in asyncio.as_completed(tasks)` loop. */
  method RunSearches(terms: seq<string>, outcomes: seq<TaskEnd>) returns (events: seq<Event>, completedCount: nat)
    requires |outcomes| == |terms|
    ensures events == Events(outcomes, |terms|)
    ensures completedCount == Completed(outcomes)
  {
    events, completedCount := [], 0;
    for i := 0 to |outcomes|
      invariant events == Events(outcomes[..i], |terms|)
      invariant completedCount == Completed(outcomes[..i])
    {
      assert outcomes[..i + 1][..i] == outcomes[..i];
      var outcome := outcomes[i];
      if outcome.Raised? {
        events := events + [Error(outcome.message)];
        continue;
      }
      if outcome.Returned? {
        events := events + [Result(outcome.term, outcome.result)];
      } else {
        events := events + [Result("Cancelled", "Cancelled")];
      }
      completedCount := completedCount + 1;
      events := events + [Progress(completedCount * 100 / |terms|)];
    }
    assert outcomes[..|outcomes|] == outcomes;
  }

  /** `SearchWorker.run`: the terms are searched, then the search time is
      reported under the term "Search time"; when the browser session
      cannot be started, the only event is its error. `elapsed` is the
      formatted wall-clock time. */
  method Run(description: string, outcomes: seq<TaskEnd>, launchFailure: Option<string>, elapsed: string)
    returns (events: seq<Event>)
    requires |outcomes| == |SplitTerms(description)|
    ensures launchFailure.Some? ==> events == [Error(launchFailure.value)]
    ensures launchFailure.None? ==>
      events == Events(outcomes, |SplitTerms(description)|) + [Result("Search time", elapsed + " seconds")]
  {
    var terms := SplitTerms(description);
    if launchFailure.Some? {
      return [Error(launchFailure.value)];
    }
    var completedCount;
    events, completedCount := RunSearches(terms, outcomes);
    events := events + [Result("Search time", elapsed + " seconds")];
  }

  // ---------------------------------------------------------------------
  // Progress.

  lemma MulCancel(x: int, y: int, n: int)
    requires n > 0 && x * n < y * n
    ensures x < y
  {
  }

  /** Integer division by `n` is monotone. */
  lemma DivMonotone(a: nat, b: nat, n: nat)
    requires n > 0 && a <= b
    ensures a / n <= b / n
  {
    assert (a / n) * n + a % n == a;
    assert (b / n) * n + b % n == b;
    assert (b / n + 1) * n == (b / n) * n + n;
    MulCancel(a / n, b / n + 1, n);
  }

  /** Below `k * n`, the quotient by `n` is below `k`. */
  lemma DivBelow(a: nat, k: nat, n: nat)
    requires n > 0 && a < k * n
    ensures a / n < k
  {
    assert (a / n) * n + a % n == a;
    MulCancel(a / n, k, n);
  }

  lemma PercentMonotone(c1: nat, c2: nat, n: nat)
    requires n > 0 && c1 <= c2
    ensures Percent(c1, n) <= Percent(c2, n)
  {
    DivMonotone(c1 * 100, c2 * 100, n);
  }

  lemma PercentBounds(c: nat, n: nat)
    requires 0 < n && c <= n
    ensures 0 <= Percent(c, n) <= 100
    ensures Percent(c, n) == 100 <==> c == n
  {
    PercentMonotone(c, n, n);
    assert n * 100 / n == 100;
    if c < n {
      DivBelow(c * 100, 100, n);
    }
  }

  /** Every reported progress is the progress after some `c` counted tasks,
      `1 <= c <= Completed(os)`, and the latest is reported. */
  lemma {:induction false} ProgressValues(os: seq<TaskEnd>, n: nat)
    requires |os| <= n
    ensures forall i :: 0 <= i < |Events(os, n)| && Events(os, n)[i].Progress? ==>
      exists c :: 1 <= c <= Completed(os) && Events(os, n)[i].percent == Percent(c, n)
    ensures Completed(os) > 0 ==> Progress(Percent(Completed(os), n)) in Events(os, n)
  {
    if os != [] {
      var init := os[..|os| - 1];
      ProgressValues(init, n);
      var step := StepEvents(os[|os| - 1], Completed(init), n);
      var ev := Events(os, n);
      assert ev == Events(init, n) + step;
      forall i | 0 <= i < |ev| && ev[i].Progress?
        ensures exists c :: 1 <= c <= Completed(os) && ev[i].percent == Percent(c, n)
      {
        if i < |Events(init, n)| {
          assert ev[i] == Events(init, n)[i];
        } else {
          assert ev[i] == step[i - |Events(init, n)|];
          assert ev[i].percent == Percent(Completed(os), n);
        }
      }
      if !os[|os| - 1].Raised? {
        assert step[1] == Progress(Percent(Completed(os), n));
        assert ev[|ev| - 1] == step[1];
      } else if Completed(os) > 0 {
        assert Events(init, n) <= ev;
      }
    }
  }

  /** Reported progress stays within 0..100. */
  lemma ProgressBounds(os: seq<TaskEnd>, n: nat)
    requires |os| <= n
    ensures forall e | e in Events(os, n) && e.Progress? :: 0 <= e.percent <= 100
  {
    ProgressValues(os, n);
    forall e | e in Events(os, n) && e.Progress? ensures 0 <= e.percent <= 100 {
      var i :| 0 <= i < |Events(os, n)| && Events(os, n)[i] == e;
      var c :| 1 <= c <= Completed(os) && e.percent == Percent(c, n);
      PercentBounds(c, n);
    }
  }

  /** Reported progress never decreases. */
  lemma {:induction false} ProgressMonotone(os: seq<TaskEnd>, n: nat)
    requires |os| <= n
    ensures forall i, j :: 0 <= i < j < |Events(os, n)| && Events(os, n)[i].Progress? && Events(os, n)[j].Progress? ==>
      Events(os, n)[i].percent <= Events(os, n)[j].percent
  {
    if os != [] {
      var init := os[..|os| - 1];
      ProgressMonotone(init, n);
      ProgressValues(init, n);
      var before := Events(init, n);
      var step := StepEvents(os[|os| - 1], Completed(init), n);
      var ev := Events(os, n);
      assert ev == before + step;
      forall i, j | 0 <= i < j < |ev| && ev[i].Progress? && ev[j].Progress?
        ensures ev[i].percent <= ev[j].percent
      {
        if j < |before| {
          assert ev[i] == before[i] && ev[j] == before[j];
        } else if i < |before| {
          assert ev[i] == before[i];
          var c :| 1 <= c <= Completed(init) && before[i].percent == Percent(c, n);
          assert ev[j] == step[j - |before|];
          PercentMonotone(c, Completed(init) + 1, n);
        } else {
          assert false;
        }
      }
    }
  }

  /** All tasks count exactly when none failed. */
  lemma {:induction false} CompletedAll(os: seq<TaskEnd>)
    ensures Completed(os) == |os| <==> forall i :: 0 <= i < |os| ==> !os[i].Raised?
  {
    if os != [] {
      var init := os[..|os| - 1];
      CompletedAll(init);
      assert forall i :: 0 <= i < |init| ==> init[i] == os[i];
    }
  }

  /** With one outcome per task, progress reaches 100 exactly when no task
      failed. */
  lemma ProgressReachesHundred(os: seq<TaskEnd>, n: nat)
    requires |os| == n > 0
    ensures Progress(100) in Events(os, n) <==> forall i :: 0 <= i < |os| ==> !os[i].Raised?
  {
    ProgressValues(os, n);
    CompletedAll(os);
    if Progress(100) in Events(os, n) {
      var i :| 0 <= i < |Events(os, n)| && Events(os, n)[i] == Progress(100);
      var c :| 1 <= c <= Completed(os) && 100 == Percent(c, n);
      PercentBounds(c, n);
    }
    if Completed(os) == n {
      PercentBounds(n, n);
    }
  }
}
