/**
 * `binary_search_partial` (USPTO_Checker_Final.py:57-81): a binary search
 * over word-prefix lengths of a term for the longest prefix whose search
 * page reports results.
 *
 * The page is replaced by an oracle `hasResults(prefix)`, "the page-results
 * text of a search for `prefix` contains `Displaying`". The shared cancel
 * event is replaced by `cancelSeen(i)`, the value the event has when the
 * loop reads it for the `i`-th time (counting from 0).
 */
module PrefixSearch {
  import opened Wrappers
  import opened Text

  /** `" ".join(words[:k])`. */
  function Prefix(words: seq<string>, k: nat): string
    requires k <= |words|
  {
    Join(words[..k])
  }

  /** One run of the search: the prefix returned, the prefixes queried in
      order, and whether the run ended because the cancel event was set. */
  datatype Outcome = Outcome(best: Option<string>, probes: seq<string>, cancelled: bool)

  /** The loop from the state `lo, hi, best` on, after the prefixes `probes`
      were queried; the cancel event has been read once per query. */
  function Loop(words: seq<string>, hasResults: string -> bool, cancelSeen: nat -> bool,
                lo: int, hi: int, best: Option<string>, probes: seq<string>): Outcome
    requires 1 <= lo <= hi + 1 <= |words| + 1
    decreases hi - lo + 1
  {
    if lo > hi then Outcome(best, probes, false)
    else if cancelSeen(|probes|) then Outcome(None, probes, true)
    else
      var mid := (lo + hi) / 2;
      var prefix := Prefix(words, mid);
      if hasResults(prefix) then Loop(words, hasResults, cancelSeen, mid + 1, hi, Some(prefix), probes + [prefix])
      else Loop(words, hasResults, cancelSeen, lo, mid - 1, best, probes + [prefix])
  }

  /** The whole search for `term`: `lo, hi, best = 1, len(words), None`. */
  function Search(term: string, hasResults: string -> bool, cancelSeen: nat -> bool): Outcome {
    var words := Words(term);
    Loop(words, hasResults, cancelSeen, 1, |words|, None, [])
  }

  /** `binary_search_partial` with its `while` loop. The prefixes queried and
      the reason for stopping are ghost results: the program does not return
      them. */
  method BinarySearchPartial(term: string, hasResults: string -> bool, cancelSeen: nat -> bool)
    returns (best: Option<string>, ghost probes: seq<string>, ghost cancelled: bool)
    ensures best == Search(term, hasResults, cancelSeen).best
    ensures probes == Search(term, hasResults, cancelSeen).probes && cancelled == Search(term, hasResults, cancelSeen).cancelled
  {
    var words := Words(term);
    var lo, hi := 1, |words|;
    best := None;
    var checks: nat := 0;
    probes, cancelled := [], false;
    while lo <= hi
      invariant 1 <= lo <= hi + 1 <= |words| + 1
      invariant checks == |probes|
      invariant Search(term, hasResults, cancelSeen) == Loop(words, hasResults, cancelSeen, lo, hi, best, probes)
      decreases hi - lo + 1
    {
      if cancelSeen(checks) {
        return None, probes, true;
      }
      var mid := (lo + hi) / 2;
      var prefix := Prefix(words, mid);
      probes := probes + [prefix];
      if hasResults(prefix) {
        best := Some(prefix);
        lo := mid + 1;
      } else {
        hi := mid - 1;
      }
      checks := checks + 1;
    }
  }

  // ---------------------------------------------------------------------
  // What is returned

  /** `b` is None, or a non-empty word prefix of length 1..n for which the
      oracle answered yes. */
  ghost predicate FoundPrefix(words: seq<string>, hasResults: string -> bool, b: Option<string>) {
    b.None? ||
    exists k :: 1 <= k <= |words| && b.value == Prefix(words, k) && hasResults(Prefix(words, k))
  }

  lemma {:induction false} LoopFindsPrefix(words: seq<string>, hasResults: string -> bool, cancelSeen: nat -> bool,
                                           lo: int, hi: int, best: Option<string>, probes: seq<string>)
    requires 1 <= lo <= hi + 1 <= |words| + 1
    requires FoundPrefix(words, hasResults, best)
    ensures FoundPrefix(words, hasResults, Loop(words, hasResults, cancelSeen, lo, hi, best, probes).best)
    decreases hi - lo + 1
  {
    if lo <= hi && !cancelSeen(|probes|) {
      var mid := (lo + hi) / 2;
      var prefix := Prefix(words, mid);
      if hasResults(prefix) {
        LoopFindsPrefix(words, hasResults, cancelSeen, mid + 1, hi, Some(prefix), probes + [prefix]);
      } else {
        LoopFindsPrefix(words, hasResults, cancelSeen, lo, mid - 1, best, probes + [prefix]);
      }
    }
  }

  /** Any prefix returned is `" ".join(words[:k])` for some `1 <= k <= n`
      for which the oracle answered yes; it is non-empty; a term without
      words gives None without any query. */
  lemma SearchFindsPrefix(term: string, hasResults: string -> bool, cancelSeen: nat -> bool)
    ensures var r := Search(term, hasResults, cancelSeen);
      && FoundPrefix(Words(term), hasResults, r.best)
      && (r.best.Some? ==> r.best.value != "")
      && (Words(term) == [] ==> r == Outcome(None, [], false))
  {
    var words := Words(term);
    var r := Search(term, hasResults, cancelSeen);
    LoopFindsPrefix(words, hasResults, cancelSeen, 1, |words|, None, []);
    if r.best.Some? {
      var k :| 1 <= k <= |words| && r.best.value == Prefix(words, k) && hasResults(Prefix(words, k));
      JoinStartsWithWord(words[..k]);
    }
  }

  // ---------------------------------------------------------------------
  // Cancellation

  lemma {:induction false} LoopCancellation(words: seq<string>, hasResults: string -> bool, cancelSeen: nat -> bool,
                                            lo: int, hi: int, best: Option<string>, probes: seq<string>)
    requires 1 <= lo <= hi + 1 <= |words| + 1
    ensures var r := Loop(words, hasResults, cancelSeen, lo, hi, best, probes);
      && probes <= r.probes
      && (forall i :: |probes| <= i < |r.probes| ==> !cancelSeen(i))
      && (r.cancelled ==> cancelSeen(|r.probes|) && r.best == None)
    decreases hi - lo + 1
  {
    if lo <= hi && !cancelSeen(|probes|) {
      var mid := (lo + hi) / 2;
      var prefix := Prefix(words, mid);
      if hasResults(prefix) {
        LoopCancellation(words, hasResults, cancelSeen, mid + 1, hi, Some(prefix), probes + [prefix]);
      } else {
        LoopCancellation(words, hasResults, cancelSeen, lo, mid - 1, best, probes + [prefix]);
      }
    }
  }

  /** The cancel event as a search that is never cancelled sees it. */
  predicate NeverSet(i: nat) { false }

  /** A run that did not stop at a set event is the run with the event never
      set, probes and prefix alike. */
  lemma {:induction false} LoopUncancelled(words: seq<string>, hasResults: string -> bool, cancelSeen: nat -> bool,
                                           lo: int, hi: int, best: Option<string>, probes: seq<string>)
    requires 1 <= lo <= hi + 1 <= |words| + 1
    ensures var r := Loop(words, hasResults, cancelSeen, lo, hi, best, probes);
      !r.cancelled ==> r == Loop(words, hasResults, NeverSet, lo, hi, best, probes)
    decreases hi - lo + 1
  {
    if lo <= hi && !cancelSeen(|probes|) {
      var mid := (lo + hi) / 2;
      var prefix := Prefix(words, mid);
      if hasResults(prefix) {
        LoopUncancelled(words, hasResults, cancelSeen, mid + 1, hi, Some(prefix), probes + [prefix]);
      } else {
        LoopUncancelled(words, hasResults, cancelSeen, lo, mid - 1, best, probes + [prefix]);
      }
    }
  }

  /** Every query is preceded by a read of the cancel event that found it
      clear; when a read finds it set, the search stops with None; when no
      read finds it set, the search is the one with no cancel at all. */
  lemma SearchCancellation(term: string, hasResults: string -> bool, cancelSeen: nat -> bool)
    ensures var r := Search(term, hasResults, cancelSeen);
      && (forall i :: 0 <= i < |r.probes| ==> !cancelSeen(i))
      && (r.cancelled ==> cancelSeen(|r.probes|) && r.best == None)
      && (!r.cancelled ==> r == Search(term, hasResults, NeverSet))
  {
    var words := Words(term);
    LoopCancellation(words, hasResults, cancelSeen, 1, |words|, None, []);
    LoopUncancelled(words, hasResults, cancelSeen, 1, |words|, None, []);
  }

  // ---------------------------------------------------------------------
  // Number of queries

  /** The bit length of `m`: floor(log2 m) + 1 for m >= 1, and 0 for 0. */
  function BitLength(m: nat): nat {
    if m == 0 then 0 else 1 + BitLength(m / 2)
  }

  function Pow2(k: nat): nat {
    if k == 0 then 1 else 2 * Pow2(k - 1)
  }

  /** `BitLength(m)` is the `k` with 2^(k-1) <= m < 2^k. */
  lemma {:induction false} BitLengthBounds(m: nat)
    requires m >= 1
    ensures BitLength(m) >= 1 && Pow2(BitLength(m) - 1) <= m < Pow2(BitLength(m))
  {
    if m > 1 {
      BitLengthBounds(m / 2);
    }
  }

  lemma {:induction false} BitLengthMonotone(a: nat, b: nat)
    requires a <= b
    ensures BitLength(a) <= BitLength(b)
  {
    if a > 0 {
      BitLengthMonotone(a / 2, b / 2);
    }
  }

  /** Probing the midpoint costs one query and leaves a range whose bit
      length is at least one smaller. */
  lemma StepBound(lo: int, hi: int, mid: int)
    requires lo <= hi && mid == (lo + hi) / 2
    ensures lo <= mid <= hi
    ensures 1 + BitLength(hi - (mid + 1) + 1) <= BitLength(hi - lo + 1)
    ensures 1 + BitLength(mid - 1 - lo + 1) <= BitLength(hi - lo + 1)
  {
    var m := hi - lo + 1;
    assert hi - mid <= m / 2 && mid - lo <= m / 2;
    BitLengthMonotone(hi - mid, m / 2);
    BitLengthMonotone(mid - lo, m / 2);
    assert hi - (mid + 1) + 1 == hi - mid && mid - 1 - lo + 1 == mid - lo;
  }

  /** One pass of the loop, for a range that is not empty and a check that
      finds the event clear. */
  lemma LoopStep(words: seq<string>, hasResults: string -> bool, cancelSeen: nat -> bool,
                 lo: int, hi: int, best: Option<string>, probes: seq<string>)
    requires 1 <= lo <= hi <= |words| && !cancelSeen(|probes|)
    ensures var mid := (lo + hi) / 2;
      var prefix := Prefix(words, mid);
      Loop(words, hasResults, cancelSeen, lo, hi, best, probes) ==
        if hasResults(prefix) then Loop(words, hasResults, cancelSeen, mid + 1, hi, Some(prefix), probes + [prefix])
        else Loop(words, hasResults, cancelSeen, lo, mid - 1, best, probes + [prefix])
  {
  }

  lemma {:induction false} LoopBound(words: seq<string>, hasResults: string -> bool, cancelSeen: nat -> bool,
                                     lo: int, hi: int, best: Option<string>, probes: seq<string>)
    requires 1 <= lo <= hi + 1 <= |words| + 1
    ensures |Loop(words, hasResults, cancelSeen, lo, hi, best, probes).probes| <= |probes| + BitLength(hi - lo + 1)
    decreases hi - lo + 1
  {
    if lo <= hi && !cancelSeen(|probes|) {
      var mid := (lo + hi) / 2;
      var prefix := Prefix(words, mid);
      StepBound(lo, hi, mid);
      LoopStep(words, hasResults, cancelSeen, lo, hi, best, probes);
      if hasResults(prefix) {
        LoopBound(words, hasResults, cancelSeen, mid + 1, hi, Some(prefix), probes + [prefix]);
      } else {
        LoopBound(words, hasResults, cancelSeen, lo, mid - 1, best, probes + [prefix]);
      }
    }
  }

  /** A term of `n` words costs at most floor(log2 n) + 1 queries. */
  lemma SearchBound(term: string, hasResults: string -> bool, cancelSeen: nat -> bool)
    ensures |Search(term, hasResults, cancelSeen).probes| <= BitLength(|Words(term)|)
  {
    var words := Words(term);
    LoopBound(words, hasResults, cancelSeen, 1, |words|, None, []);
  }

  // ---------------------------------------------------------------------
  // Threshold oracles

  /** The oracle answers yes exactly for the prefixes of at most `K` words. */
  ghost predicate Threshold(words: seq<string>, hasResults: string -> bool, K: nat) {
    K <= |words| &&
    forall k :: 1 <= k <= |words| ==> (hasResults(Prefix(words, k)) <==> k <= K)
  }

  function PrefixOrNone(words: seq<string>, K: nat): Option<string>
    requires K <= |words|
  {
    if K == 0 then None else Some(Prefix(words, K))
  }

  lemma {:induction false} LoopThreshold(words: seq<string>, hasResults: string -> bool, cancelSeen: nat -> bool,
                                         lo: int, hi: int, best: Option<string>, probes: seq<string>, K: nat)
    requires 1 <= lo <= hi + 1 <= |words| + 1
    requires Threshold(words, hasResults, K)
    requires lo - 1 <= K <= hi
    requires best == PrefixOrNone(words, lo - 1)
    ensures var r := Loop(words, hasResults, cancelSeen, lo, hi, best, probes);
      !r.cancelled ==> r.best == PrefixOrNone(words, K)
    decreases hi - lo + 1
  {
    if lo <= hi && !cancelSeen(|probes|) {
      var mid := (lo + hi) / 2;
      var prefix := Prefix(words, mid);
      if hasResults(prefix) {
        LoopThreshold(words, hasResults, cancelSeen, mid + 1, hi, Some(prefix), probes + [prefix], K);
      } else {
        LoopThreshold(words, hasResults, cancelSeen, lo, mid - 1, best, probes + [prefix], K);
      }
    }
  }

  /** When the oracle answers yes exactly for the prefixes of at most `K`
      words and no read of the cancel event finds it set, the search returns
      the `K`-word prefix, or None when `K` is 0. */
  lemma SearchThreshold(term: string, hasResults: string -> bool, cancelSeen: nat -> bool, K: nat)
    requires Threshold(Words(term), hasResults, K)
    ensures var r := Search(term, hasResults, cancelSeen);
      !r.cancelled ==> r.best == PrefixOrNone(Words(term), K)
  {
    var words := Words(term);
    LoopThreshold(words, hasResults, cancelSeen, 1, |words|, None, [], K);
  }
}
