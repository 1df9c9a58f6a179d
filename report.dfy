/**
 * The results table of the main window: `update_output` stores each result
 * under its term (USPTO_Checker_Final.py:434-444), and
 * `display_final_results` sorts the stored results into five buckets by the
 * leading words of the status (USPTO_Checker_Final.py:486-496), then pulls
 * the prefix, example text and term ID back out of each status
 * (USPTO_Checker_Final.py:519-554). The HTML around them is not modelled.
 */
module Report {
  import opened Wrappers
  import opened Subsequence
  import Statuses
  import Patterns
  import Classifier

  /** The five lists of `display_final_results`. */
  datatype Bucket = NoResults | PartialResults | FullMatches | LargerResults | DeletedResults

  /** One `(term, status)` pair of `results_dict.items()`. */
  datatype Entry = Entry(term: string, status: string)

  datatype Buckets = Buckets(noResults: seq<Entry>, partial: seq<Entry>, full: seq<Entry>,
                             larger: seq<Entry>, deleted: seq<Entry>)

  const FullPrefix: string := "Full match found"
  const PartialPrefix: string := "Full match not found, but partial match found"
  const LargerPrefix: string := "Apart of a larger description"
  const DeletedPrefix: string := "Deleted description found"

  /** The term the worker uses for its final event (USPTO_Checker_Final.py:330, 436). */
  const SearchTime: string := "Search time"

  /** The `if`/`elif` chain of USPTO_Checker_Final.py:487-496; None for a
      status that goes in no list. */
  function BucketOf(status: string): Option<Bucket> {
    if status == Statuses.NoMatch then Some(NoResults)
    else if FullPrefix <= status then Some(FullMatches)
    else if PartialPrefix <= status then Some(PartialResults)
    else if LargerPrefix <= status then Some(LargerResults)
    else if DeletedPrefix <= status then Some(DeletedResults)
    else None
  }

  function Get(b: Buckets, k: Bucket): seq<Entry> {
    match k
    case NoResults => b.noResults
    case PartialResults => b.partial
    case FullMatches => b.full
    case LargerResults => b.larger
    case DeletedResults => b.deleted
  }

  function Add(b: Buckets, k: Bucket, e: Entry): Buckets {
    match k
    case NoResults => b.(noResults := b.noResults + [e])
    case PartialResults => b.(partial := b.partial + [e])
    case FullMatches => b.(full := b.full + [e])
    case LargerResults => b.(larger := b.larger + [e])
    case DeletedResults => b.(deleted := b.deleted + [e])
  }

  const NoBuckets: Buckets := Buckets([], [], [], [], [])

  /** The five lists after the loop over the stored terms `order`. */
  function Bucketed(order: seq<string>, values: map<string, string>): Buckets
    requires forall t | t in order :: t in values
  {
    if order == [] then NoBuckets
    else
      var rest := Bucketed(order[..|order| - 1], values);
      var term := order[|order| - 1];
      match BucketOf(values[term])
      case None => rest
      case Some(k) => Add(rest, k, Entry(term, values[term]))
  }

  predicate Distinct(s: seq<string>) {
    forall i, j :: 0 <= i < j < |s| ==> s[i] != s[j]
  }

  function Terms(es: seq<Entry>): (ts: seq<string>)
    ensures |ts| == |es| && forall i :: 0 <= i < |es| ==> ts[i] == es[i].term
  {
    if es == [] then [] else Terms(es[..|es| - 1]) + [es[|es| - 1].term]
  }

  // ---------------------------------------------------------------------
  // The dictionary and the display.

  /** `results_dict`: the stored statuses, with the order in which their
      terms were first inserted, which is the order `items()` yields. */
  class Results {
    var order: seq<string>
    var values: map<string, string>

    ghost predicate Valid()
      reads this
    {
      Distinct(order) && (forall t :: t in order <==> t in values)
    }

    /** `self.results_dict = {}` (USPTO_Checker_Final.py:352, 420). */
    constructor ()
      ensures Valid() && order == [] && values == map[]
    {
      order, values := [], map[];
    }

    /** `update_output`: the final "Search time" event is not stored and
        shows the buckets; any other pair is stored, and a term already
        present keeps its place in the order. */
    method UpdateOutput(term: string, status: string) returns (final: Option<Buckets>)
      requires Valid()
      modifies this
      ensures Valid()
      ensures term == SearchTime ==>
        order == old(order) && values == old(values) && final == Some(Bucketed(order, values))
      ensures term != SearchTime ==>
        && final == None
        && values == old(values)[term := status]
        && order == (if term in old(values) then old(order) else old(order) + [term])
    {
      if term == SearchTime {
        var b := DisplayFinalResults();
        return Some(b);
      }
      if term !in values {
        order := order + [term];
      }
      values := values[term := status];
      final := None;
    }

    /** The bucketing loop of `display_final_results`. */
    method DisplayFinalResults() returns (b: Buckets)
      requires Valid()
      ensures b == Bucketed(order, values)
    {
      var noResults, partial, full, larger, deleted := [], [], [], [], [];
      var i := 0;
      while i < |order|
        invariant 0 <= i <= |order|
        invariant Buckets(noResults, partial, full, larger, deleted) == Bucketed(order[..i], values)
      {
        var term := order[i];
        var status := values[term];
        assert order[..i + 1][..i] == order[..i];
        if status == Statuses.NoMatch {
          noResults := noResults + [Entry(term, status)];
        } else if FullPrefix <= status {
          full := full + [Entry(term, status)];
        } else if PartialPrefix <= status {
          partial := partial + [Entry(term, status)];
        } else if LargerPrefix <= status {
          larger := larger + [Entry(term, status)];
        } else if DeletedPrefix <= status {
          deleted := deleted + [Entry(term, status)];
        }
        i := i + 1;
      }
      assert order[..i] == order;
      b := Buckets(noResults, partial, full, larger, deleted);
    }
  }

  // ---------------------------------------------------------------------
  // Which status goes where.

  lemma PrefixOfConcat(p: string, rest: string)
    ensures p <= p + rest && (p != [] ==> (p + rest)[0] == p[0])
  {
    assert (p + rest)[..|p|] == p;
  }

  lemma FullBucket(id: string)
    ensures BucketOf(Statuses.Full(id)) == Some(FullMatches)
  {
    var rest := " (Term ID: " + id + ")";
    assert Statuses.Full(id) == FullPrefix + rest;
    PrefixOfConcat(FullPrefix, rest);
  }

  lemma PartialBucket(prefix: string, id: string)
    ensures BucketOf(Statuses.Partial(prefix, id)) == Some(PartialResults)
  {
    var rest := ": '" + prefix + "' (Term ID: " + id + ")";
    var s := Statuses.Partial(prefix, id);
    assert s == PartialPrefix + rest;
    PrefixOfConcat(PartialPrefix, rest);
    assert s[11] == PartialPrefix[11];
  }

  lemma LargerBucket(example: string, id: string)
    ensures BucketOf(Statuses.Larger(example, id)) == Some(LargerResults)
  {
    var rest := " (Example - " + example + " - Term ID: " + id + ")";
    assert Statuses.Larger(example, id) == LargerPrefix + rest;
    PrefixOfConcat(LargerPrefix, rest);
  }

  lemma DeletedBucket(id: string)
    ensures BucketOf(Statuses.Deleted(id)) == Some(DeletedResults)
  {
    var rest := " (Term ID: " + id + ")";
    assert Statuses.Deleted(id) == DeletedPrefix + rest;
    PrefixOfConcat(DeletedPrefix, rest);
  }

  /** Each status the classifier builds lands in its own bucket, and
      "Cancelled" in none. */
  lemma BucketOfStatuses(prefix: string, example: string, id: string)
    ensures BucketOf(Statuses.NoMatch) == Some(NoResults)
    ensures BucketOf(Statuses.Full(id)) == Some(FullMatches)
    ensures BucketOf(Statuses.Partial(prefix, id)) == Some(PartialResults)
    ensures BucketOf(Statuses.Larger(example, id)) == Some(LargerResults)
    ensures BucketOf(Statuses.Deleted(id)) == Some(DeletedResults)
    ensures BucketOf(Statuses.Cancelled) == None
  {
    FullBucket(id);
    PartialBucket(prefix, id);
    LargerBucket(example, id);
    DeletedBucket(id);
    assert Statuses.Cancelled[0] == 'C';
  }

  /** Every status `search_term` computes for a term lands in some bucket;
      only the "Cancelled" of a term cancelled on entry lands in none. */
  lemma RenderedHasBucket(a: Classifier.Analysis)
    ensures BucketOf(Classifier.Render(a)).Some?
  {
    if a.kind == Classifier.TemplateMatch {
      LargerBucket(if a.promoted.Some? then a.promoted.value else "Not found", a.termId);
    } else if a.flags.deleted {
      DeletedBucket(a.termId);
    } else if a.flags.full {
      FullBucket(a.termId);
    } else if a.flags.found || a.promoted.Some? {
      LargerBucket(Classifier.ExampleText(a.page, if a.promoted.Some? then a.promoted.value else "Not found"), a.termId);
    } else if a.kind == Classifier.PartialOnly && Classifier.Truthy(a.partial) {
      PartialBucket(a.partial.value, a.termId);
    } else if a.kind == Classifier.Unmatched {
    } else if a.page.firstRecordLink.Some? {
      LargerBucket(Classifier.ExampleText(a.page, "Not found"), a.termId);
    } else {
      LargerBucket("Description not found", "Not found");
    }
  }

  // ---------------------------------------------------------------------
  // What the buckets hold.

  /** An entry is in bucket `k` exactly when its term was stored with that
      status and the status belongs to `k`. */
  lemma {:induction false} BucketedMembers(order: seq<string>, values: map<string, string>, k: Bucket, e: Entry)
    requires forall t | t in order :: t in values
    ensures e in Get(Bucketed(order, values), k) <==>
      e.term in order && e.status == values[e.term] && BucketOf(e.status) == Some(k)
  {
    if order != [] {
      var init := order[..|order| - 1];
      var term := order[|order| - 1];
      assert order == init + [term];
      BucketedMembers(init, values, k, e);
    }
  }

  /** No entry is in two buckets. */
  lemma BucketsDisjoint(order: seq<string>, values: map<string, string>, k1: Bucket, k2: Bucket, e: Entry)
    requires forall t | t in order :: t in values
    requires k1 != k2
    ensures !(e in Get(Bucketed(order, values), k1) && e in Get(Bucketed(order, values), k2))
  {
    BucketedMembers(order, values, k1, e);
    BucketedMembers(order, values, k2, e);
  }

  /** One more stored term adds at most itself to the end of a bucket. */
  lemma BucketedStep(order: seq<string>, values: map<string, string>, k: Bucket)
    requires order != [] && forall t | t in order :: t in values
    ensures var init, term := order[..|order| - 1], order[|order| - 1];
      var es := Get(Bucketed(init, values), k);
      Get(Bucketed(order, values), k) == es ||
      Get(Bucketed(order, values), k) == es + [Entry(term, values[term])]
  {
  }

  lemma TermsSnoc(es: seq<Entry>, e: Entry)
    ensures Terms(es + [e]) == Terms(es) + [e.term]
  {
    assert (es + [e])[..|es|] == es;
  }

  /** Within each bucket, terms appear in the order they were stored. */
  lemma {:induction false} BucketedSubseq(order: seq<string>, values: map<string, string>, k: Bucket)
    requires forall t | t in order :: t in values
    ensures IsSubseq(Terms(Get(Bucketed(order, values), k)), order)
  {
    if order != [] {
      var init, term := order[..|order| - 1], order[|order| - 1];
      assert order == init + [term];
      BucketedSubseq(init, values, k);
      BucketedStep(order, values, k);
      var es := Get(Bucketed(init, values), k);
      IsSubseqSnoc(Terms(es), init, term);
      if Get(Bucketed(order, values), k) != es {
        TermsSnoc(es, Entry(term, values[term]));
      }
    }
  }

  /** Within each bucket, each term appears once when each was stored once. */
  lemma {:induction false} BucketedDistinct(order: seq<string>, values: map<string, string>, k: Bucket)
    requires forall t | t in order :: t in values
    requires Distinct(order)
    ensures Distinct(Terms(Get(Bucketed(order, values), k)))
  {
    if order != [] {
      var init, term := order[..|order| - 1], order[|order| - 1];
      assert order == init + [term];
      BucketedDistinct(init, values, k);
      BucketedStep(order, values, k);
      var es := Get(Bucketed(init, values), k);
      var ts := Terms(es);
      if Get(Bucketed(order, values), k) != es {
        TermsSnoc(es, Entry(term, values[term]));
        forall i | 0 <= i < |ts| ensures ts[i] != term {
          assert es[i] in es;
          BucketedMembers(init, values, k, es[i]);
        }
      }
    }
  }

  /** Within each bucket, terms appear in the order they were first stored,
      each once. */
  lemma BucketedInOrder(order: seq<string>, values: map<string, string>, k: Bucket)
    requires forall t | t in order :: t in values
    requires Distinct(order)
    ensures IsSubseq(Terms(Get(Bucketed(order, values), k)), order)
    ensures Distinct(Terms(Get(Bucketed(order, values), k)))
  {
    BucketedSubseq(order, values, k);
    BucketedDistinct(order, values, k);
  }

  // ---------------------------------------------------------------------
  // The fields shown for each entry.

  /** One list item of the final report, with the fields the regexes of
      USPTO_Checker_Final.py:523, 536, 544 and 551 pull out of its status. */
  datatype Line =
    | NotOnSite(term: string)
    | PartialLine(term: string, prefix: string, id: string)
    | LargerLine(term: string, example: string, id: string)
    | DeletedLine(term: string, id: string)
    | FullLine(term: string, id: string)

  function LineOf(k: Bucket, e: Entry): Line {
    match k
    case NoResults => NotOnSite(e.term)
    case PartialResults => var f := Patterns.PartialFields(e.status); PartialLine(e.term, f.0, f.1)
    case LargerResults => var f := Patterns.LargerFields(e.status); LargerLine(e.term, f.0, f.1)
    case DeletedResults => DeletedLine(e.term, Patterns.DeletedId(e.status))
    case FullMatches => FullLine(e.term, Patterns.FullId(e.status))
  }

  /** The fields shown for a stored entry. */
  lemma LineOfStatuses(term: string, prefix: string, example: string, id: string)
    requires Patterns.PlainId(id)
    ensures LineOf(FullMatches, Entry(term, Statuses.Full(id))) == FullLine(term, id)
    ensures LineOf(DeletedResults, Entry(term, Statuses.Deleted(id))) == DeletedLine(term, id)
    ensures Patterns.PlainPrefix(prefix) ==>
      LineOf(PartialResults, Entry(term, Statuses.Partial(prefix, id))) == PartialLine(term, prefix, id)
    ensures example != [] && '\n' !in example && '-' !in example ==>
      LineOf(LargerResults, Entry(term, Statuses.Larger(example, id))) == LargerLine(term, example, id)
    ensures LineOf(LargerResults, Entry(term, Statuses.Template)) == LargerLine(term, "Not found", "Not found")
  {
    Patterns.FullIdOf(id);
    Patterns.DeletedIdOf(id);
    if Patterns.PlainPrefix(prefix) {
      Patterns.PartialFieldsOf(prefix, id);
    }
    if example != [] && '\n' !in example && '-' !in example {
      Patterns.LargerFieldsOf(example, id);
    }
    Patterns.TemplateFields();
  }
}
