/**
 * `search_term` (USPTO_Checker_Final.py:84-267): the classification of one
 * term against the USPTO ID Manual search page, and the process-wide
 * `search_cache`.
 *
 * The browser is replaced by a deterministic `query(text)`: the page the
 * site shows after searching for `text`, reduced to what the checker reads
 * from it: the page-results text, the description rows with their notes
 * cell, and the text of the first record link.
 */
module Classifier {
  import opened Wrappers
  import opened Text
  import opened Subsequence
  import opened PrefixSearch
  import opened Patterns
  import Statuses

  /** One row of the results table: its description cell and, when the row
      has them, its notes cell and the text of its `a.view-record` link (raw
      text). */
  datatype Row = Row(description: string, notes: Option<string>, recordLink: Option<string>)

  /** What the checker reads from a results page. */
  datatype Page = Page(content: string, rows: seq<Row>, firstRecordLink: Option<string>)

  /** `initial_result_type`, with the three outcomes of the echo parse kept
      apart: the echoed term normalizes to the term, to something else, or
      the echo could not be parsed. */
  datatype Kind = EchoSame | EchoOther | EchoUnparsed | General | TemplateMatch | PartialOnly | Unmatched

  /** `is_deleted_description`, `found_full_description_match` and
      `found_in_description` after the row scan. */
  datatype Flags = Flags(deleted: bool, full: bool, found: bool)

  /** Everything the final choice of status reads. */
  datatype Analysis = Analysis(kind: Kind, partial: Option<string>, page: Page, flags: Flags,
                               termId: string, promoted: Option<string>, queries: seq<string>)

  const FullMatchPrefix: string := "Displaying search results for:"

  /** `content and "Displaying" in content` (USPTO_Checker_Final.py:76, 118). */
  predicate ShowsResults(p: Page) {
    p.content != "" && Contains(p.content, "Displaying")
  }

  /** The oracle the prefix search asks. */
  function HasResults(query: string -> Page): string -> bool {
    text => ShowsResults(query(text))
  }

  /** Python truthiness of an optional string. */
  predicate Truthy(o: Option<string>) {
    o.Some? && o.value != ""
  }

  /** `normalize_text(cell.text_content().strip())`. */
  function CellText(r: Row): string {
    Normalize(Strip(r.description))
  }

  /** The notes cell exists and `re.search(r"deleted", ...)` finds the word
      in its normalized text. */
  predicate DeletedNote(r: Row) {
    r.notes.Some? && Contains(Normalize(Strip(r.notes.value)), "deleted")
  }

  /** `is_subsequence(partial_words, cell_words)` as the code computes it. */
  predicate TemplateRow(partialWords: seq<string>, r: Row) {
    IsSubsequenceAsWritten(partialWords, Words(CellText(r)))
  }

  /** The index of the first element of `xs` that passes `p`. */
  function FirstIndex<T>(p: T -> bool, xs: seq<T>): (r: Option<nat>)
    ensures r.Some? ==> r.value < |xs|
  {
    if xs == [] then None
    else if p(xs[0]) then Some(0)
    else
      var r := FirstIndex(p, xs[1..]);
      if r.Some? then Some(r.value + 1) else None
  }

  /** `FirstIndex` finds the least index that passes, or reports that none
      does. */
  lemma {:induction false} FirstIndexMeaning<T>(p: T -> bool, xs: seq<T>)
    ensures var r := FirstIndex(p, xs);
      && (r.Some? ==> r.value < |xs| && p(xs[r.value]))
      && (r.Some? ==> forall j :: 0 <= j < r.value ==> !p(xs[j]))
      && (r.None? ==> forall j :: 0 <= j < |xs| ==> !p(xs[j]))
  {
    if xs != [] && !p(xs[0]) {
      FirstIndexMeaning(p, xs[1..]);
      assert forall j :: 1 <= j < |xs| ==> xs[j] == xs[1..][j - 1];
    }
  }

  /** The least index that passes is the one `FirstIndex` returns. */
  lemma {:induction false} FirstIndexIs<T>(p: T -> bool, xs: seq<T>, i: nat)
    requires i < |xs| && p(xs[i]) && forall j :: 0 <= j < i ==> !p(xs[j])
    ensures FirstIndex(p, xs) == Some(i)
  {
    if i > 0 {
      assert forall j :: 0 <= j < i - 1 ==> xs[1..][j] == xs[j + 1];
      FirstIndexIs(p, xs[1..], i - 1);
    }
  }

  lemma FirstIndexNone<T>(p: T -> bool, xs: seq<T>)
    requires forall j :: 0 <= j < |xs| ==> !p(xs[j])
    ensures FirstIndex(p, xs) == None
  {
    FirstIndexMeaning(p, xs);
  }

  // ---------------------------------------------------------------------
  // The template scan (USPTO_Checker_Final.py:149-165) and the promotion
  // scan (USPTO_Checker_Final.py:230-236): the first row that passes.

  function TemplateTest(partialWords: seq<string>): Row -> bool {
    row => TemplateRow(partialWords, row)
  }

  /** `template_text` and `template_id` of a template row. */
  datatype TemplateHit = TemplateHit(text: string, id: string)

  /** The row's stripped description and the stripped text of its record
      link, or "Not found" when the row has none (USPTO_Checker_Final.py:157-163). */
  function HitOf(r: Row): TemplateHit {
    TemplateHit(Strip(r.description), if r.recordLink.Some? then Strip(r.recordLink.value) else "Not found")
  }

  /** The text and ID of the first template row. */
  function FirstTemplate(partialWords: seq<string>, rows: seq<Row>): Option<TemplateHit> {
    match FirstIndex(TemplateTest(partialWords), rows)
    case None => None
    case Some(i) => Some(HitOf(rows[i]))
  }

  /** The scan finds a row exactly when some row passes, and then reports the
      stripped text and the ID of the first one. */
  lemma FirstTemplateMeaning(partialWords: seq<string>, rows: seq<Row>)
    ensures FirstTemplate(partialWords, rows).Some? <==> exists i :: 0 <= i < |rows| && TemplateRow(partialWords, rows[i])
    ensures FirstTemplate(partialWords, rows).Some? ==>
      exists i :: 0 <= i < |rows| && TemplateRow(partialWords, rows[i]) &&
        (forall j :: 0 <= j < i ==> !TemplateRow(partialWords, rows[j])) &&
        FirstTemplate(partialWords, rows).value == HitOf(rows[i])
  {
    var p := TemplateTest(partialWords);
    FirstIndexMeaning(p, rows);
    var r := FirstIndex(p, rows);
    if r.Some? {
      assert TemplateRow(partialWords, rows[r.value]);
    } else {
      assert forall j :: 0 <= j < |rows| ==> !p(rows[j]);
    }
  }

  /** The first row that passes gives the template text and ID. */
  lemma FirstTemplateAt(partialWords: seq<string>, rows: seq<Row>, i: nat)
    requires i < |rows| && TemplateRow(partialWords, rows[i])
    requires forall j :: 0 <= j < i ==> !TemplateRow(partialWords, rows[j])
    ensures FirstTemplate(partialWords, rows) == Some(HitOf(rows[i]))
  {
    FirstIndexIs(TemplateTest(partialWords), rows, i);
  }

  /** When no row passes there is no template text. */
  lemma FirstTemplateNone(partialWords: seq<string>, rows: seq<Row>)
    requires forall j :: 0 <= j < |rows| ==> !TemplateRow(partialWords, rows[j])
    ensures FirstTemplate(partialWords, rows) == None
  {
    FirstIndexNone(TemplateTest(partialWords), rows);
  }

  /** The `for cell in description_cells` loop of the template scan, with
      `found_in_template`, `template_text` and `template_id`; the promotion
      scan runs the same loop and reads only the text. */
  method FindTemplateRow(partialWords: seq<string>, rows: seq<Row>) returns (found: bool, text: string, id: string)
    ensures found <==> FirstTemplate(partialWords, rows).Some?
    ensures found ==> TemplateHit(text, id) == FirstTemplate(partialWords, rows).value
  {
    found, text, id := false, "", "Not found";
    var i := 0;
    while i < |rows|
      invariant 0 <= i <= |rows|
      invariant forall j :: 0 <= j < i ==> !TemplateRow(partialWords, rows[j])
    {
      var cellText := Strip(rows[i].description);
      if TemplateRow(partialWords, rows[i]) {
        found, text := true, cellText;
        var link := rows[i].recordLink;
        if link.Some? {
          id := Strip(link.value);
        }
        FirstTemplateAt(partialWords, rows, i);
        return;
      }
      i := i + 1;
    }
    FirstTemplateNone(partialWords, rows);
  }

  // ---------------------------------------------------------------------
  // The row scan, USPTO_Checker_Final.py:194-225.

  /** The row scan over `rows` for the normalized term `nt`. */
  function Scan(nt: string, rows: seq<Row>): (r: Flags)
    ensures r.full || r.deleted ==> r.found
  {
    if rows == [] then Flags(false, false, false)
    else if nt == CellText(rows[0]) then Flags(DeletedNote(rows[0]), true, true)
    else if Contains(CellText(rows[0]), nt) then
      if DeletedNote(rows[0]) then Flags(true, false, true)
      else
        var r := Scan(nt, rows[1..]);
        Flags(r.deleted, r.full, true)
    else Scan(nt, rows[1..])
  }

  /** The scan stops at a row that is equal to the term after normalization,
      or that contains it and has a deleted note. */
  predicate Stops(nt: string, r: Row) {
    nt == CellText(r) || (Contains(CellText(r), nt) && DeletedNote(r))
  }

  function StopTest(nt: string): Row -> bool {
    row => Stops(nt, row)
  }

  /** The first row at which the scan stops. */
  function FirstStop(nt: string, rows: seq<Row>): Option<nat> {
    FirstIndex(StopTest(nt), rows)
  }

  lemma ContainsSelf(s: string)
    ensures Contains(s, s)
  {
  }

  lemma FirstStopTail(nt: string, rows: seq<Row>)
    requires rows != [] && !Stops(nt, rows[0])
    ensures FirstStop(nt, rows) == if FirstStop(nt, rows[1..]).Some? then Some(FirstStop(nt, rows[1..]).value + 1) else None
  {
    assert !StopTest(nt)(rows[0]);
  }

  /** A full match and a deleted description are decided by the first
      stopping row: the first row equal to the term, or containing it with a
      deleted note. A containing row without a deleted note does not stop
      the scan, so a later equal row still gives a full match. */
  lemma {:induction false} ScanStops(nt: string, rows: seq<Row>)
    ensures var k := FirstStop(nt, rows);
      && (Scan(nt, rows).full <==> k.Some? && nt == CellText(rows[k.value]))
      && (Scan(nt, rows).deleted <==> k.Some? && DeletedNote(rows[k.value]))
  {
    if rows != [] && !Stops(nt, rows[0]) {
      ScanStops(nt, rows[1..]);
      FirstStopTail(nt, rows);
    }
  }

  /** A description containing the term is reported exactly when some row
      contains it. */
  lemma {:induction false} ScanFound(nt: string, rows: seq<Row>)
    ensures Scan(nt, rows).found <==> exists i :: 0 <= i < |rows| && Contains(CellText(rows[i]), nt)
  {
    if rows != [] {
      if nt == CellText(rows[0]) {
        ContainsSelf(nt);
      } else if !Contains(CellText(rows[0]), nt) || !DeletedNote(rows[0]) {
        ScanFound(nt, rows[1..]);
        assert forall j :: 1 <= j < |rows| ==> rows[j] == rows[1..][j - 1];
        if exists i :: 0 <= i < |rows| && Contains(CellText(rows[i]), nt) {
          var i :| 0 <= i < |rows| && Contains(CellText(rows[i]), nt);
          if i > 0 {
            assert Contains(CellText(rows[1..][i - 1]), nt);
          }
        }
      }
    }
  }

  /** One step of the scan, at index `i`. */
  lemma ScanAt(nt: string, rows: seq<Row>, i: nat)
    requires i < |rows|
    ensures Scan(nt, rows[i..]) ==
      var r := Scan(nt, rows[i + 1..]);
      if nt == CellText(rows[i]) then Flags(DeletedNote(rows[i]), true, true)
      else if Contains(CellText(rows[i]), nt) then
        if DeletedNote(rows[i]) then Flags(true, false, true) else Flags(r.deleted, r.full, true)
      else r
  {
    assert rows[i..][0] == rows[i] && rows[i..][1..] == rows[i + 1..];
  }

  /** The `for cell in description_cells` loop of the row scan, with its
      three flags. */
  method ScanRows(nt: string, rows: seq<Row>) returns (deleted: bool, full: bool, found: bool)
    ensures Flags(deleted, full, found) == Scan(nt, rows)
  {
    deleted, full, found := false, false, false;
    var i := 0;
    assert rows[0..] == rows;
    while i < |rows|
      invariant 0 <= i <= |rows|
      invariant !deleted && !full
      invariant var r := Scan(nt, rows[i..]); Scan(nt, rows) == Flags(r.deleted, r.full, found || r.found)
    {
      var row := rows[i];
      ScanAt(nt, rows, i);
      var cellText := CellText(row);
      if nt == cellText {
        full, found := true, true;
        if DeletedNote(row) {
          deleted := true;
          return;
        }
        return;
      } else if Contains(cellText, nt) {
        found := true;
        if DeletedNote(row) {
          deleted := true;
          return;
        }
        if full {
          return;
        }
      }
      i := i + 1;
    }
    assert rows[i..] == [];
  }

  // ---------------------------------------------------------------------
  // The whole decision.

  /** The echo parse of USPTO_Checker_Final.py:109-117. */
  function EchoKind(term: string, content: string): Kind {
    match FindEcho(content)
    case None => EchoUnparsed
    case Some(shown) => if Normalize(term) == Normalize(Strip(shown)) then EchoSame else EchoOther
  }

  /** The standard result checks, USPTO_Checker_Final.py:184-236, on `page`. */
  function RowChecks(term: string, kind: Kind, partial: Option<string>, page: Page, queries: seq<string>): Analysis {
    var termId := if page.firstRecordLink.Some? then Strip(page.firstRecordLink.value) else "Not found";
    var flags := Scan(Normalize(term), page.rows);
    var promotion :=
      if !flags.found && kind == PartialOnly && Truthy(partial)
      then FirstTemplate(Words(Normalize(partial.value)), page.rows)
      else None;
    var promoted := if promotion.Some? then Some(promotion.value.text) else None;
    Analysis(kind, partial, page, flags, termId, promoted, queries)
  }

  const NoFlags: Flags := Flags(false, false, false)

  /** The pages visited before the row checks, the kind of result, the
      prefix found and, for a template match, the text and ID of the
      template row (`description_text` and `term_id_number` as lines 169-170
      set them). */
  datatype Visit = Visit(kind: Kind, partial: Option<string>, page: Page, hit: Option<TemplateHit>, queries: seq<string>)

  /** Lines 89-182 for a term that was neither cancelled on entry nor cached,
      given the outcome `s` of the prefix search, which is run only when the
      term's own page shows no results. */
  function Visited(term: string, query: string -> Page, s: Outcome): (v: Visit)
    ensures v.hit.Some? <==> v.kind == TemplateMatch
  {
    var first := query(term);
    var content := first.content;
    if content != "" && Contains(content, FullMatchPrefix) then
      Visit(EchoKind(term, content), None, first, None, [term])
    else if ShowsResults(first) then
      Visit(General, None, first, None, [term])
    else if Truthy(s.best) then
      var page := query(s.best.value);
      var queries := [term] + s.probes + [s.best.value];
      var hit := FirstTemplate(Words(Normalize(s.best.value)), page.rows);
      if hit.Some? then
        Visit(TemplateMatch, s.best, page, hit, queries)
      else
        Visit(PartialOnly, s.best, page, None, queries)
    else
      Visit(Unmatched, s.best, first, None, [term] + s.probes)
  }

  /** Lines 177-236: the example text and the ID are reset to "Not found",
      dropping a template row's, and the row checks run unless the result is
      a template match or no match. */
  function Checked(term: string, v: Visit): Analysis {
    if v.kind == TemplateMatch || v.kind == Unmatched then
      Analysis(v.kind, v.partial, v.page, NoFlags, "Not found", None, v.queries)
    else
      RowChecks(term, v.kind, v.partial, v.page, v.queries)
  }

  /** Lines 89-236 as one step. */
  function Analyze(term: string, query: string -> Page, s: Outcome): Analysis {
    Checked(term, Visited(term, query, s))
  }

  /** The example text of USPTO_Checker_Final.py:246-250 and 257-261: the
      stripped text of the page's first description cell when it is
      non-empty, otherwise `fallback`. */
  function ExampleText(page: Page, fallback: string): string {
    if page.rows != [] && page.rows[0].description != "" then Strip(page.rows[0].description) else fallback
  }

  /** The final `if`/`elif` chain, USPTO_Checker_Final.py:239-264. */
  function Render(a: Analysis): string {
    if a.kind == TemplateMatch then
      Statuses.Larger(if a.promoted.Some? then a.promoted.value else "Not found", a.termId)
    else if a.flags.deleted then Statuses.Deleted(a.termId)
    else if a.flags.full then Statuses.Full(a.termId)
    else if a.flags.found || a.promoted.Some? then
      Statuses.Larger(ExampleText(a.page, if a.promoted.Some? then a.promoted.value else "Not found"), a.termId)
    else if a.kind == PartialOnly && Truthy(a.partial) then Statuses.Partial(a.partial.value, a.termId)
    else if a.kind == Unmatched then Statuses.NoMatch
    else if a.page.firstRecordLink.Some? then Statuses.Larger(ExampleText(a.page, "Not found"), a.termId)
    else Statuses.Fallback
  }

  /** The status of a term that was neither cancelled on entry nor cached. */
  function Classify(term: string, query: string -> Page, cancelSeen: nat -> bool): string {
    Render(Analyze(term, query, Search(term, HasResults(query), cancelSeen)))
  }

  // ---------------------------------------------------------------------
  // Properties of the decision.

  /** The promotion at USPTO_Checker_Final.py:228-236 never fires: it scans
      the same rows of the same page with the same test as the template scan,
      which has already found nothing whenever the promotion is tried. */
  lemma PromotionNeverFires(term: string, query: string -> Page, s: Outcome)
    ensures Analyze(term, query, s).promoted == None
  {
  }

  /** The parsed echo never changes the status: every branch that sees
      `Displaying` goes to the same row checks on the same page. */
  lemma EchoIrrelevant(term: string, query: string -> Page, s: Outcome)
    requires ShowsResults(query(term))
    ensures Render(Analyze(term, query, s)) == Render(RowChecks(term, General, None, query(term), [term]))
  {
    var content := query(term).content;
    if Contains(content, FullMatchPrefix) {
      var k := EchoKind(term, content);
      assert Render(RowChecks(term, k, None, query(term), [term])) == Render(RowChecks(term, General, None, query(term), [term]));
    }
  }

  /** The kinds after which the standard result checks run
      (USPTO_Checker_Final.py:184-185). */
  predicate RowChecking(k: Kind) {
    k != TemplateMatch && k != Unmatched
  }

  /** A template match finds the first template row on the prefix's page,
      with its text and ID, yet always reports "Not found" as example and as
      ID: both are reset before the status is built. */
  lemma TemplateStatus(term: string, query: string -> Page, s: Outcome)
    requires Analyze(term, query, s).kind == TemplateMatch
    ensures var v := Visited(term, query, s);
      && v.partial.Some? && v.hit.Some?
      && v.hit == FirstTemplate(Words(Normalize(v.partial.value)), v.page.rows)
    ensures Render(Analyze(term, query, s)) == Statuses.Template
  {
  }

  /** When the term's page shows no results and the prefix search returns
      nothing, the status is "No match found". */
  lemma NoPrefixNoMatch(term: string, query: string -> Page, s: Outcome)
    requires !ShowsResults(query(term)) && !Truthy(s.best)
    ensures Analyze(term, query, s).kind == Unmatched
    ensures Render(Analyze(term, query, s)) == Statuses.NoMatch
  {
    var content := query(term).content;
    if content != "" && Contains(content, FullMatchPrefix) {
      ContainsPrefix(content, FullMatchPrefix, "Displaying");
    }
  }

  /** A cancel event seen during the prefix search ends the term with
      "No match found", not "Cancelled". */
  lemma CancelledSearchNoMatch(term: string, query: string -> Page, cancelSeen: nat -> bool)
    requires !ShowsResults(query(term)) && Search(term, HasResults(query), cancelSeen).cancelled
    ensures Classify(term, query, cancelSeen) == Statuses.NoMatch
  {
    SearchCancellation(term, HasResults(query), cancelSeen);
    NoPrefixNoMatch(term, query, Search(term, HasResults(query), cancelSeen));
  }

  /** After the row checks, a first stopping row with a deleted note gives
      "Deleted description found", whether it equals the term or only
      contains it. */
  lemma DeletedWins(term: string, query: string -> Page, s: Outcome)
    requires var a := Analyze(term, query, s);
      var k := FirstStop(Normalize(term), a.page.rows);
      RowChecking(a.kind) && k.Some? && DeletedNote(a.page.rows[k.value])
    ensures Render(Analyze(term, query, s)) == Statuses.Deleted(Analyze(term, query, s).termId)
  {
    var a := Analyze(term, query, s);
    ScanStops(Normalize(term), a.page.rows);
  }

  /** After the row checks, a first stopping row that equals the term and has
      no deleted note gives "Full match found", even when rows containing the
      term come before it. */
  lemma FullMatchStatus(term: string, query: string -> Page, s: Outcome)
    requires var a := Analyze(term, query, s);
      var k := FirstStop(Normalize(term), a.page.rows);
      RowChecking(a.kind) && k.Some? && !DeletedNote(a.page.rows[k.value]) &&
      Normalize(term) == CellText(a.page.rows[k.value])
    ensures Render(Analyze(term, query, s)) == Statuses.Full(Analyze(term, query, s).termId)
  {
    var a := Analyze(term, query, s);
    ScanStops(Normalize(term), a.page.rows);
  }

  /** After the row checks, when no row stops the scan but some row contains
      the term, the example shown is the page's first description, not the
      row that matched. */
  lemma ContainedStatus(term: string, query: string -> Page, s: Outcome, i: nat)
    requires var a := Analyze(term, query, s);
      RowChecking(a.kind) && FirstStop(Normalize(term), a.page.rows).None? &&
      i < |a.page.rows| && Contains(CellText(a.page.rows[i]), Normalize(term))
    ensures var a := Analyze(term, query, s);
      Render(Analyze(term, query, s)) == Statuses.Larger(ExampleText(a.page, "Not found"), a.termId)
  {
    var a := Analyze(term, query, s);
    ScanStops(Normalize(term), a.page.rows);
    ScanFound(Normalize(term), a.page.rows);
  }

  /** A partial match whose prefix page has no template row and no row
      containing the term reports the prefix. */
  lemma PartialStatus(term: string, query: string -> Page, s: Outcome)
    requires var a := Analyze(term, query, s);
      a.kind == PartialOnly && forall i :: 0 <= i < |a.page.rows| ==> !Contains(CellText(a.page.rows[i]), Normalize(term))
    ensures var a := Analyze(term, query, s);
      a.partial.Some? && Render(Analyze(term, query, s)) == Statuses.Partial(a.partial.value, a.termId)
  {
    var a := Analyze(term, query, s);
    ScanFound(Normalize(term), a.page.rows);
    assert !a.flags.found && !a.flags.full && !a.flags.deleted;
    assert a.promoted == None;
  }

  /** After a prefix search that returned a prefix, the page examined is
      the prefix's page, and the prefixes queried are the term, the probes
      and the prefix, in that order. */
  lemma PartialPage(term: string, query: string -> Page, s: Outcome)
    requires !ShowsResults(query(term)) && Truthy(s.best)
    ensures var a := Analyze(term, query, s);
      && a.page == query(s.best.value)
      && (a.kind == TemplateMatch || a.kind == PartialOnly)
      && a.partial == s.best
      && a.queries == [term] + s.probes + [s.best.value]
  {
    var content := query(term).content;
    if content != "" && Contains(content, FullMatchPrefix) {
      ContainsPrefix(content, FullMatchPrefix, "Displaying");
    }
  }

  /** After the row checks, when no row contains the term and there is no
      partial prefix to report, the status names the page's first
      description and the stripped first record link, or is the fallback
      when the page has no record link. */
  lemma NoRowStatus(term: string, query: string -> Page, s: Outcome)
    requires var a := Analyze(term, query, s);
      && RowChecking(a.kind) && !(a.kind == PartialOnly && Truthy(a.partial))
      && forall i :: 0 <= i < |a.page.rows| ==> !Contains(CellText(a.page.rows[i]), Normalize(term))
    ensures var a := Analyze(term, query, s);
      Render(a) ==
        if a.page.firstRecordLink.Some?
        then Statuses.Larger(ExampleText(a.page, "Not found"), Strip(a.page.firstRecordLink.value))
        else Statuses.Fallback
  {
    var a := Analyze(term, query, s);
    ScanFound(Normalize(term), a.page.rows);
    assert !a.flags.found && !a.flags.full && !a.flags.deleted;
    assert a.promoted == None;
  }

  /** A search costs the term's own query, at most floor(log2 n) + 1 prefix
      queries for a term of n words, and one query for the prefix found. */
  lemma QueryBound(term: string, query: string -> Page, cancelSeen: nat -> bool)
    ensures var a := Analyze(term, query, Search(term, HasResults(query), cancelSeen));
      |a.queries| <= 2 + BitLength(|Words(term)|) && a.queries[0] == term
  {
    SearchBound(term, HasResults(query), cancelSeen);
  }

  // ---------------------------------------------------------------------
  // The body of `search_term`, in two stages.

  /** Lines 89-182: the term's own page, its kind, and on no results the
      prefix search and the prefix's page. `visited` lists the texts searched
      on the site, in order. */
  method VisitPages(term: string, query: string -> Page, cancelSeen: nat -> bool)
    returns (kind: Kind, partial: Option<string>, page: Page, hit: Option<TemplateHit>, ghost visited: seq<string>)
    ensures var v := Visited(term, query, Search(term, HasResults(query), cancelSeen));
      kind == v.kind && partial == v.partial && page == v.page && hit == v.hit
    ensures visited == Visited(term, query, Search(term, HasResults(query), cancelSeen)).queries
  {
    var first := query(term);
    visited := [term];
    var content := first.content;
    page := first;
    partial := None;
    hit := None;
    if content != "" && Contains(content, FullMatchPrefix) {
      var shown := FindEcho(content);
      if shown.Some? {
        if Normalize(term) == Normalize(Strip(shown.value)) {
          kind := EchoSame;
        } else {
          kind := EchoOther;
        }
      } else {
        kind := EchoUnparsed;
      }
    } else if content != "" && Contains(content, "Displaying") {
      kind := General;
    } else {
      ghost var probes, cancelled;
      partial, probes, cancelled := BinarySearchPartial(term, HasResults(query), cancelSeen);
      visited := visited + probes;
      if partial.Some? && partial.value != "" {
        page := query(partial.value);
        visited := visited + [partial.value];
        var foundInTemplate, templateText, templateId := FindTemplateRow(Words(Normalize(partial.value)), page.rows);
        if foundInTemplate {
          kind := TemplateMatch;
          hit := Some(TemplateHit(templateText, templateId));
        } else {
          kind := PartialOnly;
        }
      } else {
        kind := Unmatched;
      }
    }
  }

  /** Lines 169-236: the ID, the three flags of the row scan and the
      promotion, as the variables the chain of `if`s then reads: `found`
      is set by the scan or by the promotion, and `descriptionText` holds
      the promoted text. */
  method CheckRows(term: string, kind: Kind, partial: Option<string>, page: Page, hit: Option<TemplateHit>,
                   ghost visited: seq<string>)
    returns (deleted: bool, full: bool, found: bool, termId: string, descriptionText: string)
    ensures var a := Checked(term, Visit(kind, partial, page, hit, visited));
      && a.kind == kind && a.partial == partial && a.page == page && a.termId == termId
      && a.flags.deleted == deleted && a.flags.full == full
      && found == (a.flags.found || a.promoted.Some?)
      && descriptionText == (if a.promoted.Some? then a.promoted.value else "Not found")
  {
    descriptionText, termId := "Not found", "Not found";
    if hit.Some? {
      descriptionText, termId := hit.value.text, hit.value.id;
    }
    // Lines 177-178 reset both, whatever the template scan found.
    descriptionText, termId := "Not found", "Not found";
    deleted, full, found := false, false, false;
    if kind != TemplateMatch && kind != Unmatched {
      var recordLink := page.firstRecordLink;
      if recordLink.Some? {
        termId := Strip(recordLink.value);
      }
      deleted, full, found := ScanRows(Normalize(term), page.rows);
      if !found && kind == PartialOnly && partial.Some? && partial.value != "" {
        var promote, cellText, _ := FindTemplateRow(Words(Normalize(partial.value)), page.rows);
        if promote {
          found, descriptionText := true, cellText;
        }
      }
    }
  }

  /** Lines 239-264: the chain of `if`s on the variables of the row checks. */
  method ChooseStatus(kind: Kind, partial: Option<string>, page: Page, deleted: bool, full: bool, found: bool,
                      termId: string, descriptionText: string, ghost a: Analysis)
    returns (result: string)
    requires a.kind == kind && a.partial == partial && a.page == page && a.termId == termId
    requires a.flags.deleted == deleted && a.flags.full == full && found == (a.flags.found || a.promoted.Some?)
    requires descriptionText == (if a.promoted.Some? then a.promoted.value else "Not found")
    ensures result == Render(a)
  {
    var example := descriptionText;
    if kind == TemplateMatch {
      result := Statuses.Larger(example, termId);
    } else if deleted {
      result := Statuses.Deleted(termId);
    } else if full {
      result := Statuses.Full(termId);
    } else if found {
      if page.rows != [] && page.rows[0].description != "" {
        example := Strip(page.rows[0].description);
      }
      result := Statuses.Larger(example, termId);
    } else if kind == PartialOnly && partial.Some? && partial.value != "" {
      result := Statuses.Partial(partial.value, termId);
    } else if kind == Unmatched {
      result := Statuses.NoMatch;
    } else if page.firstRecordLink.Some? {
      if page.rows != [] && page.rows[0].description != "" {
        example := Strip(page.rows[0].description);
      }
      result := Statuses.Larger(example, termId);
    } else {
      result := Statuses.Fallback;
    }
  }

  /** Lines 184-264: the row checks on `page` and the choice of status. */
  method Conclude(term: string, kind: Kind, partial: Option<string>, page: Page, hit: Option<TemplateHit>,
                  ghost visited: seq<string>)
    returns (result: string)
    ensures result == Render(Checked(term, Visit(kind, partial, page, hit, visited)))
  {
    var deleted, full, found, termId, descriptionText := CheckRows(term, kind, partial, page, hit, visited);
    result := ChooseStatus(kind, partial, page, deleted, full, found, termId, descriptionText,
                           Checked(term, Visit(kind, partial, page, hit, visited)));
  }

  // ---------------------------------------------------------------------
  // The cache.

  /** The searcher with `search_cache`; `queries` records every text
      searched on the site, in order. */
  class Checker {
    var cache: map<string, string>
    ghost var queries: seq<string>

    constructor ()
      ensures cache == map[] && queries == []
    {
      cache := map[];
      queries := [];
    }

    /** `search_term`: "Cancelled" when the event is set on entry, the cached
        status for a raw term seen before, otherwise the classification,
        which is then cached under the raw term. */
    method SearchTerm(term: string, query: string -> Page, cancelAtEntry: bool, cancelSeen: nat -> bool)
      returns (result: string)
      modifies this
      ensures cancelAtEntry ==> result == Statuses.Cancelled && cache == old(cache) && queries == old(queries)
      ensures !cancelAtEntry && term in old(cache) ==>
        result == old(cache)[term] && cache == old(cache) && queries == old(queries)
      ensures !cancelAtEntry && term !in old(cache) ==>
        && result == Classify(term, query, cancelSeen)
        && cache == old(cache)[term := result]
        && queries == old(queries) + Analyze(term, query, Search(term, HasResults(query), cancelSeen)).queries
    {
      if cancelAtEntry {
        return Statuses.Cancelled;
      }
      if term in cache {
        return cache[term];
      }
      var kind, partial, page, hit, visited := VisitPages(term, query, cancelSeen);
      queries := queries + visited;
      result := Conclude(term, kind, partial, page, hit, visited);
      cache := cache[term := result];
    }
  }
}
