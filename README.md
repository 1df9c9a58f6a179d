# USPTO ID Manual checker — a verified model of its classification core

The checker takes a `;`-separated list of goods and services descriptions.
For each term, it searches the USPTO ID Manual and reports one status:

- a full match;
- a deleted description;
- part of a larger description, with an example;
- a partial match on a word prefix of the term;
- no match.

When the run ends, it sorts the statuses into five lists. This project models
the decision logic behind those statuses and proves properties of it. The
browser, the event loop and the window are outside the model.

Modules, in dependency order:

- `Wrappers`: the `Option` type.
- `Text`: an ASCII model of `normalize_text`, `str.strip()`, `str.split()`,
  `" ".join`, `str.split(';')` and `sub in s`.
- `Subsequence`: `is_subsequence` as its body computes it. Its doc comment
  promises a different relation, also modelled here, and the two are proved to
  differ.
- `PrefixSearch`: `binary_search_partial`. It searches for the longest word
  prefix of a term whose search page shows results.
  - The page is an oracle `hasResults(prefix)`.
  - The shared cancel event is a schedule `cancelSeen(i)`: the value the
    event has at the loop's `i`-th check.
- `Statuses`: the status strings `search_term` builds.
- `Patterns`: hand-written matchers for five of the seven regular
  expressions:
  - the displayed-term echo (line 109);
  - the four field extractions of the final report (lines 523, 536, 544
    and 551).

  The other two are modelled in `Text`: `\s+` (line 27) by `Text.Collapse`,
  and the literal `deleted` (lines 206 and 219) by `Text.Contains`, which
  `Classifier.DeletedNote` applies.
- `Classifier`: `search_term` over a deterministic `query(text)`. That
  function gives what the checker reads from the page the site shows for
  `text`:
  - the page-results text;
  - the description rows, each with its notes cell when it has one;
  - the first record link.

  The process-wide `search_cache` is a map field of the class
  `Classifier.Checker`, keyed by the raw term. The method `SearchTerm` runs
  two stages:
  - `VisitPages`: the term's page, the echo parse, the prefix search and the
    template scan.
  - `Conclude`: the row scan and the choice of status.

  Each stage is a method proved against a function. `Classify` is the
  status the two stages compute together.
- `Report`: `results_dict` as the class `Report.Results`.
  - It keeps the stored statuses and the order in which their terms were
    first inserted.
  - `update_output` and the bucketing loop of `display_final_results` are its
    methods.
  - The prefix, example and term ID shown for each entry are recovered by the
    `Patterns` matchers.
- `Batch`: the split of the description into terms, and the consumer loop
  over the tasks' outcomes:
  - the outcomes are taken in completion order, as a given sequence;
  - the loop emits a sequence of events;
  - the final "Search time" event comes after all of them.

Some facts the model makes exact:

- In `is_subsequence`, the argument `small` is never read. The function holds
  exactly when the word list splits into blocks `w … w`.
- The word echoed on the results page never changes the status.
- The second subsequence scan after the row checks (lines 228-236) can never
  succeed. It runs on the same page, with the same test, as the template scan,
  which has already failed whenever it is reached.
- A cancel seen during the prefix search gives "No match found". That status
  is cached like any other.
- A term typed as `Search time` shows the final report early and is never
  stored. `update_output` takes it for the worker's final event
  (`Report.SearchTime`). The search goes on, later results are stored as
  usual, and the worker's real final event shows the report again.

## Model

| member | source | states |
|---|---|---|
| Text.Normalize | USPTO_Checker_Final.py:24-29 | `normalize_text`: remove hyphens and commas, collapse whitespace runs, strip, lower-case, in that order; its meaning is stated by `NormalizeAsWords`, `NormalizeIsNormal`, `NormalizeFixesNormal` and `NormalizeIdempotent` |
| Text.Strip | USPTO_Checker_Final.py:28 | `str.strip()`: `StripIsSlice` states that it keeps the middle slice of its input and cuts only whitespace at both ends |
| Text.RemovePunct | USPTO_Checker_Final.py:26 | no `-` or `,` is left, and every character kept comes from the input |
| Text.RemovePunctAppend | USPTO_Checker_Final.py:26 | removing from a concatenation removes from each part and keeps them in order |
| Text.RemovePunctChar | USPTO_Checker_Final.py:26 | a hyphen or a comma is removed, and every other single character is kept |
| Text.Collapse | USPTO_Checker_Final.py:27 | every whitespace character left is a plain space, no two spaces are adjacent, non-space characters come from the input, and the result is empty only for an empty input |
| Text.StripIsSlice | USPTO_Checker_Final.py:28 | the stripped string has no leading or trailing whitespace, is a contiguous slice of its input, and every character cut off before or after that slice is whitespace |
| Text.StripCollapse | USPTO_Checker_Final.py:27-28 | collapsing whitespace runs and stripping gives the words of the input joined by single spaces, so every non-space character is kept in order |
| Text.NormalizeAsWords | USPTO_Checker_Final.py:24-29 | `normalize_text` is the lower-cased join, with single spaces, of the words of the text with hyphens and commas removed |
| Text.NormalizeIsNormal | USPTO_Checker_Final.py:24-29 | a normalized string has no hyphen, comma or upper-case ASCII letter, no whitespace other than single inner spaces, and no leading or trailing whitespace |
| Text.NormalizeFixesNormal | USPTO_Checker_Final.py:24-29 | a string of that shape is left unchanged by normalization |
| Text.NormalizeIdempotent | USPTO_Checker_Final.py:24-29 | normalizing twice equals normalizing once |
| Text.Words | USPTO_Checker_Final.py:58 | `str.split()` with no separator: every word is non-empty and has no whitespace; `WordsOfJoin` and `StripCollapse` tie it to `" ".join` and to the collapse |
| Text.WordsOfJoin | USPTO_Checker_Final.py:58-65 | splitting the space-join of a list of words gives the same words back |
| Text.ContainsAt | USPTO_Checker_Final.py:213 | `sub in s` holds exactly when `sub` occurs at some index of `s` |
| Text.Contains | USPTO_Checker_Final.py:206 | `sub in s` and `re.search` of a literal: `ContainsAt` states that it holds exactly when `sub` occurs at some index |
| Text.SplitOn | USPTO_Checker_Final.py:319 | `split(';')`: at least one piece, and no piece contains the separator; `JoinOfSplit` states that joining the pieces with `;` gives the input back |
| Text.JoinOfSplit | USPTO_Checker_Final.py:319 | joining the pieces of `split(';')` with `;` gives the input back |
| Subsequence.IsSubsequenceAsWritten | USPTO_Checker_Final.py:21-22 | the body of `is_subsequence` as written; `AsWrittenMeansBlocks`, `AsWrittenIgnoresSmall` and `AsWrittenBreaksPromise` state what it computes |
| Subsequence.IsSubseq | USPTO_Checker_Final.py:20 | the relation the doc comment promises; `IsSubseqMeansEmbedding` states that it is an order-preserving placement of `small` into `big` |
| Subsequence.AfterFirst | USPTO_Checker_Final.py:22 | `x in it` is false exactly when `x` is absent, and otherwise leaves fewer elements than before |
| Subsequence.AfterFirstSplits | USPTO_Checker_Final.py:22 | `x in it` consumes the iterator up to and including the first `x` and leaves the elements after it |
| Subsequence.IsSubseqMeansEmbedding | USPTO_Checker_Final.py:20 | the relation the doc comment promises holds exactly when an order-preserving placement of `small` into `big` exists |
| Subsequence.AsWrittenBreaksPromise | USPTO_Checker_Final.py:19-22 | the body accepts every `small` against an empty `big`, and rejects `[x]` against `[x]`, contrary to the doc comment |
| Subsequence.AsWrittenIgnoresSmall | USPTO_Checker_Final.py:21-22 | the result does not depend on `small` |
| Subsequence.AsWrittenMeansBlocks | USPTO_Checker_Final.py:21-22 | the body holds exactly when `big` splits into consecutive blocks `w … w` with no `w` inside |
| PrefixSearch.Loop | USPTO_Checker_Final.py:59-81 | the `while lo <= hi` loop from a given state: a set cancel check stops with None, otherwise the midpoint prefix is queried and the range halved; `LoopFindsPrefix`, `LoopCancellation`, `LoopUncancelled`, `LoopBound` and `LoopThreshold` state its properties |
| PrefixSearch.Search | USPTO_Checker_Final.py:57-81 | `binary_search_partial` from `lo, hi, best = 1, len(words), None`; its meaning is stated by `SearchFindsPrefix`, `SearchCancellation`, `SearchBound` and `SearchThreshold` |
| PrefixSearch.BinarySearchPartial | USPTO_Checker_Final.py:57-81 | the loop returns the prefix, the probes and the reason for stopping that the search function defines |
| PrefixSearch.SearchFindsPrefix | USPTO_Checker_Final.py:58-81 | any prefix returned is the join of the first `k` words for some `1 <= k <= n` for which the oracle answered yes, and is non-empty; a term without words gives None with no query |
| PrefixSearch.SearchCancellation | USPTO_Checker_Final.py:61-63 | every query follows a check that found the event clear; a check that finds it set ends the search with None; a search no check stopped is the search with the event never set |
| PrefixSearch.SearchBound | USPTO_Checker_Final.py:60-79 | a term of `n` words costs at most floor(log2 n) + 1 queries |
| PrefixSearch.SearchThreshold | USPTO_Checker_Final.py:58-81 | when the oracle answers yes exactly for prefixes of at most `K` words and no check sees the event, the search returns the `K`-word prefix (None when `K` is 0) |
| Patterns.FirstMatchLeftmost | USPTO_Checker_Final.py:109 | `re.search` takes the match at the leftmost start position that matches, and finds nothing exactly when no start position matches |
| Patterns.LazyGroup | USPTO_Checker_Final.py:109 | `(.+?)` followed by the closing character takes a non-empty run without newline and without the closing character after its first character, and the closing character follows it |
| Patterns.LazyGroupOf | USPTO_Checker_Final.py:544 | a run of that kind followed by the closing character is found again by the lazy group |
| Patterns.FindEcho | USPTO_Checker_Final.py:109-111 | the echo pattern of line 109, group 1; `FindEchoOf` states that a quoted echoed term is recovered |
| Text.StripLeftSpaces | USPTO_Checker_Final.py:109 | the `\s*` of the echo pattern: any run of whitespace before a non-space character is skipped entirely |
| Patterns.FindEchoOf | USPTO_Checker_Final.py:109-111 | a results text that starts with the echo literal, any whitespace and a quoted term (non-empty, no newline, no inner quote) gives that term back as group 1, whatever follows |
| Patterns.DeletedId | USPTO_Checker_Final.py:544-545 | the deleted-status ID pattern, or "Not found" when it does not match; `DeletedIdOf` states the round trip |
| Patterns.FullId | USPTO_Checker_Final.py:551-552 | the full-match ID pattern, or "Not found"; `FullIdOf` states the round trip |
| Patterns.PartialFields | USPTO_Checker_Final.py:523-525 | the partial-status pattern with its optional ID group, and the defaults; `PartialFieldsOf` states the round trip |
| Patterns.LargerFields | USPTO_Checker_Final.py:536-538 | the larger-description pattern, with "Description not found" and "Not found" as defaults; `LargerFieldsOf` and `TemplateFields` state what it recovers |
| Patterns.DeletedIdOf | USPTO_Checker_Final.py:544-545 | the term ID of a "Deleted description found" status is recovered when it is non-empty, has no newline and has no `)` after its first character |
| Patterns.FullIdOf | USPTO_Checker_Final.py:551-552 | the same for the term ID of a "Full match found" status |
| Patterns.PartialFieldsOf | USPTO_Checker_Final.py:523-525 | the prefix and term ID of a partial-match status are recovered when the prefix has no `'` after its first character and the ID is plain |
| Patterns.LargerFieldsOf | USPTO_Checker_Final.py:536-538 | the example and term ID of an "Apart of a larger description" status are recovered when the example has no newline and no hyphen and the ID is plain |
| Patterns.TemplateFields | USPTO_Checker_Final.py:536-538 | the template status gives "Not found" as example and as ID |
| Classifier.Visited | USPTO_Checker_Final.py:89-182 | the term's page, the kind of result (lines 108-119), and on no results the prefix search, the prefix's page and its template scan, whose row text and ID (lines 166-170) are kept exactly for a template match; `PartialPage`, `NoPrefixNoMatch`, `EchoIrrelevant` and `TemplateStatus` state its cases |
| Classifier.RowChecks | USPTO_Checker_Final.py:184-236 | the record-link ID, the row-scan flags and the promotion scan on the page; `ScanStops`, `ScanFound` and `PromotionNeverFires` state their meaning |
| Classifier.Checked | USPTO_Checker_Final.py:177-236 | the example text and the ID are reset to "Not found", dropping a template row's, and the row checks run unless the kind is a template match or no match |
| Classifier.Render | USPTO_Checker_Final.py:239-264 | the final `if`/`elif` chain; `DeletedWins`, `FullMatchStatus`, `ContainedStatus`, `PartialStatus`, `NoRowStatus` and `TemplateStatus` state its outcomes |
| Classifier.Classify | USPTO_Checker_Final.py:89-264 | the status of a term neither cancelled on entry nor cached; `CancelledSearchNoMatch` and the status lemmas state its values |
| Classifier.FirstTemplateMeaning | USPTO_Checker_Final.py:149-165 | the template scan finds a row exactly when some row passes `is_subsequence`, and reports the stripped text and the record ID of the first such row |
| Classifier.FirstTemplateAt | USPTO_Checker_Final.py:149-165 | the first row that passes the as-written `is_subsequence` test gives the template text and ID: the row's stripped `a.view-record` text, or "Not found" when the row has no link |
| Classifier.FirstTemplateNone | USPTO_Checker_Final.py:149-165 | when no row passes, the template scan finds nothing |
| Classifier.FindTemplateRow | USPTO_Checker_Final.py:149-165 | the `for cell` loop reports a hit exactly when the scan function finds a row, with that row's text and record ID |
| Classifier.Scan | USPTO_Checker_Final.py:194-225 | a full match or a deleted description implies the term was found in a description |
| Classifier.ScanStops | USPTO_Checker_Final.py:194-225 | the row scan stops at the first row equal to the term, or containing it with a deleted note; a full match means that row is equal to the term, and a deleted description means that row has the note |
| Classifier.ScanFound | USPTO_Checker_Final.py:194-225 | the term is found in a description exactly when some row's normalized text contains it |
| Classifier.ScanRows | USPTO_Checker_Final.py:194-225 | the loop with its three flags computes the scan function |
| Classifier.VisitPages | USPTO_Checker_Final.py:100-175 | the term's page, its kind, the prefix found, the page examined and the template row's text and ID, with the texts searched in order, are those the visit function defines |
| Classifier.CheckRows | USPTO_Checker_Final.py:169-236 | the ID, the deleted and full flags, `found` (set by the scan or by the promotion) and the promoted text are those of the analysis the row-check function defines |
| Classifier.ChooseStatus | USPTO_Checker_Final.py:239-264 | given those variables, the `if`/`elif` chain returns the status the render function defines |
| Classifier.Conclude | USPTO_Checker_Final.py:184-264 | the row checks and the `if`/`elif` chain give the status the render function defines |
| Classifier.PromotionNeverFires | USPTO_Checker_Final.py:228-236 | the second subsequence scan never changes any result |
| Classifier.EchoIrrelevant | USPTO_Checker_Final.py:108-119 | when the page shows results, the status equals that of the row checks on the same page, whatever the echo parse gives |
| Classifier.TemplateStatus | USPTO_Checker_Final.py:149-178 | a template match has found the first template row of the prefix's page with its text and ID, yet reports exactly `Apart of a larger description (Example - Not found - Term ID: Not found)`, because lines 177-178 reset both values |
| Classifier.NoPrefixNoMatch | USPTO_Checker_Final.py:173-174 | when the term's page shows no results and no prefix is found, the status is exactly "No match found" |
| Classifier.CancelledSearchNoMatch | USPTO_Checker_Final.py:62-63 | a cancel seen during the prefix search gives "No match found" |
| Classifier.PartialPage | USPTO_Checker_Final.py:120-131 | after the prefix search finds a prefix, the page examined is the prefix's page, and the queries are the term, the probes and the prefix, in order |
| Classifier.DeletedWins | USPTO_Checker_Final.py:241-242 | a first stopping row with a deleted note gives "Deleted description found" with the first record link's ID |
| Classifier.FullMatchStatus | USPTO_Checker_Final.py:243-244 | a first stopping row equal to the term without a deleted note gives "Full match found", even after containing rows |
| Classifier.ContainedStatus | USPTO_Checker_Final.py:245-251 | when no row stops the scan but some row contains the term, the example is the page's first description, not the matching row |
| Classifier.PartialStatus | USPTO_Checker_Final.py:252-253 | a partial match with no row containing the term reports the prefix |
| Classifier.NoRowStatus | USPTO_Checker_Final.py:255-264 | with no containing row and no prefix, the status names the first description and the stripped record link, or is the fallback when there is no record link |
| Classifier.QueryBound | USPTO_Checker_Final.py:89-131 | a term of `n` words costs at most floor(log2 n) + 3 searches on the site, and the first is the term itself |
| Classifier.Checker.constructor | USPTO_Checker_Final.py:17 | the cache starts empty |
| Classifier.Checker.SearchTerm | USPTO_Checker_Final.py:84-267 | a term cancelled on entry gives "Cancelled" with cache and queries unchanged; a cached raw term gives its cached status with no query; otherwise the status is the classification, cached under the raw term, after the visit's queries |
| Statuses.Deleted | USPTO_Checker_Final.py:242 | the deleted-description status string for an ID; `Patterns.DeletedIdOf` recovers the ID |
| Statuses.Full | USPTO_Checker_Final.py:244 | the full-match status string for an ID; `Patterns.FullIdOf` recovers the ID |
| Statuses.Partial | USPTO_Checker_Final.py:253 | the partial-match status string for a prefix and an ID; `Patterns.PartialFieldsOf` recovers both |
| Statuses.Larger | USPTO_Checker_Final.py:240 | the larger-description status string, also built at lines 251, 262 and 264; `Patterns.LargerFieldsOf` recovers both fields |
| Report.BucketOf | USPTO_Checker_Final.py:486-496 | the `if`/`elif` chain on one status that picks its list, or none; `BucketOfStatuses` states where each status kind goes |
| Report.Bucketed | USPTO_Checker_Final.py:486-496 | the five lists built over the stored entries in insertion order; `BucketedMembers`, `BucketsDisjoint` and `BucketedInOrder` state what they hold |
| Report.Results.constructor | USPTO_Checker_Final.py:420 | the results start empty |
| Report.Results.UpdateOutput | USPTO_Checker_Final.py:434-444 | the "Search time" event stores nothing and yields the buckets; any other pair is stored under its term, and a term already present keeps its place |
| Report.Results.DisplayFinalResults | USPTO_Checker_Final.py:486-496 | the loop builds the five lists the bucketing function defines |
| Report.BucketOfStatuses | USPTO_Checker_Final.py:486-496 | each status kind built at lines 240-264 lands in its own list, and "Cancelled" in none |
| Report.RenderedHasBucket | USPTO_Checker_Final.py:239-264 | every status the classifier renders lands in some list |
| Report.BucketedMembers | USPTO_Checker_Final.py:486-496 | an entry is in a list exactly when its term was stored with that status and the status belongs to that list |
| Report.BucketsDisjoint | USPTO_Checker_Final.py:486-496 | no entry is in two lists |
| Report.BucketedSubseq | USPTO_Checker_Final.py:486-496 | within each list, terms follow the insertion order |
| Report.BucketedDistinct | USPTO_Checker_Final.py:486-496 | within each list, a term stored once appears once |
| Report.BucketedInOrder | USPTO_Checker_Final.py:444 | within each list, terms follow their first-insertion order, each once |
| Report.LineOfStatuses | USPTO_Checker_Final.py:520-553 | the fields shown for the statuses of lines 240-264 are the prefix, example and ID they were built from, under the matchers' conditions |
| Batch.KeepTerms | USPTO_Checker_Final.py:319 | `[term.strip() for term in parts if term.strip()]`; `KeepTermsShape` and `KeepTermsCount` state which pieces it keeps and how many |
| Batch.SplitTerms | USPTO_Checker_Final.py:319 | the terms of the description; `SplitTermsShape` states what they are |
| Batch.KeepTermsCount | USPTO_Checker_Final.py:319 | there is one term for each piece that is non-empty once stripped |
| Batch.SplitTermsShape | USPTO_Checker_Final.py:319 | the terms are non-empty, stripped and free of `;`; they are the non-empty stripped pieces, in input order, one term per such piece, so repeated terms are kept |
| Batch.Completed | USPTO_Checker_Final.py:298-311 | `completed_count`: the task ends that are not a raised exception; `CompletedAll` states when it reaches the number of tasks |
| Batch.Events | USPTO_Checker_Final.py:298-312 | the signals the consumer loop emits, per task end in completion order; `ProgressValues`, `ProgressBounds`, `ProgressMonotone` and `ProgressReachesHundred` state their properties |
| Batch.RunSearches | USPTO_Checker_Final.py:298-312 | the loop emits the events the event function defines, and `completed_count` counts the outcomes that did not fail |
| Batch.Run | USPTO_Checker_Final.py:318-334 | the per-term events are followed by the single "Search time" event; a failed launch emits only its error |
| Batch.ProgressBounds | USPTO_Checker_Final.py:312 | reported progress stays within 0..100 |
| Batch.ProgressMonotone | USPTO_Checker_Final.py:312 | reported progress never decreases |
| Batch.CompletedAll | USPTO_Checker_Final.py:307-311 | every outcome counts exactly when none failed |
| Batch.ProgressReachesHundred | USPTO_Checker_Final.py:298-312 | with one outcome per task, progress reaches 100 exactly when no task failed |

## Left out

- The Playwright page work is not modelled: navigation, filling and pressing,
  waiting, and DOM queries. The deterministic `query` and its page snapshot
  replace it. The waits run with `timeout=0`, which turns Playwright's
  timeout off, so the `asyncio.TimeoutError` branches (lines 72-73, 98-99
  and 134-135) never run and are not modelled. `wait_for_results_update`
  (lines 50-54) blocks until the page-results text is non-empty, so an
  empty `content` is a state the program never reaches: a page whose
  results text stays empty hangs the task forever, and that hang is not
  modelled. The model treats an empty text as a page that does not show
  "Displaying".
- Exceptions from page calls inside `search_term` are not modelled in
  `Classifier`. In `Batch` they appear as `Raised` task ends.
- asyncio scheduling is left out:
  - task creation;
  - the semaphore of `CONCURRENT_LIMIT`;
  - the real completion order, which `Batch` takes as a given sequence;
  - the check-then-compute race on `search_cache` between concurrent tasks.
- `SearchWorker.cancel` is left out. Its loop over `_tasks` does nothing,
  because the list is never filled, and the event is shared across threads.
  The cancel event is modelled as the value seen at each check.
- Qt is left out: signals, widgets, key handling, the stylesheet, the colours,
  the HTML built by `update_output` and `display_final_results`, and
  `capitalize()`.
- Wall-clock time and the `:.2f` formatting are inputs. `Batch.Run` receives
  the formatted time.
- `Batch.Run` models only a failure to start the browser session. A failure
  when the context or browser is closed at the end is not modelled.
- Unicode is not modelled. Whitespace, lower-casing and `\s` are ASCII.
- `re` is not modelled as a general engine. Each of the seven patterns has
  its own hand-written matcher:
  - `\s+` (line 27): `Text.Collapse`;
  - `deleted` (lines 206 and 219): `Text.Contains`;
  - the echo (line 109): `Patterns.FindEcho`;
  - the four report patterns (lines 523, 536, 544 and 551):
    `Patterns.PartialFields`, `Patterns.LargerFields`, `Patterns.DeletedId`
    and `Patterns.FullId`.
- Batch.RunSearches, Batch.Events: progress is the integer `c * 100 / n`, not Python's float
  expression `int((c / n) * 100)`, which can be one lower (28 for 29 of
  100). Only the bounds, monotonicity and the 100 endpoint are claimed.
- Patterns.LargerFieldsOf: the round trip is proved only for examples without
  a hyphen. That is a sufficient condition for the lazy group to stop at the
  ` - Term ID: ` separator; the exact condition is weaker.
