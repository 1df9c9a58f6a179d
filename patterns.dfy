/**
 * Hand-written matchers for five of the seven regular expressions the
 * checker applies: the displayed-term echo (USPTO_Checker_Final.py:109) and
 * the four field extractions of the final report
 * (USPTO_Checker_Final.py:523, 536, 544, 551). The other two are modelled
 * in other modules: `\s+` (line 27) by `Text.Collapse`, and the literal
 * `deleted` (lines 206 and 219) by `Text.Contains` in
 * `Classifier.DeletedNote`. Each matcher here follows Python `re.search`:
 * the leftmost start position at
 * which the pattern matches, `.` never matching a newline, `(.+?)` taking
 * the shortest non-empty run that lets the rest of the pattern match, and
 * `\s*` taking all whitespace.
 */
module Patterns {
  import opened Wrappers
  import opened Text
  import Statuses

  /** `re.search`: the match at the leftmost start position of `s` that
      matches, given the match `at` of the pattern anchored at the start. */
  function FirstMatch<R>(s: string, at: string -> Option<R>): (r: Option<R>)
    ensures at(s).Some? ==> r == at(s)
    decreases |s|
  {
    if at(s).Some? then at(s)
    else if s == [] then None
    else FirstMatch(s[1..], at)
  }

  /** `FirstMatch` returns the match at the leftmost start position that
      matches, and None exactly when no start position matches. */
  lemma {:induction false} FirstMatchLeftmost<R>(s: string, at: string -> Option<R>)
    ensures var r := FirstMatch(s, at);
      && (r.Some? ==> exists i :: 0 <= i <= |s| && at(s[i..]) == r && forall j :: 0 <= j < i ==> at(s[j..]).None?)
      && (r.None? ==> forall j :: 0 <= j <= |s| ==> at(s[j..]).None?)
    decreases |s|
  {
    if at(s).Some? {
      assert s[0..] == s;
    } else if s == [] {
      assert s[0..] == s;
    } else {
      FirstMatchLeftmost(s[1..], at);
      assert s[0..] == s;
      assert forall j :: 1 <= j <= |s| ==> s[1..][j - 1..] == s[j..];
      var r := FirstMatch(s, at);
      if r.Some? {
        var i :| 0 <= i <= |s[1..]| && at(s[1..][i..]) == r && forall j :: 0 <= j < i ==> at(s[1..][j..]).None?;
        assert at(s[i + 1..]) == r;
        assert forall j :: 0 <= j < i + 1 ==> at(s[j..]).None? by {
          forall j | 0 <= j < i + 1 ensures at(s[j..]).None? {
            if j > 0 {
              assert s[1..][j - 1..] == s[j..];
            }
          }
        }
      }
    }
  }

  /** Index of the first `close` in `s`, when no newline comes before it. */
  function UpTo(s: string, close: char): (r: Option<nat>)
    ensures r.Some? ==> r.value < |s| && s[r.value] == close
    ensures r.Some? ==> forall k :: 0 <= k < r.value ==> s[k] != close && s[k] != '\n'
    ensures r.Some? ==> close != '\n'
  {
    if s == [] || s[0] == '\n' then None
    else if s[0] == close then Some(0)
    else match UpTo(s[1..], close)
      case None => None
      case Some(j) => Some(j + 1)
  }

  /** `(.+?)` followed by the character `close`: the shortest non-empty run of
      non-newline characters at the start of `s` that `close` follows. */
  function LazyGroup(s: string, close: char): (r: Option<string>)
    ensures r.Some? ==> 1 <= |r.value| < |s| && r.value == s[..|r.value|] && s[|r.value|] == close
    ensures r.Some? ==> '\n' !in r.value && close !in r.value[1..]
  {
    if s == [] || s[0] == '\n' then None
    else match UpTo(s[1..], close)
      case None => None
      case Some(j) =>
        assert forall k :: 1 <= k <= j ==> s[k] == s[1..][k - 1];
        Some(s[..j + 1])
  }

  lemma {:induction false} UpToOf(m: string, close: char, rest: string)
    requires close != '\n' && close !in m && '\n' !in m
    ensures UpTo(m + [close] + rest, close) == Some(|m|)
  {
    if m != [] {
      assert (m + [close] + rest)[1..] == m[1..] + [close] + rest;
      UpToOf(m[1..], close, rest);
    }
  }

  /** The lazy group finds `g` again when `close` follows it, `g` is
      non-empty, has no newline and no `close` after its first character. */
  lemma LazyGroupOf(g: string, close: char, rest: string)
    requires g != [] && close != '\n' && '\n' !in g && close !in g[1..]
    ensures LazyGroup(g + [close] + rest, close) == Some(g)
  {
    var s := g + [close] + rest;
    assert s[1..] == g[1..] + [close] + rest;
    UpToOf(g[1..], close, rest);
    assert s[..|g|] == g;
  }

  // ---------------------------------------------------------------------
  // The displayed-term echo, USPTO_Checker_Final.py:109:
  //   Displaying search results for:\s*"(.+?)"

  const EchoLit: string := "Displaying search results for:"

  function EchoAt(s: string): Option<string> {
    if EchoLit <= s then
      var t := StripLeft(s[|EchoLit|..]);
      if t != [] && t[0] == '"' then LazyGroup(t[1..], '"') else None
    else None
  }

  /** Group 1 of the echo pattern in the page-results text, if it matches. */
  function FindEcho(content: string): Option<string> {
    FirstMatch(content, EchoAt)
  }

  /** The echo pattern anchored just after the literal. */
  lemma EchoAtAfter(u: string)
    ensures EchoAt(EchoLit + u) ==
      var t := StripLeft(u); if t != [] && t[0] == '"' then LazyGroup(t[1..], '"') else None
  {
    assert (EchoLit + u)[..|EchoLit|] == EchoLit;
    assert (EchoLit + u)[|EchoLit|..] == u;
  }

  /** A results text that starts with the echo literal, any whitespace and
      the term in quotes has that term parsed back, whatever follows. */
  lemma FindEchoOf(ws: string, t: string, rest: string)
    requires forall i :: 0 <= i < |ws| ==> IsSpace(ws[i])
    requires t != [] && '\n' !in t && '"' !in t[1..]
    ensures FindEcho(EchoLit + ws + "\"" + t + "\"" + rest) == Some(t)
  {
    var g := t + ['"'] + rest;
    var q := ['"'] + g;
    assert EchoLit + ws + "\"" + t + "\"" + rest == EchoLit + (ws + q);
    assert q[0] == '"' && !IsSpace(q[0]) && q[1..] == g;
    StripLeftSpaces(ws, q);
    LazyGroupOf(t, '"', rest);
    EchoAtAfter(ws + q);
  }

  // ---------------------------------------------------------------------
  // USPTO_Checker_Final.py:544 and 551:
  //   Deleted description found \(Term ID: (.+?)\)
  //   Full match found \(Term ID: (.+?)\)

  const DeletedLit: string := "Deleted description found (Term ID: "
  const FullLit: string := "Full match found (Term ID: "

  function DeletedAt(s: string): Option<string> {
    if DeletedLit <= s then LazyGroup(s[|DeletedLit|..], ')') else None
  }

  function FullAt(s: string): Option<string> {
    if FullLit <= s then LazyGroup(s[|FullLit|..], ')') else None
  }

  /** `m.group(1) if m else "Not found"` for the deleted-description pattern. */
  function DeletedId(status: string): string {
    match FirstMatch(status, DeletedAt)
    case Some(id) => id
    case None => "Not found"
  }

  /** `m.group(1) if m else "Not found"` for the full-match pattern. */
  function FullId(status: string): string {
    match FirstMatch(status, FullAt)
    case Some(id) => id
    case None => "Not found"
  }

  /** A Term ID is what the builder was given: a non-empty ID without a
      newline and without `)` after its first character. */
  predicate PlainId(id: string) {
    id != [] && '\n' !in id && ')' !in id[1..]
  }

  lemma DeletedIdOf(id: string)
    requires PlainId(id)
    ensures DeletedId(Statuses.Deleted(id)) == id
  {
    var s := Statuses.Deleted(id);
    assert s == DeletedLit + (id + [')'] + []);
    assert DeletedLit <= s && s[|DeletedLit|..] == id + [')'] + [];
    LazyGroupOf(id, ')', []);
  }

  lemma FullIdOf(id: string)
    requires PlainId(id)
    ensures FullId(Statuses.Full(id)) == id
  {
    var s := Statuses.Full(id);
    assert s == FullLit + (id + [')'] + []);
    assert FullLit <= s && s[|FullLit|..] == id + [')'] + [];
    LazyGroupOf(id, ')', []);
  }

  // ---------------------------------------------------------------------
  // USPTO_Checker_Final.py:523:
  //   partial match found:\s*'(.+?)'\s*(\(Term ID: (.+?)\))?

  const PartialLit: string := "partial match found:"
  const IdLit: string := "(Term ID: "

  /** The optional group 2; its group 3 when it matches. */
  function OptionalId(s: string): Option<string> {
    var t := StripLeft(s);
    if IdLit <= t then LazyGroup(t[|IdLit|..], ')') else None
  }

  function PartialAt(s: string): Option<(string, Option<string>)> {
    if PartialLit <= s then
      var t := StripLeft(s[|PartialLit|..]);
      if t != [] && t[0] == '\'' then
        match LazyGroup(t[1..], '\'')
        case None => None
        case Some(g) => Some((g, OptionalId(t[1..][|g| + 1..])))
      else None
    else None
  }

  /** `partial_text` and `term_id_partial`: group 1 or "", and group 3 or
      "Not found". */
  function PartialFields(status: string): (string, string) {
    match FirstMatch(status, PartialAt)
    case None => ("", "Not found")
    case Some(m) => (m.0, if m.1.Some? then m.1.value else "Not found")
  }

  /** A prefix without `'` after its first character. */
  predicate PlainPrefix(p: string) {
    p != [] && '\n' !in p && '\'' !in p[1..]
  }

  /** No start position inside a text without `p` can match. */
  lemma {:induction false} PartialSkips(u: string, t: string)
    requires 'p' !in u
    ensures FirstMatch(u + t, PartialAt) == FirstMatch(t, PartialAt)
  {
    if u == [] {
      assert u + t == t;
    } else {
      assert (u + t)[0] == u[0] != 'p';
      assert !(PartialLit <= u + t);
      assert (u + t)[1..] == u[1..] + t;
      assert 'p' !in u[1..];
      PartialSkips(u[1..], t);
    }
  }

  lemma StripOneSpace(x: string)
    requires x != [] && !IsSpace(x[0])
    ensures StripLeft([' '] + x) == x
  {
    assert ([' '] + x)[1..] == x;
  }

  lemma OptionalIdOf(id: string)
    requires PlainId(id)
    ensures OptionalId(" (Term ID: " + id + ")") == Some(id)
  {
    var tail := " (Term ID: " + id + ")";
    var x := IdLit + (id + [')'] + []);
    assert tail == [' '] + x;
    StripOneSpace(x);
    assert IdLit <= x && x[|IdLit|..] == id + [')'] + [];
    LazyGroupOf(id, ')', []);
  }

  lemma PartialAtWith(p: string, tail: string)
    requires PlainPrefix(p)
    ensures PartialAt(PartialLit + ([' '] + (['\''] + p + ['\''] + tail))) == Some((p, OptionalId(tail)))
  {
    var t := ['\''] + p + ['\''] + tail;
    var s := PartialLit + ([' '] + t);
    assert PartialLit <= s && s[|PartialLit|..] == [' '] + t;
    StripOneSpace(t);
    assert t[1..] == p + ['\''] + tail;
    LazyGroupOf(p, '\'', tail);
    assert t[1..][|p| + 1..] == tail;
  }

  lemma PartialAtOf(p: string, id: string)
    requires PlainPrefix(p) && PlainId(id)
    ensures PartialAt(PartialLit + " '" + p + "' (Term ID: " + id + ")") == Some((p, Some(id)))
  {
    var tail := " (Term ID: " + id + ")";
    assert PartialLit + " '" + p + "' (Term ID: " + id + ")" == PartialLit + ([' '] + (['\''] + p + ['\''] + tail));
    PartialAtWith(p, tail);
    OptionalIdOf(id);
  }

  /** The partial text and ID come back out of a partial-match status. */
  lemma PartialFieldsOf(p: string, id: string)
    requires PlainPrefix(p) && PlainId(id)
    ensures PartialFields(Statuses.Partial(p, id)) == (p, id)
  {
    var head := "Full match not found, but ";
    var rest := PartialLit + " '" + p + "' (Term ID: " + id + ")";
    assert Statuses.Partial(p, id) == head + rest;
    PartialSkips(head, rest);
    PartialAtOf(p, id);
  }

  // ---------------------------------------------------------------------
  // USPTO_Checker_Final.py:536:
  //   Apart of a larger description \(Example - (.+?) - Term ID: (.+?)\)

  const LargerLit: string := "Apart of a larger description (Example - "
  const Sep: string := " - Term ID: "

  /** Group 1 tried at length `n` and longer, as the lazy quantifier does:
      the first length after which ` - Term ID: ` and group 2 match. */
  function LargerFrom(s: string, n: nat): Option<(string, string)>
    requires 1 <= n <= |s|
    decreases |s| - n
  {
    if s[n - 1] == '\n' then None
    else if OccursAt(s, Sep, n) && LazyGroup(s[n + |Sep|..], ')').Some? then
      Some((s[..n], LazyGroup(s[n + |Sep|..], ')').value))
    else if n < |s| then LargerFrom(s, n + 1)
    else None
  }

  function LargerAt(s: string): Option<(string, string)> {
    if LargerLit <= s && |s| > |LargerLit| then LargerFrom(s[|LargerLit|..], 1) else None
  }

  /** `description_text` and `term_id_larger`: the two groups, or
      "Description not found" and "Not found". */
  function LargerFields(status: string): (string, string) {
    match FirstMatch(status, LargerAt)
    case None => ("Description not found", "Not found")
    case Some(fields) => fields
  }

  /** The separator, whose second character is a hyphen, cannot start at
      `n` when the character after `n` is not a hyphen. */
  lemma NoSepAt(s: string, n: nat)
    requires n + 1 < |s| && s[n + 1] != '-'
    ensures !OccursAt(s, Sep, n)
  {
    if n + |Sep| <= |s| {
      assert s[n..n + |Sep|][1] == s[n + 1];
    }
  }

  lemma {:induction false} LargerFromOf(d: string, id: string, n: nat)
    requires d != [] && '\n' !in d && '-' !in d && PlainId(id)
    requires 1 <= n <= |d|
    ensures LargerFrom(d + Sep + id + ")", n) == Some((d, id))
    decreases |d| - n
  {
    var s := d + Sep + id + ")";
    assert s[n - 1] == d[n - 1];
    if n < |d| {
      assert s[n + 1] == if n + 1 < |d| then d[n + 1] else ' ';
      NoSepAt(s, n);
      LargerFromOf(d, id, n + 1);
    } else {
      assert OccursAt(s, Sep, n);
      assert s[n + |Sep|..] == id + [')'] + [];
      LazyGroupOf(id, ')', []);
      assert s[..n] == d;
    }
  }

  /** The example text and ID come back out of a larger-description status
      when the example is non-empty and has neither newline nor hyphen. */
  lemma LargerFieldsOf(d: string, id: string)
    requires d != [] && '\n' !in d && '-' !in d && PlainId(id)
    ensures LargerFields(Statuses.Larger(d, id)) == (d, id)
  {
    var s := Statuses.Larger(d, id);
    assert s == LargerLit + (d + Sep + id + ")");
    assert LargerLit <= s && s[|LargerLit|..] == d + Sep + id + ")";
    LargerFromOf(d, id, 1);
  }

  /** The reset template status reports "Not found" for both fields. */
  lemma TemplateFields()
    ensures LargerFields(Statuses.Template) == ("Not found", "Not found")
  {
    LargerFieldsOf("Not found", "Not found");
  }
}
