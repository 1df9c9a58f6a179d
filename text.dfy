/**
 * ASCII model of the string helpers the checker relies on: `normalize_text`,
 * `str.strip()`, `str.split()` with no separator, `" ".join`,
 * `str.split(';')` and substring search (`sub in s`).
 */
module Text {

  /** Whitespace as Python's `\s` and `str.strip()` see it, restricted to
      ASCII: space, tab, line feed, vertical tab, form feed, carriage return
      and the separators 0x1C-0x1F. */
  predicate IsSpace(c: char) {
    c == ' ' || (9 <= c as int <= 13) || (28 <= c as int <= 31)
  }

  predicate IsUpper(c: char) {
    'A' <= c <= 'Z'
  }

  /** `str.lower()` on one ASCII character; other characters are kept. */
  function LowerChar(c: char): (r: char)
    ensures !IsUpper(r)
    ensures IsSpace(r) <==> IsSpace(c)
    ensures r == ' ' <==> c == ' '
    ensures r in "-," ==> r == c
  {
    if IsUpper(c) then (c as int + 32) as char else c
  }

  /** `text.replace('-', '').replace(',', '')`. */
  function RemovePunct(s: string): (r: string)
    ensures forall i :: 0 <= i < |r| ==> r[i] != '-' && r[i] != ','
    ensures forall i :: 0 <= i < |r| ==> r[i] in s
  {
    if s == [] then []
    else if s[0] == '-' || s[0] == ',' then RemovePunct(s[1..])
    else [s[0]] + RemovePunct(s[1..])
  }

  /** `replace` works piece by piece: removing from a concatenation removes
      from each part. */
  lemma {:induction false} RemovePunctAppend(a: string, b: string)
    ensures RemovePunct(a + b) == RemovePunct(a) + RemovePunct(b)
  {
    if a != [] {
      assert (a + b)[0] == a[0] && (a + b)[1..] == a[1..] + b;
      RemovePunctAppend(a[1..], b);
    } else {
      assert a + b == b;
    }
  }

  /** On one character: a hyphen or a comma goes, anything else stays. */
  lemma RemovePunctChar(c: char)
    ensures RemovePunct([c]) == if c == '-' || c == ',' then [] else [c]
  {
    assert [c][1..] == [];
  }

  /** `str.lstrip()`. */
  function StripLeft(s: string): (r: string)
    ensures |r| <= |s|
    ensures r == [] || !IsSpace(r[0])
  {
    if s != [] && IsSpace(s[0]) then StripLeft(s[1..]) else s
  }

  /** `str.lstrip()` drops a leading part of its input. */
  lemma {:induction false} StripLeftSuffix(s: string)
    ensures StripLeft(s) == s[|s| - |StripLeft(s)|..]
  {
    if s != [] && IsSpace(s[0]) {
      StripLeftSuffix(s[1..]);
    }
  }

  /** Leading whitespace before a non-space character is all dropped. */
  lemma {:induction false} StripLeftSpaces(ws: string, q: string)
    requires forall i :: 0 <= i < |ws| ==> IsSpace(ws[i])
    requires q != [] && !IsSpace(q[0])
    ensures StripLeft(ws + q) == q
  {
    if ws == [] {
      assert ws + q == q;
    } else {
      assert (ws + q)[1..] == ws[1..] + q;
      StripLeftSpaces(ws[1..], q);
    }
  }

  /** `str.rstrip()`. */
  function StripRight(s: string): (r: string)
    ensures |r| <= |s|
    ensures r == [] || !IsSpace(r[|r| - 1])
  {
    if s != [] && IsSpace(s[|s| - 1]) then StripRight(s[..|s| - 1]) else s
  }

  /** `str.rstrip()` drops a trailing part of its input. */
  lemma {:induction false} StripRightPrefix(s: string)
    ensures StripRight(s) == s[..|StripRight(s)|]
  {
    if s != [] && IsSpace(s[|s| - 1]) {
      StripRightPrefix(s[..|s| - 1]);
    }
  }

  /** `str.strip()`: the input without its leading and trailing whitespace. */
  function Strip(s: string): string {
    StripRight(StripLeft(s))
  }

  /** `re.sub(r'\s+', ' ', text)`: every maximal run of whitespace becomes
      one space. */
  function Collapse(s: string): (r: string)
    ensures forall i :: 0 <= i < |r| && IsSpace(r[i]) ==> r[i] == ' '
    ensures forall i :: 0 <= i < |r| && !IsSpace(r[i]) ==> r[i] in s
    ensures forall i :: 0 <= i < |r| - 1 ==> !(r[i] == ' ' && r[i + 1] == ' ')
    ensures r == [] <==> s == []
    ensures r != [] ==> (IsSpace(r[0]) <==> IsSpace(s[0]))
    decreases |s|
  {
    if s == [] then []
    else if IsSpace(s[0]) then StripLeftSuffix(s); [' '] + Collapse(StripLeft(s))
    else [s[0]] + Collapse(s[1..])
  }

  /** `str.lower()` over ASCII. */
  function Lower(s: string): (r: string)
    ensures |r| == |s|
    ensures forall i :: 0 <= i < |s| ==> r[i] == LowerChar(s[i])
  {
    seq(|s|, i requires 0 <= i < |s| => LowerChar(s[i]))
  }

  /** `normalize_text`: drop hyphens and commas, collapse whitespace runs,
      strip, lower-case. */
  function Normalize(s: string): string {
    Lower(Strip(Collapse(RemovePunct(s))))
  }

  predicate NoPunct(s: string) {
    forall i :: 0 <= i < |s| ==> s[i] != '-' && s[i] != ','
  }

  predicate NoUpper(s: string) {
    forall i :: 0 <= i < |s| ==> !IsUpper(s[i])
  }

  /** The only whitespace character left is the plain space. */
  predicate OnlyPlainSpaces(s: string) {
    forall i :: 0 <= i < |s| ==> IsSpace(s[i]) ==> s[i] == ' '
  }

  predicate NoDoubleSpace(s: string) {
    forall i :: 0 <= i < |s| - 1 ==> !(s[i] == ' ' && s[i + 1] == ' ')
  }

  /** No leading or trailing whitespace. */
  predicate Trimmed(s: string) {
    s == [] || (!IsSpace(s[0]) && !IsSpace(s[|s| - 1]))
  }

  /** What a normalized string looks like: no hyphen, comma or upper-case
      letter, no whitespace other than single inner spaces. */
  predicate IsNormal(s: string) {
    NoPunct(s) && NoUpper(s) && OnlyPlainSpaces(s) && NoDoubleSpace(s) && Trimmed(s)
  }

  /** `r` is the slice of `s` that starts at `i`. */
  predicate SliceAt(r: string, s: string, i: int) {
    0 <= i <= |s| - |r| && r == s[i..i + |r|]
  }

  /** `str.lstrip()` drops only whitespace. */
  lemma {:induction false} StripLeftDropsSpace(s: string)
    ensures forall i :: 0 <= i < |s| - |StripLeft(s)| ==> IsSpace(s[i])
  {
    if s != [] && IsSpace(s[0]) {
      StripLeftDropsSpace(s[1..]);
      assert forall i :: 1 <= i < |s| ==> s[i] == s[1..][i - 1];
    }
  }

  /** `str.rstrip()` drops only whitespace. */
  lemma {:induction false} StripRightDropsSpace(s: string)
    ensures forall i :: |StripRight(s)| <= i < |s| ==> IsSpace(s[i])
  {
    if s != [] && IsSpace(s[|s| - 1]) {
      StripRightDropsSpace(s[..|s| - 1]);
      assert forall i :: 0 <= i < |s| - 1 ==> s[i] == s[..|s| - 1][i];
    }
  }

  /** The stripped string is a trimmed slice of its input, and what is cut
      off before and after that slice is whitespace. */
  lemma StripIsSlice(s: string)
    ensures Trimmed(Strip(s))
    ensures SliceAt(Strip(s), s, |s| - |StripLeft(s)|)
    ensures forall i :: 0 <= i < |s| - |StripLeft(s)| ==> IsSpace(s[i])
    ensures forall i :: |s| - |StripLeft(s)| + |Strip(s)| <= i < |s| ==> IsSpace(s[i])
  {
    var t := StripLeft(s);
    var r := StripRight(t);
    StripLeftSuffix(s);
    StripRightPrefix(t);
    StripLeftDropsSpace(s);
    StripRightDropsSpace(t);
    var d := |s| - |t|;
    forall i | d + |r| <= i < |s| ensures IsSpace(s[i]) {
      assert s[i] == t[i - d];
    }
  }

  /** A slice inherits every character-wise and adjacency property. */
  lemma SliceKeeps(r: string, s: string, i: int)
    requires SliceAt(r, s, i)
    ensures NoPunct(s) ==> NoPunct(r)
    ensures OnlyPlainSpaces(s) ==> OnlyPlainSpaces(r)
    ensures NoDoubleSpace(s) ==> NoDoubleSpace(r)
  {
    assert forall k :: 0 <= k < |r| ==> r[k] == s[i + k];
    if NoDoubleSpace(s) {
      forall k | 0 <= k < |r| - 1
        ensures !(r[k] == ' ' && r[k + 1] == ' ')
      {
        assert r[k] == s[i + k] && r[k + 1] == s[i + k + 1];
      }
    }
  }

  /** Lower-casing keeps the normal shape of the other properties and adds
      the absence of upper-case letters. */
  lemma LowerKeeps(c: string)
    ensures NoUpper(Lower(c))
    ensures NoPunct(c) ==> NoPunct(Lower(c))
    ensures OnlyPlainSpaces(c) ==> OnlyPlainSpaces(Lower(c))
    ensures NoDoubleSpace(c) ==> NoDoubleSpace(Lower(c))
    ensures Trimmed(c) ==> Trimmed(Lower(c))
  {
    var d := Lower(c);
    if NoPunct(c) {
      forall i | 0 <= i < |d| ensures d[i] != '-' && d[i] != ',' {
        assert d[i] == LowerChar(c[i]);
      }
    }
  }

  lemma CollapseShape(a: string)
    requires NoPunct(a)
    ensures NoPunct(Collapse(a)) && OnlyPlainSpaces(Collapse(a)) && NoDoubleSpace(Collapse(a))
  {
    var b := Collapse(a);
    forall i | 0 <= i < |b| ensures b[i] != '-' && b[i] != ',' {
      if !IsSpace(b[i]) {
        assert b[i] in a;
      }
    }
  }

  /** Every output of `normalize_text` has the normal shape. */
  lemma NormalizeIsNormal(s: string)
    ensures IsNormal(Normalize(s))
  {
    var b := Collapse(RemovePunct(s));
    CollapseShape(RemovePunct(s));
    StripIsSlice(b);
    SliceKeeps(Strip(b), b, |b| - |StripLeft(b)|);
    LowerKeeps(Strip(b));
  }

  /** A string that already has the normal shape is left unchanged. */
  lemma NormalizeFixesNormal(s: string)
    requires IsNormal(s)
    ensures Normalize(s) == s
  {
    RemovePunctFixes(s);
    CollapseFixes(s);
    StripFixes(s);
    LowerFixes(s);
  }

  /** `normalize_text` is idempotent. */
  lemma NormalizeIdempotent(s: string)
    ensures Normalize(Normalize(s)) == Normalize(s)
  {
    NormalizeIsNormal(s);
    NormalizeFixesNormal(Normalize(s));
  }

  lemma {:induction false} RemovePunctFixes(s: string)
    requires NoPunct(s)
    ensures RemovePunct(s) == s
  {
    if s != [] {
      RemovePunctFixes(s[1..]);
    }
  }

  lemma {:induction false} CollapseFixes(s: string)
    requires OnlyPlainSpaces(s) && NoDoubleSpace(s)
    ensures Collapse(s) == s
  {
    if s != [] {
      assert OnlyPlainSpaces(s[1..]) && NoDoubleSpace(s[1..]) by {
        assert forall k :: 0 <= k < |s| - 1 ==> s[1..][k] == s[k + 1];
      }
      CollapseFixes(s[1..]);
      if IsSpace(s[0]) {
        assert s[1..] == [] || !IsSpace(s[1]);
        assert StripLeft(s) == StripLeft(s[1..]) == s[1..];
      }
    }
  }

  lemma StripFixes(s: string)
    requires Trimmed(s)
    ensures Strip(s) == s
  {
  }

  lemma LowerFixes(s: string)
    requires NoUpper(s)
    ensures Lower(s) == s
  {
  }

  /** A word of `str.split()`: non-empty, without whitespace. */
  predicate IsWord(w: string) {
    w != [] && forall i :: 0 <= i < |w| ==> !IsSpace(w[i])
  }

  /** The longest leading run of non-whitespace characters. */
  function TakeWord(s: string): (w: string)
    ensures w <= s
    ensures forall i :: 0 <= i < |w| ==> !IsSpace(w[i])
    ensures |w| == |s| || IsSpace(s[|w|])
    ensures s != [] && !IsSpace(s[0]) ==> w != []
  {
    if s == [] || IsSpace(s[0]) then [] else [s[0]] + TakeWord(s[1..])
  }

  /** `str.split()` with no separator: the maximal runs of non-whitespace
      characters, in order. */
  function Words(s: string): (ws: seq<string>)
    ensures forall k :: 0 <= k < |ws| ==> IsWord(ws[k])
    decreases |s|
  {
    var t := StripLeft(s);
    if t == [] then []
    else
      var w := TakeWord(t);
      assert IsWord(w);
      var rest := Words(t[|w|..]);
      assert forall k :: 0 < k <= |rest| ==> ([w] + rest)[k] == rest[k - 1];
      [w] + rest
  }

  /** `" ".join(ws)`. */
  function Join(ws: seq<string>): string {
    if ws == [] then ""
    else if |ws| == 1 then ws[0]
    else ws[0] + " " + Join(ws[1..])
  }

  lemma {:induction false} JoinStartsWithWord(ws: seq<string>)
    requires ws != [] && IsWord(ws[0])
    ensures Join(ws) != [] && Join(ws)[0] == ws[0][0]
  {
  }

  lemma {:induction false} TakeWordOf(w: string, rest: string)
    requires forall i :: 0 <= i < |w| ==> !IsSpace(w[i])
    requires rest == [] || IsSpace(rest[0])
    ensures TakeWord(w + rest) == w
  {
    if w != [] {
      assert (w + rest)[1..] == w[1..] + rest;
      TakeWordOf(w[1..], rest);
    } else {
      assert w + rest == rest;
    }
  }

  lemma WordsOfWordThen(w: string, rest: string)
    requires IsWord(w)
    requires rest == [] || IsSpace(rest[0])
    ensures Words(w + rest) == [w] + Words(rest)
  {
    var s := w + rest;
    assert s[0] == w[0];
    assert StripLeft(s) == s;
    TakeWordOf(w, rest);
    assert s[|w|..] == rest;
  }

  lemma WordsSkipSpace(j: string)
    ensures Words(" " + j) == Words(j)
  {
    assert (" " + j)[1..] == j;
    assert StripLeft(" " + j) == StripLeft(j);
  }

  /** Splitting a join of words gives the words back. */
  lemma {:induction false} WordsOfJoin(ws: seq<string>)
    requires forall k :: 0 <= k < |ws| ==> IsWord(ws[k])
    ensures Words(Join(ws)) == ws
  {
    if ws == [] {
    } else if |ws| == 1 {
      WordsOfWordThen(ws[0], []);
      assert ws[0] + [] == ws[0];
    } else {
      var j := Join(ws[1..]);
      assert Join(ws) == ws[0] + (" " + j);
      WordsOfWordThen(ws[0], " " + j);
      WordsSkipSpace(j);
      WordsOfJoin(ws[1..]);
    }
  }

  /** A run of non-whitespace characters passes through the collapse
      unchanged. */
  lemma {:induction false} CollapseWord(w: string, rest: string)
    requires forall i :: 0 <= i < |w| ==> !IsSpace(w[i])
    ensures Collapse(w + rest) == w + Collapse(rest)
    decreases |w|
  {
    if w == [] {
      assert w + rest == rest;
    } else {
      assert (w + rest)[0] == w[0] && (w + rest)[1..] == w[1..] + rest;
      CollapseWord(w[1..], rest);
      assert w == [w[0]] + w[1..];
    }
  }

  /** Stripping trailing whitespace from a concatenation whose second part
      starts with a non-space character leaves the first part alone. */
  lemma {:induction false} StripRightAppend(x: string, y: string)
    requires y != [] && !IsSpace(y[0])
    ensures StripRight(x + y) == x + StripRight(y)
    decreases |y|
  {
    var xy := x + y;
    if IsSpace(y[|y| - 1]) {
      var y' := y[..|y| - 1];
      assert xy[|xy| - 1] == y[|y| - 1];
      assert xy[..|xy| - 1] == x + y';
      StripRightAppend(x, y');
    }
  }

  lemma StripLeftOfTrimmedStart(t: string)
    requires t == [] || !IsSpace(t[0])
    ensures StripLeft(t) == t
  {
  }

  /** The collapse of a string starting with a non-space character, stripped
      at the end, is its words joined by single spaces. */
  lemma {:induction false} CollapseJoinsWords(t: string)
    requires t == [] || !IsSpace(t[0])
    ensures StripRight(Collapse(t)) == Join(Words(t))
    decreases |t|
  {
    StripLeftOfTrimmedStart(t);
    if t != [] {
      var w := TakeWord(t);
      var rest := t[|w|..];
      assert t == w + rest;
      CollapseWord(w, rest);
      assert Words(t) == [w] + Words(rest);
      if rest == [] {
        assert Collapse(t) == w && Words(rest) == [];
      } else {
        var u := StripLeft(rest);
        StripLeftSuffix(rest);
        assert Collapse(rest) == [' '] + Collapse(u);
        assert Words(rest) == Words(u) by {
          StripLeftOfTrimmedStart(u);
        }
        if u == [] {
          assert Collapse(t) == w + [' '];
          assert (w + [' '])[..|w|] == w;
          assert Words(t) == [w];
        } else {
          CollapseJoinsWords(u);
          var cu := Collapse(u);
          assert Collapse(t) == (w + [' ']) + cu;
          StripRightAppend(w + [' '], cu);
          assert Words(u) != [];
          assert Join(Words(t)) == w + " " + Join(Words(u));
        }
      }
    }
  }

  /** Leading whitespace becomes at most one leading space, which the strip
      removes. */
  lemma StripLeftCollapse(s: string)
    ensures StripLeft(Collapse(s)) == Collapse(StripLeft(s))
  {
    if s != [] && IsSpace(s[0]) {
      var t := StripLeft(s);
      StripLeftOfTrimmedStart(Collapse(t));
      assert ([' '] + Collapse(t))[1..] == Collapse(t);
    }
  }

  /** Collapsing whitespace runs and stripping gives the words joined by
      single spaces: the collapse keeps every non-space character, in
      order. */
  lemma StripCollapse(s: string)
    ensures Strip(Collapse(s)) == Join(Words(s))
  {
    StripLeftCollapse(s);
    var t := StripLeft(s);
    CollapseJoinsWords(t);
    StripLeftOfTrimmedStart(t);
  }

  /** `normalize_text` is the lower-cased `" ".join(text.split())` of the
      text without hyphens and commas. */
  lemma NormalizeAsWords(s: string)
    ensures Normalize(s) == Lower(Join(Words(RemovePunct(s))))
  {
    StripCollapse(RemovePunct(s));
  }

  /** `sub in s` for strings. */
  predicate Contains(s: string, sub: string)
    decreases |s|
  {
    sub <= s || (s != [] && Contains(s[1..], sub))
  }

  /** `sub` occurs in `s` at index `i`. */
  predicate OccursAt(s: string, sub: string, i: int) {
    0 <= i <= |s| - |sub| && s[i..i + |sub|] == sub
  }

  /** `sub in s` holds exactly when `sub` occurs at some index of `s`. */
  lemma {:induction false} ContainsAt(s: string, sub: string)
    ensures Contains(s, sub) <==> exists i :: OccursAt(s, sub, i)
    decreases |s|
  {
    if sub <= s {
      assert OccursAt(s, sub, 0);
    } else if s == [] {
    } else {
      ContainsAt(s[1..], sub);
      if exists i :: OccursAt(s, sub, i) {
        var i :| OccursAt(s, sub, i);
        assert i != 0;
        assert OccursAt(s[1..], sub, i - 1);
      }
      if Contains(s[1..], sub) {
        var i :| OccursAt(s[1..], sub, i);
        assert OccursAt(s, sub, i + 1);
      }
    }
  }

  /** A string containing `sub` contains every prefix of `sub`. */
  lemma ContainsPrefix(s: string, sub: string, pre: string)
    requires Contains(s, sub) && pre <= sub
    ensures Contains(s, pre)
  {
    ContainsAt(s, sub);
    var i :| OccursAt(s, sub, i);
    assert s[i..i + |pre|] == s[i..i + |sub|][..|pre|];
    assert OccursAt(s, pre, i);
    ContainsAt(s, pre);
  }

  /** `s.split(sep)` with a one-character separator: the pieces between
      separators, empty pieces included. */
  function SplitOn(s: string, sep: char): (parts: seq<string>)
    ensures |parts| >= 1
    ensures forall k :: 0 <= k < |parts| ==> sep !in parts[k]
    decreases |s|
  {
    if s == [] then [""]
    else
      var rest := SplitOn(s[1..], sep);
      if s[0] == sep then [""] + rest
      else [[s[0]] + rest[0]] + rest[1..]
  }

  /** `sep.join(parts)` with a one-character separator. */
  function JoinOn(parts: seq<string>, sep: char): string {
    if parts == [] then ""
    else if |parts| == 1 then parts[0]
    else parts[0] + [sep] + JoinOn(parts[1..], sep)
  }

  /** Joining the pieces of a split gives the input back. */
  lemma {:induction false} JoinOfSplit(s: string, sep: char)
    ensures JoinOn(SplitOn(s, sep), sep) == s
  {
    if s != [] {
      var rest := SplitOn(s[1..], sep);
      JoinOfSplit(s[1..], sep);
      if s[0] == sep {
        assert JoinOn([""] + rest, sep) == "" + [sep] + JoinOn(rest, sep);
      } else {
        var parts := [[s[0]] + rest[0]] + rest[1..];
        if |rest| == 1 {
          assert JoinOn(parts, sep) == [s[0]] + rest[0];
        } else {
          assert parts[1..] == rest[1..];
          assert JoinOn(rest, sep) == rest[0] + [sep] + JoinOn(rest[1..], sep);
          assert JoinOn(parts, sep) == [s[0]] + rest[0] + [sep] + JoinOn(rest[1..], sep);
        }
      }
    }
  }
}
