/**
 * `is_subsequence(small, big)` (USPTO_Checker_Final.py:19-22).
 *
 * Its doc comment promises "all words in small appear in big in order". Its
 * body, `it = iter(big); all(word in it for word in it)`, never reads
 * `small`: each step draws a word from the iterator over `big` and then
 * consumes the same iterator up to and including the next equal word. This
 * module models the body as written, the promised relation, and proves that
 * the two differ.
 */
module Subsequence {
  import opened Wrappers

  /** `x in it` on an iterator over `s`: consumes `s` up to and including
      the first `x`; the rest of the iterator, or None when `x` is absent
      (the iterator is then exhausted). */
  function AfterFirst<T(==)>(x: T, s: seq<T>): (r: Option<seq<T>>)
    ensures r.None? <==> x !in s
    ensures r.Some? ==> |r.value| < |s|
  {
    if s == [] then None
    else if s[0] == x then Some(s[1..])
    else AfterFirst(x, s[1..])
  }

  /** What `x in it` leaves: the elements after the first `x`. */
  lemma {:induction false} AfterFirstSplits<T>(x: T, s: seq<T>)
    ensures var r := AfterFirst(x, s);
      r.Some? ==>
        var i := |s| - |r.value| - 1;
        s[i] == x && x !in s[..i] && r.value == s[i + 1..]
  {
    if s != [] && s[0] != x {
      AfterFirstSplits(x, s[1..]);
      var r := AfterFirst(x, s[1..]);
      if r.Some? {
        var i := |s| - |r.value| - 1;
        assert s[..i] == [s[0]] + s[1..][..i - 1];
      }
    }
  }

  /** The body of `is_subsequence` as written; `small` plays no part. */
  function IsSubsequenceAsWritten<T(==)>(small: seq<T>, big: seq<T>): bool
    decreases |big|
  {
    if big == [] then true
    else
      match AfterFirst(big[0], big[1..])
      case None => false
      case Some(rest) => IsSubsequenceAsWritten(small, rest)
  }

  /** What the doc comment promises: the elements of `small` occur in `big`
      in the same order, not necessarily next to each other. */
  function IsSubseq<T(==)>(small: seq<T>, big: seq<T>): bool
    decreases |big|
  {
    if small == [] then true
    else if big == [] then false
    else if small[0] == big[0] then IsSubseq(small[1..], big[1..])
    else IsSubseq(small, big[1..])
  }

  /** `idx` places each element of `a` at a position of `b`, positions
      strictly increasing: the reference meaning of "subsequence". */
  ghost predicate Embeds<T>(a: seq<T>, b: seq<T>, idx: seq<int>) {
    && |idx| == |a|
    && (forall k :: 0 <= k < |idx| ==> 0 <= idx[k] < |b| && b[idx[k]] == a[k])
    && (forall j, k :: 0 <= j < k < |idx| ==> idx[j] < idx[k])
  }

  function Shift(idx: seq<int>, d: int): (r: seq<int>)
    ensures |r| == |idx| && forall k :: 0 <= k < |idx| ==> r[k] == idx[k] + d
  {
    seq(|idx|, k requires 0 <= k < |idx| => idx[k] + d)
  }

  lemma NothingEmbedsInEmpty<T>(a: seq<T>, idx: seq<int>)
    requires a != []
    ensures !Embeds(a, [], idx)
  {
    assert |idx| == |a| ==> !(0 <= idx[0] < 0);
  }

  lemma {:induction false} SubseqEmbeds<T>(small: seq<T>, big: seq<T>) returns (idx: seq<int>)
    requires IsSubseq(small, big)
    ensures Embeds(small, big, idx)
    decreases |big|
  {
    if small == [] {
      idx := [];
    } else if small[0] == big[0] {
      var idx' := SubseqEmbeds(small[1..], big[1..]);
      idx := [0] + Shift(idx', 1);
      assert forall k :: 1 <= k < |idx| ==> idx[k] == idx'[k - 1] + 1;
    } else {
      var idx' := SubseqEmbeds(small, big[1..]);
      idx := Shift(idx', 1);
    }
  }

  lemma {:induction false} EmbedsSubseq<T>(small: seq<T>, big: seq<T>, idx: seq<int>)
    requires Embeds(small, big, idx)
    ensures IsSubseq(small, big)
    decreases |big|
  {
    if small == [] {
    } else if big == [] {
      NothingEmbedsInEmpty(small, idx);
    } else if small[0] == big[0] {
      EmbedsSubseq(small[1..], big[1..], Shift(idx[1..], -1));
    } else {
      assert idx[0] != 0;
      EmbedsSubseq(small, big[1..], Shift(idx, -1));
    }
  }

  /** The promised relation holds exactly when an order-preserving placement
      of `small` into `big` exists. */
  lemma IsSubseqMeansEmbedding<T>(small: seq<T>, big: seq<T>)
    ensures IsSubseq(small, big) <==> exists idx :: Embeds(small, big, idx)
  {
    if IsSubseq(small, big) {
      var idx := SubseqEmbeds(small, big);
    }
    if exists idx :: Embeds(small, big, idx) {
      var idx :| Embeds(small, big, idx);
      EmbedsSubseq(small, big, idx);
    }
  }

  /** A common last element extends the relation, and a last element of
      `big` alone keeps it. */
  lemma {:induction false} IsSubseqSnoc<T>(a: seq<T>, b: seq<T>, x: T)
    requires IsSubseq(a, b)
    ensures IsSubseq(a, b + [x]) && IsSubseq(a + [x], b + [x])
    decreases |b|
  {
    if a == [] {
      IsSubseqEmpty(b + [x]);
      assert IsSubseq([x], b + [x]) by { IsSubseqLast(b, x); }
      assert a + [x] == [x];
    } else if b == [] {
    } else if a[0] == b[0] {
      IsSubseqSnoc(a[1..], b[1..], x);
      assert (b + [x])[1..] == b[1..] + [x];
      assert (a + [x])[1..] == a[1..] + [x];
    } else {
      IsSubseqSnoc(a, b[1..], x);
      assert (b + [x])[1..] == b[1..] + [x];
    }
  }

  /** The empty sequence is related to every sequence. */
  lemma IsSubseqEmpty<T>(b: seq<T>)
    ensures IsSubseq([], b)
  {
  }

  /** A one-element sequence is related to any sequence ending in it. */
  lemma {:induction false} IsSubseqLast<T>(b: seq<T>, x: T)
    ensures IsSubseq([x], b + [x])
    decreases |b|
  {
    if b != [] {
      if b[0] != x {
        IsSubseqLast(b[1..], x);
        assert (b + [x])[1..] == b[1..] + [x];
      }
    }
  }

  /** What is related to the tail of `big` is related to `big`. */
  lemma IsSubseqDrop<T>(a: seq<T>, b: seq<T>)
    requires b != [] && IsSubseq(a, b[1..])
    ensures IsSubseq(a, b)
  {
    IsSubseqMeansEmbedding(a, b[1..]);
    var idx :| Embeds(a, b[1..], idx);
    assert Embeds(a, b, Shift(idx, 1));
    IsSubseqMeansEmbedding(a, b);
  }

  /** The as-written body breaks the doc comment's promise both ways: an
      empty `big` accepts every `small`, and `[x]` is rejected as a
      subsequence of itself. */
  lemma AsWrittenBreaksPromise<T>(small: seq<T>, x: T)
    ensures IsSubsequenceAsWritten(small, [])
    ensures small != [] ==> !IsSubseq(small, [])
    ensures !IsSubsequenceAsWritten([x], [x]) && IsSubseq([x], [x])
  {
  }

  /** The as-written result does not depend on `small`. */
  lemma AsWrittenIgnoresSmall<T>(small1: seq<T>, small2: seq<T>, big: seq<T>)
    ensures IsSubsequenceAsWritten(small1, big) == IsSubsequenceAsWritten(small2, big)
    decreases |big|
  {
    if big != [] {
      match AfterFirst(big[0], big[1..])
      case None =>
      case Some(rest) => AsWrittenIgnoresSmall(small1, small2, rest);
    }
  }

  /** A block `w ... w` in which `w` does not occur between its two ends. */
  predicate IsBlock<T(==)>(b: seq<T>) {
    |b| >= 2 && b[0] == b[|b| - 1] && b[0] !in b[1..|b| - 1]
  }

  function Flatten<T>(blocks: seq<seq<T>>): seq<T> {
    if blocks == [] then [] else blocks[0] + Flatten(blocks[1..])
  }

  /** `big` is the concatenation of `blocks`, each of them a block. */
  ghost predicate SplitsIntoBlocks<T>(blocks: seq<seq<T>>, big: seq<T>) {
    (forall k :: 0 <= k < |blocks| ==> IsBlock(blocks[k])) && Flatten(blocks) == big
  }

  lemma {:induction false} AfterFirstOf<T>(x: T, m: seq<T>, t: seq<T>)
    requires x !in m
    ensures AfterFirst(x, m + [x] + t) == Some(t)
  {
    if m != [] {
      assert (m + [x] + t)[1..] == m[1..] + [x] + t;
      AfterFirstOf(x, m[1..], t);
    }
  }

  lemma FirstBlock<T>(big: seq<T>) returns (b0: seq<T>)
    requires big != [] && AfterFirst(big[0], big[1..]).Some?
    ensures IsBlock(b0) && big == b0 + AfterFirst(big[0], big[1..]).value
  {
    var x, s := big[0], big[1..];
    var rest := AfterFirst(x, s).value;
    AfterFirstSplits(x, s);
    var i := |s| - |rest| - 1;
    var pre := s[..i + 1];
    assert pre[..i] == s[..i] && pre[i] == x;
    b0 := BlockOf(x, pre);
    assert s == pre + rest;
    assert big == [x] + s;
  }

  lemma BlockOf<T>(x: T, pre: seq<T>) returns (b0: seq<T>)
    requires pre != [] && pre[|pre| - 1] == x && x !in pre[..|pre| - 1]
    ensures b0 == [x] + pre && IsBlock(b0)
  {
    b0 := [x] + pre;
    assert b0[1..|b0| - 1] == pre[..|pre| - 1];
  }

  lemma BlocksCons<T>(b0: seq<T>, blocks: seq<seq<T>>, rest: seq<T>)
    requires IsBlock(b0) && SplitsIntoBlocks(blocks, rest)
    ensures SplitsIntoBlocks([b0] + blocks, b0 + rest)
  {
    var bs := [b0] + blocks;
    assert bs[1..] == blocks;
    assert forall k :: 1 <= k < |bs| ==> bs[k] == blocks[k - 1];
  }

  /** Each accepted `big` splits into consecutive blocks. */
  lemma {:induction false} AsWrittenGivesBlocks<T>(small: seq<T>, big: seq<T>)
    requires IsSubsequenceAsWritten(small, big)
    ensures exists blocks :: SplitsIntoBlocks(blocks, big)
    decreases |big|
  {
    if big == [] {
      assert SplitsIntoBlocks([], big);
    } else {
      var rest := AfterFirst(big[0], big[1..]).value;
      AsWrittenGivesBlocks(small, rest);
      var b0 := FirstBlock(big);
      var blocks :| SplitsIntoBlocks(blocks, rest);
      BlocksCons(b0, blocks, rest);
    }
  }

  /** Each concatenation of blocks is accepted. */
  lemma {:induction false} BlocksGiveAsWritten<T>(small: seq<T>, blocks: seq<seq<T>>)
    requires forall k :: 0 <= k < |blocks| ==> IsBlock(blocks[k])
    ensures IsSubsequenceAsWritten(small, Flatten(blocks))
    decreases |blocks|
  {
    if blocks != [] {
      var big := Flatten(blocks);
      var b0 := blocks[0];
      var tail := Flatten(blocks[1..]);
      var m := b0[1..|b0| - 1];
      assert b0 == [b0[0]] + m + [b0[0]];
      assert big == b0 + tail;
      assert big[0] == b0[0];
      assert big[1..] == m + [b0[0]] + tail;
      AfterFirstOf(b0[0], m, tail);
      BlocksGiveAsWritten(small, blocks[1..]);
    }
  }

  /** The as-written body is true exactly when `big` splits into consecutive
      blocks `w ... w` with no `w` in between. */
  lemma AsWrittenMeansBlocks<T>(small: seq<T>, big: seq<T>)
    ensures IsSubsequenceAsWritten(small, big) <==> exists blocks :: SplitsIntoBlocks(blocks, big)
  {
    if IsSubsequenceAsWritten(small, big) {
      AsWrittenGivesBlocks(small, big);
    }
    if exists blocks :: SplitsIntoBlocks(blocks, big) {
      var blocks :| SplitsIntoBlocks(blocks, big);
      BlocksGiveAsWritten(small, blocks);
    }
  }
}
