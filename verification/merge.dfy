/**
 * `concat_delimiter`: every entry that is exactly one delimiter and is not the first
 * entry is appended to the entry before it. MergeStray states this as a fold from the
 * left; ConcatDelimiter is the index-list-and-pop loop of the program, proved to
 * compute the same list.
 */
module Merge {
  import opened TextSeq
  import opened Splitter

  /** The merged list of xs, built one entry at a time from the left. */
  function MergeStray(xs: seq<string>): (r: seq<string>)
    ensures |r| <= |xs|
    ensures |r| == 0 <==> |xs| == 0
    decreases |xs|
  {
    if |xs| <= 1 then xs
    else
      var init := MergeStray(xs[..|xs| - 1]);
      var x := xs[|xs| - 1];
      if DelimToken(x) then init[..|init| - 1] + [init[|init| - 1] + x] else init + [x]
  }

  /** Merging only moves the boundaries between entries: the text laid end to end is kept. */
  lemma {:induction false} MergeStrayFlatten(xs: seq<string>)
    ensures Flatten(MergeStray(xs)) == Flatten(xs)
    decreases |xs|
  {
    if |xs| > 1 {
      var init := MergeStray(xs[..|xs| - 1]);
      var x := xs[|xs| - 1];
      MergeStrayFlatten(xs[..|xs| - 1]);
      assert xs == xs[..|xs| - 1] + [x];
      FlattenSnoc(xs[..|xs| - 1], x);
      if DelimToken(x) {
        MergeLastFlatten(init, x);
      } else {
        FlattenSnoc(init, x);
      }
    }
  }

  lemma MergeLastFlatten(init: seq<string>, x: string)
    requires |init| > 0
    ensures Flatten(init[..|init| - 1] + [init[|init| - 1] + x]) == Flatten(init) + x
  {
    var m := |init| - 1;
    assert init == init[..m] + [init[m]];
    FlattenSnoc(init[..m], init[m]);
    FlattenSnoc(init[..m], init[m] + x);
  }

  /** How many entries of xs are one-delimiter entries. */
  function CountDelimTokens(xs: seq<string>): nat
  {
    if |xs| == 0 then 0 else (if DelimToken(xs[0]) then 1 else 0) + CountDelimTokens(xs[1..])
  }

  lemma {:induction false} CountDelimTokensSnoc(xs: seq<string>, x: string)
    ensures CountDelimTokens(xs + [x]) == CountDelimTokens(xs) + (if DelimToken(x) then 1 else 0)
    decreases |xs|
  {
    if |xs| > 0 {
      assert (xs + [x])[1..] == xs[1..] + [x];
      CountDelimTokensSnoc(xs[1..], x);
    } else {
      assert [x][1..] == [];
    }
  }

  /** Merging removes exactly one entry per one-delimiter entry after the first position. */
  lemma {:induction false} MergeStrayLength(xs: seq<string>)
    requires |xs| > 0
    ensures |MergeStray(xs)| == |xs| - CountDelimTokens(xs[1..])
    decreases |xs|
  {
    if |xs| > 1 {
      var n := |xs|;
      MergeStrayLength(xs[..n - 1]);
      assert xs[1..] == xs[..n - 1][1..] + [xs[n - 1]];
      CountDelimTokensSnoc(xs[..n - 1][1..], xs[n - 1]);
    } else {
      assert xs[1..] == [];
    }
  }

  /** With non-empty entries, no one-delimiter entry is left after the first position. */
  lemma {:induction false} MergeStrayLeavesNoStray(xs: seq<string>)
    requires forall j :: 0 <= j < |xs| ==> |xs[j]| > 0
    ensures forall j :: 0 <= j < |MergeStray(xs)| ==> |MergeStray(xs)[j]| > 0
    ensures forall j :: 1 <= j < |MergeStray(xs)| ==> !DelimToken(MergeStray(xs)[j])
    decreases |xs|
  {
    if |xs| > 1 {
      var n := |xs|;
      MergeStrayLeavesNoStray(xs[..n - 1]);
    }
  }

  /** Entries without a one-delimiter among them are appended unchanged. */
  lemma {:induction false} MergeStrayAppendPlain(xs: seq<string>, ys: seq<string>)
    requires |xs| > 0
    requires forall j :: 0 <= j < |ys| ==> !DelimToken(ys[j])
    ensures MergeStray(xs + ys) == MergeStray(xs) + ys
    decreases |ys|
  {
    if |ys| > 0 {
      var m := |ys| - 1;
      assert xs + ys == (xs + ys[..m]) + [ys[m]];
      assert (xs + ys)[..|xs + ys| - 1] == xs + ys[..m];
      MergeStrayAppendPlain(xs, ys[..m]);
      assert ys == ys[..m] + [ys[m]];
    } else {
      assert xs + ys == xs;
    }
  }

  /** A list without one-delimiter entries after the first position is left as it is. */
  lemma MergeStrayPlain(xs: seq<string>)
    requires forall j :: 1 <= j < |xs| ==> !DelimToken(xs[j])
    ensures MergeStray(xs) == xs
  {
    if |xs| > 0 {
      MergeStrayAppendPlain(xs[..1], xs[1..]);
      assert xs == xs[..1] + xs[1..];
    }
  }

  /** Whatever one entry covered, the merged entry it went into covers. */
  lemma {:induction false} MergeStrayCovers(xs: seq<string>, b: int, e: int)
    requires Covered(xs, b, e)
    ensures Covered(MergeStray(xs), b, e)
    decreases |xs|
  {
    if |xs| > 1 {
      var n := |xs|;
      var init := MergeStray(xs[..n - 1]);
      var x := xs[n - 1];
      var j: nat :| j < n && Covers(xs, j, b, e);
      assert xs == xs[..n - 1] + [x];
      if j < n - 1 {
        OffPrefix(xs[..n - 1], [x], j);
        assert Covers(xs[..n - 1], j, b, e);
        MergeStrayCovers(xs[..n - 1], b, e);
        if DelimToken(x) {
          CoveredGrowLast(init, x, b, e);
        } else {
          CoveredPrefix(init, [x], b, e);
        }
      } else {
        OffPrefix(xs[..n - 1], [x], n - 1);
        OffAll(xs[..n - 1]);
        OffAll(init);
        MergeStrayFlatten(xs[..n - 1]);
        if DelimToken(x) {
          LastCovers(init, x, b, e);
        } else {
          OffPrefix(init, [x], |init|);
          assert (init + [x])[|init|] == x;
          assert Covers(init + [x], |init|, b, e);
        }
      }
    }
  }

  /** Appending to the last entry keeps every covered span covered. */
  lemma CoveredGrowLast(init: seq<string>, x: string, b: int, e: int)
    requires |init| > 0 && Covered(init, b, e)
    ensures Covered(init[..|init| - 1] + [init[|init| - 1] + x], b, e)
  {
    var m := |init| - 1;
    var r := init[..m] + [init[m] + x];
    var j: nat :| j < |init| && Covers(init, j, b, e);
    assert init == init[..m] + [init[m]];
    OffPrefix(init[..m], [init[m]], j);
    OffPrefix(init[..m], [init[m] + x], j);
    if j < m {
      assert r[j] == init[j];
    }
    assert Covers(r, j, b, e);
  }

  /** A span inside the appended delimiter lies inside the grown last entry. */
  lemma LastCovers(init: seq<string>, x: string, b: int, e: int)
    requires |init| > 0 && |Flatten(init)| <= b && e <= |Flatten(init)| + |x|
    ensures Covered(init[..|init| - 1] + [init[|init| - 1] + x], b, e)
  {
    var m := |init| - 1;
    var r := init[..m] + [init[m] + x];
    assert init == init[..m] + [init[m]];
    OffPrefix(init[..m], [init[m]], m);
    OffPrefix(init[..m], [init[m] + x], m);
    OffNext(init, m);
    OffAll(init);
    assert Covers(r, m, b, e);
  }

  /** idx lists, in increasing order, exactly the positions below n holding a one-delimiter entry. */
  ghost predicate IndexList(xs: seq<string>, n: nat, idx: seq<nat>)
    requires n <= |xs|
  {
    && (forall t :: 0 <= t < |idx| ==> idx[t] < n && DelimToken(xs[idx[t]]))
    && (forall s, t :: 0 <= s < t < |idx| ==> idx[s] < idx[t])
    && (forall j :: 0 <= j < n && DelimToken(xs[j]) ==> j in idx)
  }

  /** The positions i < n at which xs holds a one-delimiter entry, in increasing order. */
  function DelimIndices(xs: seq<string>, n: nat): (idx: seq<nat>)
    requires n <= |xs|
    ensures IndexList(xs, n, idx)
  {
    if n == 0 then [] else DelimIndices(xs, n - 1) + (if DelimToken(xs[n - 1]) then [n - 1] else [])
  }

  /** The position the loop over idx has reached after handling q indices. */
  function Reached(idx: seq<nat>, q: nat, n: nat): nat
  {
    if q < |idx| then idx[q] else n
  }

  /** Between two consecutive listed indices there is no one-delimiter entry. */
  lemma GapIsPlain(xs: seq<string>, idx: seq<nat>, q: nat)
    requires IndexList(xs, |xs|, idx) && q < |idx|
    ensures idx[q] < Reached(idx, q + 1, |xs|) <= |xs|
    ensures forall j :: idx[q] < j < Reached(idx, q + 1, |xs|) ==> !DelimToken(xs[j])
  {
    forall j | idx[q] < j < Reached(idx, q + 1, |xs|)
      ensures j !in idx
    {
      forall t | 0 <= t < |idx|
        ensures idx[t] != j
      {
        if q + 1 < t {
          assert idx[q + 1] < idx[t];
        }
      }
    }
  }

  /** Before the first listed index there is no one-delimiter entry. */
  lemma HeadIsPlain(xs: seq<string>, idx: seq<nat>)
    requires IndexList(xs, |xs|, idx)
    ensures Reached(idx, 0, |xs|) <= |xs|
    ensures forall j :: 0 <= j < Reached(idx, 0, |xs|) ==> !DelimToken(xs[j])
  {
  }

  /** Finds the one-delimiter entries of xs by comparing each entry with every member of `delimiter`. */
  method CollectDelimIndices(xs: seq<string>) returns (idx: seq<nat>)
    ensures idx == DelimIndices(xs, |xs|)
  {
    idx := [];
    var i := 0;
    while i < |xs|
      invariant 0 <= i <= |xs|
      invariant idx == DelimIndices(xs, i)
    {
      var q := 0;
      while q < |Delimiters|
        invariant 0 <= q <= |Delimiters|
        invariant idx == DelimIndices(xs, i) + (if xs[i] in Delimiters[..q] then [i] else [])
      {
        if xs[i] == Delimiters[q] {
          idx := idx + [i];
        }
        assert Delimiters[..q + 1] == Delimiters[..q] + [Delimiters[q]];
        q := q + 1;
      }
      assert Delimiters[..q] == Delimiters;
      DelimitersAreDelimTokens(xs[i]);
      i := i + 1;
    }
  }

  /**
   * `sents[k] += sents.pop(k + 1)`: entry k + 1 is appended to entry k, which leaves one
   * entry fewer and the text laid end to end unchanged.
   */
  function JoinNext(r: seq<string>, k: nat): (r': seq<string>)
    requires k < |r| - 1
    ensures |r'| == |r| - 1 && Flatten(r') == Flatten(r)
  {
    var tail := r[k + 2..];
    assert r == r[..k] + ([r[k], r[k + 1]] + tail);
    FlattenAppend(r[..k], [r[k], r[k + 1]] + tail);
    FlattenAppend(r[..k], [r[k] + r[k + 1]] + tail);
    FlattenPair(r[k], r[k + 1], tail);
    r[..k] + ([r[k] + r[k + 1]] + tail)
  }

  /** Two neighbouring entries and their concatenation lay out the same text. */
  lemma FlattenPair(a: string, b: string, t: seq<string>)
    ensures Flatten([a, b] + t) == Flatten([a + b] + t)
  {
    assert ([a, b] + t)[1..] == [b] + t;
    assert ([b] + t)[1..] == t;
    assert ([a + b] + t)[1..] == t;
  }

  /** `concat_delimiter(sents, delimiter)`, with the program's index list and pops. */
  method ConcatDelimiter(sents: seq<string>) returns (r: seq<string>)
    ensures r == MergeStray(sents)
  {
    if |sents| == 1 {
      return sents;
    }
    var idx := CollectDelimIndices(sents);
    r := PopAll(sents, idx);
  }

  /**
   * The pop loop of `concat_delimiter`: for each listed index i, entry i - 1 - d takes
   * in the entry after it, where d counts the pops so far.
   */
  method PopAll(sents: seq<string>, idx: seq<nat>) returns (r: seq<string>)
    requires IndexList(sents, |sents|, idx)
    ensures r == MergeStray(sents)
  {
    LoopStart(sents, idx);
    r := sents;
    var d: int := 0;
    var q := 0;
    while q < |idx|
      invariant PopInv(sents, idx, q, r, d)
    {
      var i: int := idx[q];
      LoopStep(sents, idx, q, r, d);
      if i - 1 - d >= 0 {
        r := JoinNext(r, i - 1 - d);
        d := d + 1;
      }
      q := q + 1;
    }
    LoopEnd(sents, idx, r, d);
  }

  /**
   * What the pop loop keeps after q listed indices: entries before the next listed
   * index p are merged, entries from p on are untouched, and d counts the pops so far.
   */
  ghost predicate PopInv(sents: seq<string>, idx: seq<nat>, q: int, r: seq<string>, d: int)
  {
    0 <= q <= |idx| && LoopState(sents, Reached(idx, q, |sents|), r, d)
  }

  ghost predicate LoopState(sents: seq<string>, p: nat, r: seq<string>, d: int)
  {
    p <= |sents| && r == MergeStray(sents[..p]) + sents[p..] && d == p - |MergeStray(sents[..p])|
  }

  lemma LoopEnd(sents: seq<string>, idx: seq<nat>, r: seq<string>, d: int)
    requires PopInv(sents, idx, |idx|, r, d)
    ensures r == MergeStray(sents)
  {
    assert sents[..|sents|] == sents;
    assert sents[|sents|..] == [];
  }

  lemma LoopStart(sents: seq<string>, idx: seq<nat>)
    requires IndexList(sents, |sents|, idx)
    ensures PopInv(sents, idx, 0, sents, 0)
  {
    var p := Reached(idx, 0, |sents|);
    HeadIsPlain(sents, idx);
    MergeStrayPlain(sents[..p]);
    assert sents == sents[..p] + sents[p..];
  }

  /** One round of the pop loop moves the loop state to the next listed index. */
  lemma LoopStep(sents: seq<string>, idx: seq<nat>, q: nat, r: seq<string>, d: int)
    requires IndexList(sents, |sents|, idx) && q < |idx|
    requires PopInv(sents, idx, q, r, d)
    ensures idx[q] - 1 - d >= 0 ==> 0 <= idx[q] - 1 - d < |r| - 1
    ensures idx[q] - 1 - d >= 0 ==> PopInv(sents, idx, q + 1, JoinNext(r, idx[q] - 1 - d), d + 1)
    ensures idx[q] - 1 - d < 0 ==> PopInv(sents, idx, q + 1, r, d)
  {
    var i := idx[q];
    GapIsPlain(sents, idx, q);
    var p := Reached(idx, q + 1, |sents|);
    if i - 1 - d >= 0 {
      var r' := PopJoinState(sents, i, r, d);
      AdvanceState(sents, i + 1, p, r', d + 1);
    } else {
      PopFirstState(sents, i, r, d);
      AdvanceState(sents, i + 1, p, r, d);
    }
  }

  /** At a listed index with an entry before it in r, the delimiter joins that entry. */
  lemma PopJoinState(sents: seq<string>, i: nat, r: seq<string>, d: int) returns (r': seq<string>)
    requires i < |sents| && DelimToken(sents[i]) && LoopState(sents, i, r, d) && i - 1 - d >= 0
    ensures 0 <= i - 1 - d < |r| - 1
    ensures r' == JoinNext(r, i - 1 - d)
    ensures LoopState(sents, i + 1, r', d + 1)
  {
    var m := MergeStray(sents[..i]);
    PopJoin(sents, i, m, r);
    r' := JoinNext(r, i - 1 - d);
  }

  /** A listed index with nothing before it in r is the first entry, and is kept. */
  lemma PopFirstState(sents: seq<string>, i: nat, r: seq<string>, d: int)
    requires i < |sents| && DelimToken(sents[i]) && LoopState(sents, i, r, d) && i - 1 - d < 0
    ensures LoopState(sents, i + 1, r, d)
  {
    PopFirst(sents, r);
  }

  /** Moving past entries without a one-delimiter keeps the loop state. */
  lemma AdvanceState(sents: seq<string>, a: nat, b: nat, r: seq<string>, d: int)
    requires 0 < a <= b <= |sents| && LoopState(sents, a, r, d)
    requires forall j :: a <= j < b ==> !DelimToken(sents[j])
    ensures LoopState(sents, b, r, d)
  {
    AdvancePlain(sents, a, b);
  }

  lemma PopJoin(sents: seq<string>, i: nat, m: seq<string>, r: seq<string>)
    requires 0 < i < |sents| && DelimToken(sents[i])
    requires m == MergeStray(sents[..i]) && r == m + sents[i..]
    ensures 0 < |m| < |r| && |MergeStray(sents[..i + 1])| == |m|
    ensures r[..|m| - 1] + [r[|m| - 1] + r[|m|]] + r[|m| + 1..] == MergeStray(sents[..i + 1]) + sents[i + 1..]
  {
    assert sents[..i + 1][..i] == sents[..i];
    var k := |m| - 1;
    assert r[..k] == m[..k];
    assert r[k] == m[k];
    assert r[k + 1] == sents[i];
    assert r[k + 2..] == sents[i + 1..];
  }

  lemma PopFirst(sents: seq<string>, r: seq<string>)
    requires 0 < |sents| && r == MergeStray(sents[..0]) + sents[0..]
    ensures r == MergeStray(sents[..1]) + sents[1..] && |MergeStray(sents[..1])| == 1
  {
    assert sents[..1] == [sents[0]];
    assert sents[0..] == [sents[0]] + sents[1..];
  }

  /** Moving past entries without a one-delimiter keeps the loop's picture of the list. */
  lemma AdvancePlain(sents: seq<string>, a: nat, b: nat)
    requires 0 < a <= b <= |sents|
    requires forall j :: a <= j < b ==> !DelimToken(sents[j])
    ensures MergeStray(sents[..a]) + sents[a..] == MergeStray(sents[..b]) + sents[b..]
    ensures a - |MergeStray(sents[..a])| == b - |MergeStray(sents[..b])|
  {
    SliceParts(sents, a, b);
    MergeStrayAppendPlain(sents[..a], sents[a..b]);
    ConcatAssoc(MergeStray(sents[..a]), sents[a..b], sents[b..]);
  }
}
