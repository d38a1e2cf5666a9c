/**
 * The split step of the sentenizer: `re.split` on the capturing delimiter alternation,
 * empty pieces dropped, paragraph by paragraph.
 */
module Splitter {
  import opened Chars
  import opened TextSeq

  /** An entry that is exactly one delimiter character (`s == d` for some d in `delimiter`). */
  predicate DelimToken(t: string)
  {
    |t| == 1 && IsDelimiter(t[0])
  }

  /** The `delimiter` list of the sentenizer. */
  const Delimiters: seq<string> := ["。", "？", "！", "?", "!", ".", "．", "…"]

  /** Being equal to some member of the `delimiter` list is being a one-delimiter entry. */
  lemma DelimitersAreDelimTokens(t: string)
    ensures t in Delimiters <==> DelimToken(t)
  {
    if DelimToken(t) {
      assert t == [t[0]];
    }
  }

  predicate NoDelimiter(t: string)
  {
    forall k :: 0 <= k < |t| ==> !IsDelimiter(t[k])
  }

  /** A piece re.split can produce once empties are gone: one delimiter, or a delimiter-free run. */
  predicate SplitPiece(t: string)
  {
    |t| > 0 && (DelimToken(t) || NoDelimiter(t))
  }

  /** No two delimiter-free pieces stand side by side. */
  predicate NoAdjacentPlain(r: seq<string>)
  {
    forall i, j | 0 <= i < |r| && 0 <= j < |r| :: j == i + 1 ==> DelimToken(r[i]) || DelimToken(r[j])
  }

  /** Length of the longest delimiter-free prefix. */
  function PlainRunLen(s: string): (n: nat)
    ensures n <= |s| && NoDelimiter(s[..n])
    ensures n == |s| || IsDelimiter(s[n])
  {
    if |s| == 0 || IsDelimiter(s[0]) then 0
    else
      var n := 1 + PlainRunLen(s[1..]);
      assert s[..n] == [s[0]] + s[1..][..n - 1];
      n
  }

  /** `filter(len > 0, re.split(u'(。|？|！|\?|!|\.|．|…)', par))`. */
  function SplitParagraph(s: string): (r: seq<string>)
    ensures Flatten(r) == s
    ensures forall j :: 0 <= j < |r| ==> SplitPiece(r[j])
    ensures NoAdjacentPlain(r)
    decreases |s|
  {
    if |s| == 0 then []
    else
      var n := if IsDelimiter(s[0]) then 1 else PlainRunLen(s);
      var rest := SplitParagraph(s[n..]);
      assert s == s[..n] + s[n..];
      assert !IsDelimiter(s[0]) && |rest| > 0 ==> DelimToken(rest[0]) by {
        if !IsDelimiter(s[0]) && |rest| > 0 {
          assert s[n..] == rest[0] + Flatten(rest[1..]);
        }
      }
      [s[..n]] + rest
  }

  /**
   * The three properties pin the split down: any list of pieces that concatenates to s,
   * with no two delimiter-free pieces side by side, is the split of s.
   */
  lemma {:induction false} SplitParagraphUnique(s: string, xs: seq<string>)
    requires Flatten(xs) == s
    requires forall j :: 0 <= j < |xs| ==> SplitPiece(xs[j])
    requires NoAdjacentPlain(xs)
    ensures xs == SplitParagraph(s)
    decreases |s|
  {
    if |xs| > 0 {
      var x := xs[0];
      assert s == x + Flatten(xs[1..]);
      var n := if IsDelimiter(s[0]) then 1 else PlainRunLen(s);
      assert s[0] == x[0];
      if DelimToken(x) {
        assert x == s[..1];
      } else {
        PlainPieceIsRun(s, x, xs[1..]);
      }
      assert s[n..] == Flatten(xs[1..]);
      SplitParagraphUnique(s[n..], xs[1..]);
    }
  }

  /** A delimiter-free first piece followed by a delimiter piece (or nothing) is the plain run. */
  lemma PlainPieceIsRun(s: string, x: string, rest: seq<string>)
    requires s == x + Flatten(rest) && |x| > 0 && NoDelimiter(x)
    requires |rest| > 0 ==> DelimToken(rest[0])
    ensures PlainRunLen(s) == |x| && x == s[..|x|]
  {
    assert s[..|x|] == x;
    if |rest| > 0 {
      assert s[|x|] == rest[0][0];
    }
  }

  /** No delimiter in s[b..e]. */
  predicate NoDelimiterIn(s: string, b: int, e: int)
  {
    0 <= b <= e <= |s| && forall k :: b <= k < e ==> !IsDelimiter(s[k])
  }

  /** A delimiter-free span of s ends up inside a single piece of the split. */
  lemma {:induction false} SplitCoversPlain(s: string, b: int, e: int)
    requires b < e && NoDelimiterIn(s, b, e)
    ensures Covered(SplitParagraph(s), b, e)
    decreases |s|
  {
    var n := if IsDelimiter(s[0]) then 1 else PlainRunLen(s);
    if n <= b {
      SplitCoversRest(s, b, e, n);
    } else {
      assert !IsDelimiter(s[b]);
      assert e <= n;
      CoversFirstPiece(s, b, e, n);
    }
  }

  lemma CoversFirstPiece(s: string, b: int, e: int, n: nat)
    requires 0 <= b < e <= n <= |s| && |s| > 0
    requires n == if IsDelimiter(s[0]) then 1 else PlainRunLen(s)
    ensures Covered(SplitParagraph(s), b, e)
  {
    var r := SplitParagraph(s);
    assert r[0] == s[..n];
    assert Off(r, 0) == 0 by { assert r[..0] == []; }
    assert Covers(r, 0, b, e);
  }

  lemma {:induction false} SplitCoversRest(s: string, b: int, e: int, n: nat)
    requires b < e && NoDelimiterIn(s, b, e) && |s| > 0
    requires n == (if IsDelimiter(s[0]) then 1 else PlainRunLen(s)) && n <= b
    ensures Covered(SplitParagraph(s), b, e)
    decreases |s|, 0
  {
    var t := s[n..];
    SplitParagraphCons(s, n);
    FlattenSingle(s[..n]);
    NoDelimiterInTail(s, n, b, e);
    SplitCoversPlain(t, b - n, e - n);
    CoveredShift([s[..n]], SplitParagraph(t), b, e, n);
  }

  /** The first piece is the leading delimiter or the leading plain run. */
  lemma SplitParagraphCons(s: string, n: nat)
    requires |s| > 0 && n == if IsDelimiter(s[0]) then 1 else PlainRunLen(s)
    ensures SplitParagraph(s) == [s[..n]] + SplitParagraph(s[n..])
  {
  }

  lemma NoDelimiterInTail(s: string, n: nat, b: int, e: int)
    requires n <= b && NoDelimiterIn(s, b, e)
    ensures NoDelimiterIn(s[n..], b - n, e - n)
  {
    forall k | b - n <= k < e - n
      ensures !IsDelimiter(s[n..][k])
    {
      assert s[n..][k] == s[k + n];
    }
  }

  /** The split of every paragraph, in order (`sents += …` over `text_masked`). */
  function SplitAll(ps: seq<string>): (r: seq<string>)
    ensures Flatten(r) == Flatten(ps)
    ensures forall j :: 0 <= j < |r| ==> SplitPiece(r[j])
  {
    if |ps| == 0 then []
    else
      var head := SplitParagraph(ps[0]);
      var rest := SplitAll(ps[1..]);
      FlattenAppend(head, rest);
      assert forall j :: |head| <= j < |head + rest| ==> (head + rest)[j] == rest[j - |head|];
      head + rest
  }

  /** A delimiter-free span inside one paragraph ends up inside one sentence. */
  lemma {:induction false} SplitAllCovers(ps: seq<string>, b: int, e: int)
    requires Covered(ps, b, e) && b < e && NoDelimiterIn(Flatten(ps), b, e)
    ensures Covered(SplitAll(ps), b, e)
    decreases |ps|, 1
  {
    var j: nat :| j < |ps| && Covers(ps, j, b, e);
    if j == 0 {
      assert Off(ps, 0) == 0 by { assert ps[..0] == []; }
      NoDelimiterInLeft(ps[0], Flatten(ps[1..]), b, e);
      SplitCoversPlain(ps[0], b, e);
      CoveredPrefix(SplitParagraph(ps[0]), SplitAll(ps[1..]), b, e);
    } else {
      SplitAllCoversLater(ps, j, b, e);
    }
  }

  lemma {:induction false} SplitAllCoversLater(ps: seq<string>, j: nat, b: int, e: int)
    requires 0 < j < |ps| && Covers(ps, j, b, e) && b < e && NoDelimiterIn(Flatten(ps), b, e)
    ensures Covered(SplitAll(ps), b, e)
    decreases |ps|, 0
  {
    var h := |ps[0]|;
    assert ps == [ps[0]] + ps[1..];
    FlattenSingle(ps[0]);
    OffShift([ps[0]], ps[1..], j - 1);
    assert ps[1..][j - 1] == ps[j];
    assert Covers(ps[1..], j - 1, b - h, e - h);
    NoDelimiterInRight(ps[0], Flatten(ps[1..]), b, e);
    SplitAllCovers(ps[1..], b - h, e - h);
    CoveredShift(SplitParagraph(ps[0]), SplitAll(ps[1..]), b, e, h);
  }

  lemma NoDelimiterInLeft(a: string, c: string, b: int, e: int)
    requires NoDelimiterIn(a + c, b, e) && e <= |a|
    ensures NoDelimiterIn(a, b, e)
  {
    forall k | b <= k < e
      ensures !IsDelimiter(a[k])
    {
      assert (a + c)[k] == a[k];
    }
  }

  lemma NoDelimiterInRight(a: string, c: string, b: int, e: int)
    requires NoDelimiterIn(a + c, b, e) && |a| <= b
    ensures NoDelimiterIn(c, b - |a|, e - |a|)
  {
    forall k | b - |a| <= k < e - |a|
      ensures !IsDelimiter(c[k])
    {
      assert (a + c)[k + |a|] == c[k];
    }
  }

  /** A paragraph without delimiters is one piece, or none when it is empty. */
  lemma SplitParagraphPlain(s: string)
    requires NoDelimiter(s)
    ensures SplitParagraph(s) == if |s| == 0 then [] else [s]
  {
    if |s| > 0 {
      var n := PlainRunLen(s);
      assert s[..n] == s;
      assert s[n..] == [];
    }
  }

  /** Paragraphs without delimiters split into their non-empty members. */
  lemma {:induction false} SplitAllPlain(ps: seq<string>)
    requires forall i :: 0 <= i < |ps| ==> NoDelimiter(ps[i])
    ensures SplitAll(ps) == NonEmpty(ps)
    decreases |ps|
  {
    if |ps| > 0 {
      SplitParagraphPlain(ps[0]);
      SplitAllPlain(ps[1..]);
    }
  }
}
