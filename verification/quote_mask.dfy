/**
 * `__mask_delimiter`: inside every 「…」 region that holds a delimiter, each delimiter
 * run is overwritten with '#' characters and recorded with its global span.
 *
 * The region pattern is `「[^「|^」]*?([…]+)[^「|^」]*?」`. Neither the interior class
 * nor the delimiter class contains a bracket, so a match that starts at a '「' can
 * only end at the first bracket after it, and only when that bracket is '」'; the
 * lazy quantifiers change nothing about where a match lies. As a consequence two
 * matches never overlap, and the scanner below finds every match in the paragraph.
 */
module QuoteMask {
  import opened Chars
  import opened Masking
  import opened TextSeq

  predicate AllInner(t: string)
  {
    forall k :: 0 <= k < |t| ==> IsQuoteInner(t[k])
  }

  predicate AllMaskDelims(t: string)
  {
    forall k :: 0 <= k < |t| ==> IsMaskDelimiter(t[k])
  }

  /** The text between the brackets: interior characters, a delimiter run, interior characters. */
  predicate QuoteBody(t: string)
  {
    exists a, c | 0 <= a < |t| && a < c <= |t| ::
      AllInner(t[..a]) && AllMaskDelims(t[a..c]) && AllInner(t[c..])
  }

  /** s[p..e] is a match of the quote pattern. */
  predicate IsQuoteMatch(s: string, p: int, e: int)
  {
    0 <= p && p + 2 <= e <= |s| && s[p] == '「' && s[e - 1] == '」' && QuoteBody(s[p + 1..e - 1])
  }

  /** Position k lies strictly between the brackets of some match. */
  ghost predicate InQuote(s: string, k: int)
  {
    exists p, e :: IsQuoteMatch(s, p, e) && p < k < e - 1
  }

  lemma QuoteBodyHasNoBracket(t: string, k: int)
    requires QuoteBody(t) && 0 <= k < |t|
    ensures !IsBracket(t[k])
  {
    var a, c :| 0 <= a < |t| && a < c <= |t| && AllInner(t[..a]) && AllMaskDelims(t[a..c]) && AllInner(t[c..]);
    if k < a {
      assert IsQuoteInner(t[..a][k]);
    } else if k < c {
      assert IsMaskDelimiter(t[a..c][k - a]);
    } else {
      assert IsQuoteInner(t[c..][k - c]);
    }
  }

  /** Inside a match, only the two ends are brackets. */
  lemma MatchInterior(s: string, p: int, e: int, k: int)
    requires IsQuoteMatch(s, p, e) && p < k < e - 1
    ensures !IsBracket(s[k])
  {
    QuoteBodyHasNoBracket(s[p + 1..e - 1], k - p - 1);
  }

  /** First index at or after j holding a bracket, or |s|. */
  function NextBracket(s: string, j: nat): (q: nat)
    requires j <= |s|
    ensures j <= q <= |s|
    ensures forall k :: j <= k < q ==> !IsBracket(s[k])
    ensures q < |s| ==> IsBracket(s[q])
    decreases |s| - j
  {
    if j == |s| || IsBracket(s[j]) then j else NextBracket(s, j + 1)
  }

  /** A match that starts at i ends just after the first bracket that follows i. */
  lemma MatchEnds(s: string, i: nat)
    requires i < |s|
    ensures forall e :: IsQuoteMatch(s, i, e) ==> NextBracket(s, i + 1) == e - 1
  {
    forall e | IsQuoteMatch(s, i, e)
      ensures NextBracket(s, i + 1) == e - 1
    {
      var q := NextBracket(s, i + 1);
      if q < e - 1 {
        MatchInterior(s, i, e, q);
      }
    }
  }

  /** Where the match starting at i ends, if the pattern matches at i. */
  function MatchAt(s: string, i: nat): (r: Option<nat>)
    requires i < |s|
    ensures r.Some? ==> IsQuoteMatch(s, i, r.value)
    ensures r.Some? ==> forall e :: IsQuoteMatch(s, i, e) ==> e == r.value
    ensures r.None? ==> forall e :: !IsQuoteMatch(s, i, e)
  {
    MatchEnds(s, i);
    if s[i] != '「' then None
    else
      var q := NextBracket(s, i + 1);
      if q < |s| && s[q] == '」' && QuoteBody(s[i + 1..q]) then Some(q + 1) else None
  }

  /** `p1.finditer(par)` from position i: the spans [p, e) of the matches, in text order. */
  function QuoteMatches(s: string, i: nat): (ms: seq<Span>)
    requires i <= |s|
    ensures forall j :: 0 <= j < |ms| ==> i <= ms[j].begin && IsQuoteMatch(s, ms[j].begin, ms[j].end)
    decreases |s| - i
  {
    if i == |s| then []
    else
      match MatchAt(s, i)
      case Some(e) => [Span(i, e)] + QuoteMatches(s, e)
      case None => QuoteMatches(s, i + 1)
  }

  /** The scanner misses no match: every match at or after i is listed. */
  lemma {:induction false} QuoteMatchesComplete(s: string, i: nat, p: int, e: int)
    requires i <= |s| && i <= p && IsQuoteMatch(s, p, e)
    ensures Span(p, e) in QuoteMatches(s, i)
    decreases |s| - i
  {
    if i < |s| {
      match MatchAt(s, i)
      case Some(e0) =>
        if p != i {
          if p < e0 - 1 {
            MatchInterior(s, i, e0, p);
          }
          QuoteMatchesComplete(s, e0, p, e);
        }
      case None =>
        QuoteMatchesComplete(s, i + 1, p, e);
    }
  }

  /** End of the delimiter run starting at i (i itself when g[i] is no delimiter). */
  function RunEnd(g: string, i: nat): (j: nat)
    requires i <= |g|
    ensures i <= j <= |g|
    ensures forall k :: i <= k < j ==> IsMaskDelimiter(g[k])
    ensures j == |g| || !IsMaskDelimiter(g[j])
    decreases |g| - i
  {
    if i < |g| && IsMaskDelimiter(g[i]) then RunEnd(g, i + 1) else i
  }

  /**
   * rs is what a greedy `[…]+` finditer reports on g from position i: non-empty runs,
   * each maximal, together covering exactly the delimiters at or after i.
   */
  ghost predicate ExactRuns(g: string, i: nat, rs: seq<Span>)
  {
    && (forall j :: 0 <= j < |rs| ==> i <= rs[j].begin < rs[j].end <= |g|)
    && (forall j :: 0 <= j < |rs| ==> rs[j].end == |g| || !IsMaskDelimiter(g[rs[j].end]))
    && (forall j :: 0 <= j < |rs| ==> rs[j].begin == i || !IsMaskDelimiter(g[rs[j].begin - 1]))
    && (forall k :: i <= k < |g| ==> (InSpans(rs, k) <==> IsMaskDelimiter(g[k])))
  }

  lemma InSpansCons(sp: Span, rest: seq<Span>, k: int)
    ensures InSpans([sp] + rest, k) <==> sp.Contains(k) || InSpans(rest, k)
  {
    InSpansAppend([sp], rest, k);
    assert InSpans([sp], k) <==> sp.Contains(k) by {
      if sp.Contains(k) { assert [sp][0].Contains(k); }
    }
  }

  lemma DelimRunsTake(g: string, i: nat, rest: seq<Span>)
    requires i < |g| && IsMaskDelimiter(g[i]) && ExactRuns(g, RunEnd(g, i), rest)
    ensures ExactRuns(g, i, [Span(i, RunEnd(g, i))] + rest)
  {
    var j := RunEnd(g, i);
    var rs := [Span(i, j)] + rest;
    forall k | i <= k < |g|
      ensures InSpans(rs, k) <==> IsMaskDelimiter(g[k])
    {
      InSpansCons(Span(i, j), rest, k);
      if k < j {
        if !InSpans(rest, k) { assert Span(i, j).Contains(k); }
      } else {
        assert !Span(i, j).Contains(k);
      }
    }
    forall t | 0 <= t < |rest|
      ensures rest[t].begin != j
    {
      assert rest[t].Contains(rest[t].begin);
    }
    assert forall t :: 1 <= t < |rs| ==> rs[t] == rest[t - 1];
  }

  lemma DelimRunsSkip(g: string, i: nat, rest: seq<Span>)
    requires i < |g| && !IsMaskDelimiter(g[i]) && ExactRuns(g, i + 1, rest)
    ensures ExactRuns(g, i, rest)
  {
  }

  /** `p2.finditer(group)` from position i: the maximal delimiter runs, in text order. */
  function DelimRuns(g: string, i: nat): (rs: seq<Span>)
    requires i <= |g|
    ensures ExactRuns(g, i, rs)
    decreases |g| - i
  {
    if i == |g| then []
    else if IsMaskDelimiter(g[i]) then
      var rest := DelimRuns(g, RunEnd(g, i));
      DelimRunsTake(g, i, rest);
      [Span(i, RunEnd(g, i))] + rest
    else
      var rest := DelimRuns(g, i + 1);
      DelimRunsSkip(g, i, rest);
      rest
  }

  /** Every span lies within [lo, hi) and is non-empty. */
  predicate SpansBetween(spans: seq<Span>, lo: int, hi: int)
  {
    forall j :: 0 <= j < |spans| ==> lo <= spans[j].begin < spans[j].end <= hi
  }

  predicate AllMatches(s: string, ms: seq<Span>)
  {
    forall j :: 0 <= j < |ms| ==> IsQuoteMatch(s, ms[j].begin, ms[j].end)
  }

  /** The runs of one match, in paragraph coordinates: exactly its interior delimiters. */
  function MatchRuns(s: string, m: Span): (rs: seq<Span>)
    requires IsQuoteMatch(s, m.begin, m.end)
    ensures SpansBetween(rs, m.begin + 1, m.end - 1)
    ensures forall k :: InSpans(rs, k) <==> m.begin < k < m.end - 1 && IsMaskDelimiter(s[k])
  {
    var g := s[m.begin..m.end];
    var local := DelimRuns(g, 0);
    MatchRunsExact(s, m, local);
    Shift(local, m.begin)
  }

  lemma MatchRunsExact(s: string, m: Span, local: seq<Span>)
    requires IsQuoteMatch(s, m.begin, m.end)
    requires ExactRuns(s[m.begin..m.end], 0, local)
    ensures SpansBetween(Shift(local, m.begin), m.begin + 1, m.end - 1)
    ensures forall k :: InSpans(Shift(local, m.begin), k) <==> m.begin < k < m.end - 1 && IsMaskDelimiter(s[k])
  {
    LocalRunsInside(s[m.begin..m.end], local);
    forall k
      ensures InSpans(Shift(local, m.begin), k) <==> m.begin < k < m.end - 1 && IsMaskDelimiter(s[k])
    {
      MatchRunsAt(s, m, local, k);
    }
  }

  /** The brackets at both ends of a match are no delimiters, so no run touches them. */
  lemma LocalRunsInside(g: string, local: seq<Span>)
    requires |g| >= 2 && g[0] == '「' && g[|g| - 1] == '」'
    requires ExactRuns(g, 0, local)
    ensures SpansBetween(local, 1, |g| - 1)
  {
    forall j | 0 <= j < |local|
      ensures 0 < local[j].begin && local[j].end < |g|
    {
      assert local[j].Contains(local[j].begin);
      assert local[j].Contains(local[j].end - 1);
    }
  }

  lemma MatchRunsAt(s: string, m: Span, local: seq<Span>, k: int)
    requires IsQuoteMatch(s, m.begin, m.end)
    requires ExactRuns(s[m.begin..m.end], 0, local)
    requires SpansBetween(local, 1, m.end - m.begin - 1)
    ensures InSpans(Shift(local, m.begin), k) <==> m.begin < k < m.end - 1 && IsMaskDelimiter(s[k])
  {
    var g := s[m.begin..m.end];
    InSpansShift(local, m.begin, k - m.begin);
    if InSpans(local, k - m.begin) {
      var t :| 0 <= t < |local| && local[t].Contains(k - m.begin);
    }
    if 0 <= k - m.begin < |g| {
      assert g[k - m.begin] == s[k];
    }
  }

  /** Position k lies strictly inside one of the listed matches. */
  ghost predicate InListed(ms: seq<Span>, k: int)
  {
    exists j :: 0 <= j < |ms| && ms[j].begin < k < ms[j].end - 1
  }

  /** All runs of all listed matches, in text order (the two nested loops of `__mask_delimiter`). */
  function RunsIn(s: string, ms: seq<Span>): (rs: seq<Span>)
    requires AllMatches(s, ms)
    ensures SpansBetween(rs, 0, |s|)
    ensures forall k :: InSpans(rs, k) <==> InListed(ms, k) && 0 <= k < |s| && IsMaskDelimiter(s[k])
  {
    if |ms| == 0 then []
    else
      var head := MatchRuns(s, ms[0]);
      var rest := RunsIn(s, ms[1..]);
      RunsInStep(s, ms, head, rest);
      head + rest
  }

  lemma RunsInStep(s: string, ms: seq<Span>, head: seq<Span>, rest: seq<Span>)
    requires AllMatches(s, ms) && |ms| > 0
    requires SpansBetween(head, ms[0].begin + 1, ms[0].end - 1)
    requires forall k :: InSpans(head, k) <==> ms[0].begin < k < ms[0].end - 1 && IsMaskDelimiter(s[k])
    requires SpansBetween(rest, 0, |s|)
    requires forall k :: InSpans(rest, k) <==> InListed(ms[1..], k) && 0 <= k < |s| && IsMaskDelimiter(s[k])
    ensures SpansBetween(head + rest, 0, |s|)
    ensures forall k :: InSpans(head + rest, k) <==> InListed(ms, k) && 0 <= k < |s| && IsMaskDelimiter(s[k])
  {
    forall k
      ensures InSpans(head + rest, k) <==> InListed(ms, k) && 0 <= k < |s| && IsMaskDelimiter(s[k])
    {
      InSpansAppend(head, rest, k);
      if InListed(ms, k) {
        var j :| 0 <= j < |ms| && ms[j].begin < k < ms[j].end - 1;
        if j > 0 { assert ms[1..][j - 1] == ms[j]; }
      }
      if InListed(ms[1..], k) {
        var j :| 0 <= j < |ms[1..]| && ms[1..][j].begin < k < ms[1..][j].end - 1;
        assert ms[j + 1] == ms[1..][j];
      }
    }
  }

  /** The local spans that `__mask_delimiter` masks in paragraph s. */
  function ParagraphRuns(s: string): (rs: seq<Span>)
    ensures SpansBetween(rs, 0, |s|)
    ensures forall k :: InSpans(rs, k) <==> InQuote(s, k) && 0 <= k < |s| && IsMaskDelimiter(s[k])
  {
    var ms := QuoteMatches(s, 0);
    ListedIsInQuote(s, ms);
    RunsIn(s, ms)
  }

  /** Being inside a listed match is being inside some match, because the list is complete. */
  lemma ListedIsInQuote(s: string, ms: seq<Span>)
    requires ms == QuoteMatches(s, 0)
    ensures forall k :: InListed(ms, k) <==> InQuote(s, k)
  {
    forall k
      ensures InListed(ms, k) <==> InQuote(s, k)
    {
      if InListed(ms, k) {
        var j :| 0 <= j < |ms| && ms[j].begin < k < ms[j].end - 1;
        assert IsQuoteMatch(s, ms[j].begin, ms[j].end);
      }
      if InQuote(s, k) {
        var p, e :| IsQuoteMatch(s, p, e) && p < k < e - 1;
        QuoteMatchesComplete(s, 0, p, e);
        var j :| 0 <= j < |ms| && ms[j] == Span(p, e);
      }
    }
  }

  predicate SpansWithin(spans: seq<Span>, n: nat)
  {
    forall j :: 0 <= j < |spans| ==> spans[j].Valid() && spans[j].end <= n
  }

  /** `par = __mask(par, local_span)` for each run in turn. */
  function MaskRuns(s: string, spans: seq<Span>): (r: string)
    requires SpansWithin(spans, |s|)
    ensures |r| == |s|
    ensures forall k :: 0 <= k < |s| ==> r[k] == if InSpans(spans, k) then MaskChar else s[k]
    decreases |spans|
  {
    if |spans| == 0 then s
    else
      var r := MaskRuns(Mask(s, spans[0]), spans[1..]);
      assert forall k :: 0 <= k < |s| ==> r[k] == if InSpans(spans, k) then MaskChar else s[k] by {
        forall k | 0 <= k < |s|
          ensures r[k] == if InSpans(spans, k) then MaskChar else s[k]
        {
          assert spans == [spans[0]] + spans[1..];
          InSpansCons(spans[0], spans[1..], k);
        }
      }
      r
  }

  /** The records of one paragraph: global span (local span moved by l) and original run. */
  function RecordsOf(s: string, runs: seq<Span>, l: nat): (recs: seq<MaskRecord>)
    requires SpansWithin(runs, |s|)
    ensures |recs| == |runs| && SpansOf(recs) == Shift(runs, l)
    ensures forall j :: 0 <= j < |recs| ==> recs[j].token == s[runs[j].begin..runs[j].end]
  {
    seq(|runs|, j requires 0 <= j < |runs| =>
      MaskRecord(Span(runs[j].begin + l, runs[j].end + l), s[runs[j].begin..runs[j].end]))
  }

  /**
   * A record made for a paragraph s at offset l whose masked text is m: a non-empty span
   * inside the paragraph, holding the original run, now all MaskChar.
   */
  ghost predicate ValidRecord(r: MaskRecord, s: string, m: string, l: int)
  {
    && l <= r.span.begin < r.span.end <= l + |s|
    && |s| == |m|
    && |r.token| == r.span.end - r.span.begin
    && r.token == s[r.span.begin - l..r.span.end - l]
    && forall k :: r.span.begin - l <= k < r.span.end - l ==> m[k] == MaskChar
  }

  /** The body of the paragraph loop of `__mask_delimiter` for one paragraph at global offset l. */
  function MaskParagraph(s: string, l: nat): (r: (string, seq<MaskRecord>))
    ensures |r.0| == |s|
    ensures forall k :: 0 <= k < |s| ==>
      r.0[k] == if InQuote(s, k) && IsMaskDelimiter(s[k]) then MaskChar else s[k]
    ensures forall k :: 0 <= k < |s| ==> (InSpans(SpansOf(r.1), k + l) <==> r.0[k] != s[k])
    ensures SpansBetween(SpansOf(r.1), l, l + |s|)
    ensures forall j :: 0 <= j < |r.1| ==> ValidRecord(r.1[j], s, r.0, l)
  {
    var runs := ParagraphRuns(s);
    var masked := MaskRuns(s, runs);
    var recs := RecordsOf(s, runs, l);
    MaskParagraphFacts(s, l, runs, masked, recs);
    (masked, recs)
  }

  lemma MaskParagraphFacts(s: string, l: nat, runs: seq<Span>, masked: string, recs: seq<MaskRecord>)
    requires runs == ParagraphRuns(s) && masked == MaskRuns(s, runs) && recs == RecordsOf(s, runs, l)
    ensures forall k :: 0 <= k < |s| ==>
      masked[k] == if InQuote(s, k) && IsMaskDelimiter(s[k]) then MaskChar else s[k]
    ensures forall k :: 0 <= k < |s| ==> (InSpans(SpansOf(recs), k + l) <==> masked[k] != s[k])
    ensures SpansBetween(SpansOf(recs), l, l + |s|)
    ensures forall j :: 0 <= j < |recs| ==> ValidRecord(recs[j], s, masked, l)
  {
    forall k | 0 <= k < |s|
      ensures masked[k] == if InQuote(s, k) && IsMaskDelimiter(s[k]) then MaskChar else s[k]
      ensures InSpans(SpansOf(recs), k + l) <==> masked[k] != s[k]
    {
      MaskedAt(s, l, runs, masked, recs, k);
    }
    ShiftBetween(runs, l, |s|);
    forall j | 0 <= j < |recs|
      ensures ValidRecord(recs[j], s, masked, l)
    {
      RecordIsValid(s, l, runs, masked, recs, j);
    }
  }

  lemma MaskedAt(s: string, l: nat, runs: seq<Span>, masked: string, recs: seq<MaskRecord>, k: nat)
    requires runs == ParagraphRuns(s) && masked == MaskRuns(s, runs) && recs == RecordsOf(s, runs, l)
    requires k < |s|
    ensures masked[k] == if InQuote(s, k) && IsMaskDelimiter(s[k]) then MaskChar else s[k]
    ensures InSpans(SpansOf(recs), k + l) <==> masked[k] != s[k]
  {
    var inRun := InSpans(runs, k);
    assert inRun <==> InQuote(s, k) && IsMaskDelimiter(s[k]);
    assert masked[k] == if inRun then MaskChar else s[k];
    assert inRun ==> s[k] != MaskChar;
    InSpansShift(runs, l, k);
  }

  lemma ShiftBetween(spans: seq<Span>, d: nat, n: int)
    requires SpansBetween(spans, 0, n)
    ensures SpansBetween(Shift(spans, d), d, d + n)
  {
  }

  lemma RecordIsValid(s: string, l: nat, runs: seq<Span>, masked: string, recs: seq<MaskRecord>, j: nat)
    requires runs == ParagraphRuns(s) && masked == MaskRuns(s, runs) && recs == RecordsOf(s, runs, l)
    requires j < |recs|
    ensures ValidRecord(recs[j], s, masked, l)
  {
    forall k | runs[j].begin <= k < runs[j].end
      ensures masked[k] == MaskChar
    {
      assert runs[j].Contains(k);
    }
  }
}
