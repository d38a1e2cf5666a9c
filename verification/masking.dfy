/**
 * Spans, mask records, and the two in-place rewrites `__mask` and `__demask` of
 * lib/text_processor.py. Both keep the text outside the span; masking keeps the
 * length, which is what keeps previously computed offsets valid.
 */
module Masking {
  import opened Chars

  /** A half-open character interval [begin, end). */
  datatype Span = Span(begin: nat, end: nat)
  {
    predicate Valid() { begin <= end }
    function Len(): nat requires Valid() { end - begin }
    predicate Contains(k: int) { begin <= k < end }
  }

  /** A masked delimiter run: its global span and the characters it held. */
  datatype MaskRecord = MaskRecord(span: Span, token: string)

  /** Some span of the list contains position k. */
  predicate InSpans(spans: seq<Span>, k: int)
  {
    exists j | 0 <= j < |spans| :: spans[j].Contains(k)
  }

  /** Every span moved right by d. */
  function Shift(spans: seq<Span>, d: nat): (r: seq<Span>)
    ensures |r| == |spans|
    ensures forall j :: 0 <= j < |r| ==> r[j] == Span(spans[j].begin + d, spans[j].end + d)
  {
    seq(|spans|, j requires 0 <= j < |spans| => Span(spans[j].begin + d, spans[j].end + d))
  }

  /** The spans of a list of records. */
  function SpansOf(recs: seq<MaskRecord>): (r: seq<Span>)
    ensures |r| == |recs| && forall j :: 0 <= j < |r| ==> r[j] == recs[j].span
  {
    seq(|recs|, j requires 0 <= j < |recs| => recs[j].span)
  }

  lemma InSpansAppend(a: seq<Span>, b: seq<Span>, k: int)
    ensures InSpans(a + b, k) <==> InSpans(a, k) || InSpans(b, k)
  {
    if InSpans(a + b, k) {
      var j :| 0 <= j < |a + b| && (a + b)[j].Contains(k);
      if j >= |a| {
        assert b[j - |a|].Contains(k);
      }
    }
    if InSpans(b, k) {
      var j :| 0 <= j < |b| && b[j].Contains(k);
      assert (a + b)[|a| + j] == b[j];
    }
    if InSpans(a, k) {
      var j :| 0 <= j < |a| && a[j].Contains(k);
      assert (a + b)[j] == a[j];
    }
  }

  lemma InSpansShift(spans: seq<Span>, d: nat, k: int)
    ensures InSpans(Shift(spans, d), k + d) <==> InSpans(spans, k)
  {
    if InSpans(spans, k) {
      var j :| 0 <= j < |spans| && spans[j].Contains(k);
      assert Shift(spans, d)[j].Contains(k + d);
    }
  }

  lemma SpansOfAppend(a: seq<MaskRecord>, b: seq<MaskRecord>)
    ensures SpansOf(a + b) == SpansOf(a) + SpansOf(b)
  {
  }

  /** n copies of c. */
  function Repeat(c: char, n: nat): (r: string)
    ensures |r| == n && forall k :: 0 <= k < n ==> r[k] == c
  {
    seq(n, _ => c)
  }

  /** `__mask(text, span)`: overwrite the span with MaskChar. */
  function Mask(text: string, span: Span): (r: string)
    requires span.Valid() && span.end <= |text|
    ensures |r| == |text|
    ensures forall k :: 0 <= k < |r| ==> r[k] == if span.Contains(k) then MaskChar else text[k]
  {
    text[..span.begin] + Repeat(MaskChar, span.end - span.begin) + text[span.end..]
  }

  /** `__demask(text, span, tokens)`: put `tokens` in place of the span. */
  function Demask(text: string, span: Span, tokens: string): (r: string)
    requires span.Valid() && span.end <= |text|
    ensures |r| == |text| - span.Len() + |tokens|
    ensures r[..span.begin] == text[..span.begin]
    ensures r[span.begin..span.begin + |tokens|] == tokens
    ensures r[span.begin + |tokens|..] == text[span.end..]
  {
    text[..span.begin] + tokens + text[span.end..]
  }

  /** Masking a span and then restoring the characters it held gives the text back. */
  lemma DemaskMask(text: string, span: Span)
    requires span.Valid() && span.end <= |text|
    ensures Demask(Mask(text, span), span, text[span.begin..span.end]) == text
  {
    var m := Mask(text, span);
    var r := Demask(m, span, text[span.begin..span.end]);
    assert |r| == |text|;
    forall k | 0 <= k < |text|
      ensures r[k] == text[k]
    {
      if k < span.begin {
        assert r[k] == r[..span.begin][k] == m[..span.begin][k];
      } else if k < span.end {
        assert r[k] == r[span.begin..span.end][k - span.begin];
      } else {
        assert r[k] == r[span.end..][k - span.end] == m[span.end..][k - span.end];
      }
    }
  }

  /** Demasking a span with a same-length token keeps the length and the outside. */
  lemma DemaskPointwise(text: string, span: Span, tokens: string, k: int)
    requires span.Valid() && span.end <= |text| && |tokens| == span.Len()
    requires 0 <= k < |text|
    ensures |Demask(text, span, tokens)| == |text|
    ensures Demask(text, span, tokens)[k] == if span.Contains(k) then tokens[k - span.begin] else text[k]
  {
    var r := Demask(text, span, tokens);
    if k < span.begin {
      assert r[k] == r[..span.begin][k];
    } else if k < span.end {
      assert r[k] == r[span.begin..span.begin + |tokens|][k - span.begin];
    } else {
      assert r[k] == r[span.end..][k - span.end];
    }
  }
}
