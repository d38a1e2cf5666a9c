/**
 * `__mask_delimiter` over the whole list of paragraphs: each paragraph is masked on
 * its own (see QuoteMask), and the records carry global spans, counted from the start
 * of the first paragraph. Masking keeps every paragraph's length, so a global span
 * means the same position in the text before and after masking.
 */
module DelimiterMask {
  import opened Chars
  import opened Masking
  import opened TextSeq
  import opened QuoteMask

  /**
   * Record r, made while masking text into masked: a non-empty global span inside one
   * paragraph, holding r.token in the original text and only MaskChar in the masked one.
   */
  ghost predicate RecordOk(r: MaskRecord, text: seq<string>, masked: seq<string>)
  {
    && r.span.begin < r.span.end <= |Flatten(text)|
    && |Flatten(masked)| == |Flatten(text)|
    && |r.token| == r.span.end - r.span.begin
    && Flatten(text)[r.span.begin..r.span.end] == r.token
    && Covered(text, r.span.begin, r.span.end)
    && forall k :: r.span.begin <= k < r.span.end ==> Flatten(masked)[k] == MaskChar
  }

  /** What masking does to paragraph i: delimiters strictly inside a quote match become MaskChar. */
  ghost predicate MaskedParagraphs(text: seq<string>, masked: seq<string>)
  {
    && SameShape(text, masked)
    && forall i, k :: 0 <= i < |text| && 0 <= k < |text[i]| ==>
         masked[i][k] == if InQuote(text[i], k) && IsMaskDelimiter(text[i][k]) then MaskChar else text[i][k]
  }

  /** The records account for exactly the positions that masking changed. */
  ghost predicate RecordsExact(text: seq<string>, masked: seq<string>, recs: seq<MaskRecord>)
  {
    && |Flatten(masked)| == |Flatten(text)|
    && (forall j :: 0 <= j < |recs| ==> RecordOk(recs[j], text, masked))
    && forall k :: 0 <= k < |Flatten(text)| ==>
         (InSpans(SpansOf(recs), k) <==> Flatten(masked)[k] != Flatten(text)[k])
  }

  /** The paragraph loop of `__mask_delimiter`, records in the order it appends them. */
  function MaskAll(text: seq<string>): (r: (seq<string>, seq<MaskRecord>))
    ensures MaskedParagraphs(text, r.0)
    ensures RecordsExact(text, r.0, r.1)
    decreases |text|
  {
    if |text| == 0 then ([], [])
    else
      var init := text[..|text| - 1];
      var last := text[|text| - 1];
      var (m, recs) := MaskAll(init);
      var (p, more) := MaskParagraph(last, |Flatten(init)|);
      MaskAllStep(init, last, m, recs, p, more);
      assert init + [last] == text;
      (m + [p], recs + more)
  }

  lemma MaskAllStep(init: seq<string>, last: string, m: seq<string>, recs: seq<MaskRecord>,
                    p: string, more: seq<MaskRecord>)
    requires MaskedParagraphs(init, m) && RecordsExact(init, m, recs)
    requires (p, more) == MaskParagraph(last, |Flatten(init)|)
    ensures MaskedParagraphs(init + [last], m + [p])
    ensures RecordsExact(init + [last], m + [p], recs + more)
  {
    FlattenSnoc(init, last);
    FlattenSnoc(m, p);
    MaskedParagraphsSnoc(init, last, m, p);
    forall j | 0 <= j < |recs + more|
      ensures RecordOk((recs + more)[j], init + [last], m + [p])
    {
      if j < |recs| {
        OldRecordOk(init, last, m, p, recs[j]);
      } else {
        assert (recs + more)[j] == more[j - |recs|];
        NewRecordOk(init, last, m, p, more[j - |recs|]);
      }
    }
    forall k | 0 <= k < |Flatten(init + [last])|
      ensures InSpans(SpansOf(recs + more), k) <==> Flatten(m + [p])[k] != Flatten(init + [last])[k]
    {
      ChangedAt(init, last, m, recs, p, more, k);
    }
  }

  lemma MaskedParagraphsSnoc(init: seq<string>, last: string, m: seq<string>, p: string)
    requires MaskedParagraphs(init, m) && |p| == |last|
    requires forall k :: 0 <= k < |last| ==>
      p[k] == if InQuote(last, k) && IsMaskDelimiter(last[k]) then MaskChar else last[k]
    ensures MaskedParagraphs(init + [last], m + [p])
  {
    var text, masked := init + [last], m + [p];
    forall i, k | 0 <= i < |text| && 0 <= k < |text[i]|
      ensures masked[i][k] == if InQuote(text[i], k) && IsMaskDelimiter(text[i][k]) then MaskChar else text[i][k]
    {
      if i < |init| { assert text[i] == init[i] && masked[i] == m[i]; }
    }
  }

  /** Position k changed exactly when some record, old or new, contains it. */
  lemma ChangedAt(init: seq<string>, last: string, m: seq<string>, recs: seq<MaskRecord>,
                  p: string, more: seq<MaskRecord>, k: int)
    requires RecordsExact(init, m, recs) && |p| == |last|
    requires forall i :: 0 <= i < |last| ==> (InSpans(SpansOf(more), i + |Flatten(init)|) <==> p[i] != last[i])
    requires SpansBetween(SpansOf(more), |Flatten(init)|, |Flatten(init)| + |last|)
    requires Flatten(init + [last]) == Flatten(init) + last && Flatten(m + [p]) == Flatten(m) + p
    requires 0 <= k < |Flatten(init + [last])|
    ensures InSpans(SpansOf(recs + more), k) <==> Flatten(m + [p])[k] != Flatten(init + [last])[k]
  {
    var L := |Flatten(init)|;
    SpansOfAppend(recs, more);
    InSpansAppend(SpansOf(recs), SpansOf(more), k);
    if k >= L {
      assert InSpans(SpansOf(more), (k - L) + L) <==> p[k - L] != last[k - L];
      assert Flatten(init + [last])[k] == last[k - L];
      assert Flatten(m + [p])[k] == p[k - L];
      forall j | 0 <= j < |recs|
        ensures !SpansOf(recs)[j].Contains(k)
      {
        assert RecordOk(recs[j], init, m);
      }
    } else {
      assert Flatten(init + [last])[k] == Flatten(init)[k];
      assert Flatten(m + [p])[k] == Flatten(m)[k];
      forall j | 0 <= j < |more|
        ensures !SpansOf(more)[j].Contains(k)
      {
        assert L <= more[j].span.begin;
      }
    }
  }

  /** A record of an earlier paragraph stays valid when a paragraph is appended. */
  lemma OldRecordOk(init: seq<string>, last: string, m: seq<string>, p: string, r: MaskRecord)
    requires RecordOk(r, init, m) && |p| == |last|
    ensures RecordOk(r, init + [last], m + [p])
  {
    FlattenSnoc(init, last);
    FlattenSnoc(m, p);
    CoveredPrefix(init, [last], r.span.begin, r.span.end);
    var T := Flatten(init + [last]);
    assert T[r.span.begin..r.span.end] == Flatten(init)[r.span.begin..r.span.end];
    forall k | r.span.begin <= k < r.span.end
      ensures Flatten(m + [p])[k] == MaskChar
    {
      assert Flatten(m + [p])[k] == Flatten(m)[k];
    }
  }

  /** A record of the appended paragraph, moved by the earlier paragraphs' length, is valid. */
  lemma NewRecordOk(init: seq<string>, last: string, m: seq<string>, p: string, r: MaskRecord)
    requires |Flatten(m)| == |Flatten(init)| && |p| == |last|
    requires ValidRecord(r, last, p, |Flatten(init)|)
    ensures RecordOk(r, init + [last], m + [p])
  {
    var b, e := r.span.begin, r.span.end;
    FlattenSnoc(init, last);
    FlattenSnoc(m, p);
    SliceOfRight(Flatten(init), last, b, e);
    LastCoversLocal(init, last, b, e);
    AllMaskedOnRight(Flatten(m), p, b, e);
  }

  lemma SliceOfRight(a: string, c: string, i: nat, j: nat)
    requires |a| <= i <= j <= |a| + |c|
    ensures (a + c)[i..j] == c[i - |a|..j - |a|]
  {
  }

  lemma AllMaskedOnRight(a: string, c: string, i: int, j: int)
    requires |a| <= i && j <= |a| + |c|
    requires forall k :: i - |a| <= k < j - |a| ==> c[k] == MaskChar
    ensures forall k :: i <= k < j ==> (a + c)[k] == MaskChar
  {
    forall k | i <= k < j
      ensures (a + c)[k] == MaskChar
    {
      assert (a + c)[k] == c[k - |a|];
    }
  }

  /** A span inside the appended entry is covered by it. */
  lemma LastCoversLocal(init: seq<string>, last: string, b: int, e: int)
    requires |Flatten(init)| <= b && e <= |Flatten(init)| + |last|
    ensures Covered(init + [last], b, e)
  {
    OffPrefix(init, [last], |init|);
    OffAll(init);
    assert (init + [last])[|init|] == last;
    assert Covers(init + [last], |init|, b, e);
  }

  /**
   * `__mask_delimiter(text)`: the masked paragraphs, and the records, or None when
   * nothing was masked.
   */
  function MaskDelimiters(text: seq<string>): (r: (seq<string>, Option<seq<MaskRecord>>))
    ensures MaskedParagraphs(text, r.0)
    ensures r.1.None? <==> r.0 == text
    ensures r.1.Some? ==> |r.1.value| > 0 && RecordsExact(text, r.0, r.1.value)
  {
    var (masked, recs) := MaskAll(text);
    NothingMaskedIffNoRecord(text, masked, recs);
    (masked, if recs == [] then None else Some(recs))
  }

  lemma NothingMaskedIffNoRecord(text: seq<string>, masked: seq<string>, recs: seq<MaskRecord>)
    requires MaskedParagraphs(text, masked) && RecordsExact(text, masked, recs)
    ensures recs == [] <==> masked == text
  {
    if recs != [] {
      var b := recs[0].span.begin;
      assert RecordOk(recs[0], text, masked);
      assert SpansOf(recs)[0].Contains(b);
      assert InSpans(SpansOf(recs), b);
      assert Flatten(masked)[b] != Flatten(text)[b];
    } else if masked != text {
      var i :| 0 <= i < |text| && masked[i] != text[i];
      var g := ChangedParagraphChangesText(text, masked, i);
    }
  }

  /** A paragraph that masking changed changes the concatenated text. */
  lemma ChangedParagraphChangesText(text: seq<string>, masked: seq<string>, i: nat) returns (g: nat)
    requires SameShape(text, masked) && i < |text| && masked[i] != text[i]
    ensures g < |Flatten(text)| && g < |Flatten(masked)| && Flatten(masked)[g] != Flatten(text)[g]
  {
    var t, m := text[i], masked[i];
    assert |m| == |t|;
    var k :| 0 <= k < |t| && m[k] != t[k];
    var o := Off(text, i);
    SameShapeOff(text, masked, i);
    FlattenAround(text, i);
    FlattenAround(masked, i);
    g := o + k;
    var T, M := Flatten(text), Flatten(masked);
    assert T == Flatten(text[..i]) + t + Flatten(text[i + 1..]);
    assert T[g] == t[k];
    assert M == Flatten(masked[..i]) + m + Flatten(masked[i + 1..]);
    assert M[g] == m[k];
  }

  /** After masking, no mask delimiter is left strictly inside any quote match of the original. */
  lemma QuoteProtection(text: seq<string>, i: nat, k: nat)
    requires i < |text| && k < |text[i]| && InQuote(text[i], k)
    ensures !IsMaskDelimiter(MaskDelimiters(text).0[i][k])
  {
    var masked := MaskDelimiters(text).0;
    assert masked[i][k] == if IsMaskDelimiter(text[i][k]) then MaskChar else text[i][k];
  }
}
