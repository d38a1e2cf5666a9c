/**
 * `sentenizer(text)`: the steps in the program's order: URL masking, masking of
 * delimiters inside quotes, splitting, merging stray delimiters, restoring the
 * masked runs, dropping alphabet-only sentences, stripping.
 */
module Sentenizer {
  import opened Chars
  import opened TextSeq
  import opened Masking
  import opened UrlMask
  import opened DelimiterMask
  import opened Splitter
  import opened Merge
  import opened Restore
  import opened Cleanup
  import opened QuoteMask

  /** Every record of a masking run has a valid span. */
  lemma RecordSpansValid(text: seq<string>, masked: seq<string>, recs: seq<MaskRecord>)
    requires RecordsExact(text, masked, recs)
    ensures forall j :: 0 <= j < |recs| ==> recs[j].span.Valid()
  {
    forall j | 0 <= j < |recs|
      ensures recs[j].span.Valid()
    {
      assert RecordOk(recs[j], text, masked);
    }
  }

  /**
   * The sentences once the masked runs are restored, before filtering and stripping.
   * Laid end to end they are the URL-masked paragraphs laid end to end, and each keeps
   * the length of the merged sentence it came from.
   */
  function RestoredSentences(text: seq<string>): (r: seq<string>)
    ensures Flatten(r) == Flatten(MaskUrlsAll(text))
    ensures SameShape(r, MergeStray(SplitAll(MaskDelimiters(MaskUrlsAll(text)).0)))
  {
    var urls := MaskUrlsAll(text);
    var (masked, info) := MaskDelimiters(urls);
    var merged := MergeStray(SplitAll(masked));
    MergeStrayFlatten(SplitAll(masked));
    match info
    case None => merged
    case Some(recs) =>
      RecordSpansValid(urls, masked, recs);
      RestoreRecords(urls, masked, recs);
      DemaskDelimiter(merged, recs)
  }

  /**
   * Every masked run lies inside one merged sentence, so restoring the records puts
   * every masked character back and changes no sentence's length.
   */
  lemma RestoreRecords(urls: seq<string>, masked: seq<string>, recs: seq<MaskRecord>)
    requires MaskedParagraphs(urls, masked) && RecordsExact(urls, masked, recs)
    requires forall j :: 0 <= j < |recs| ==> recs[j].span.Valid()
    ensures Flatten(DemaskDelimiter(MergeStray(SplitAll(masked)), recs)) == Flatten(urls)
    ensures SameShape(DemaskDelimiter(MergeStray(SplitAll(masked)), recs), MergeStray(SplitAll(masked)))
  {
    var merged := MergeStray(SplitAll(masked));
    var T := Flatten(urls);
    MergeStrayFlatten(SplitAll(masked));
    forall j | 0 <= j < |recs|
      ensures Covered(merged, recs[j].span.begin, recs[j].span.end)
    {
      RecordSurvivesSplitAndMerge(urls, masked, recs[j]);
    }
    assert RestorableTo(merged, recs, T);
    DemaskDelimiterRestores(merged, recs, T);
  }

  /**
   * `sentenizer(text)`, with `norm` standing for the two z2h calls: every restored
   * sentence that is not alphabet-only comes out stripped, in input order, and nothing else.
   */
  function Sentenize(text: seq<string>, norm: char -> char): (r: seq<string>)
    ensures |r| <= |RestoredSentences(text)|
    ensures forall j :: 0 <= j < |r| ==> Strip(r[j]) == r[j]
    ensures |r| == |KeptIndices(KeepFlags(RestoredSentences(text), norm), 0)|
    ensures forall j :: 0 <= j < |r| ==>
              r[j] == Strip(RestoredSentences(text)[KeptIndices(KeepFlags(RestoredSentences(text), norm), 0)[j]])
    ensures forall i :: 0 <= i < |RestoredSentences(text)| && !IsAlphabetOnly(RestoredSentences(text)[i], norm) ==>
              Strip(RestoredSentences(text)[i]) in r
  {
    CleanSentences(RestoredSentences(text), norm)
  }

  /** A record's span holds only MaskChar after masking, so the split does not cut it. */
  lemma RecordSurvivesSplitAndMerge(urls: seq<string>, masked: seq<string>, r: MaskRecord)
    requires MaskedParagraphs(urls, masked) && RecordOk(r, urls, masked)
    ensures Covered(MergeStray(SplitAll(masked)), r.span.begin, r.span.end)
  {
    SameShapeCovered(urls, masked, r.span.begin, r.span.end);
    forall k | r.span.begin <= k < r.span.end
      ensures !IsDelimiter(Flatten(masked)[k])
    {
      assert Flatten(masked)[k] == MaskChar;
    }
    assert NoDelimiterIn(Flatten(masked), r.span.begin, r.span.end);
    SplitAllCovers(masked, r.span.begin, r.span.end);
    MergeStrayCovers(SplitAll(masked), r.span.begin, r.span.end);
  }

  /** Every quote match of paragraph i, offset by the paragraph's start, lies inside one entry of ys. */
  ghost predicate QuotesCovered(urls: seq<string>, ys: seq<string>)
  {
    forall i, p, e :: 0 <= i < |urls| && IsQuoteMatch(urls[i], p, e) ==> Covered(ys, Off(urls, i) + p, Off(urls, i) + e)
  }

  /**
   * A 「…」 region the quote pattern matches is never cut: after restoring, one sentence
   * holds the whole region, brackets included, however many delimiters it contains.
   */
  lemma QuoteStaysInOneSentence(text: seq<string>)
    ensures QuotesCovered(MaskUrlsAll(text), RestoredSentences(text))
  {
    var merged := MergedShape(text);
    SameShapeSymmetric(RestoredSentences(text), merged);
    SameShapeQuotesCovered(MaskUrlsAll(text), merged, RestoredSentences(text));
  }

  /** Covering quotes depends only on the entries' lengths. */
  lemma SameShapeQuotesCovered(urls: seq<string>, xs: seq<string>, ys: seq<string>)
    requires SameShape(xs, ys) && QuotesCovered(urls, xs)
    ensures QuotesCovered(urls, ys)
  {
    forall i, p, e | 0 <= i < |urls| && IsQuoteMatch(urls[i], p, e)
      ensures Covered(ys, Off(urls, i) + p, Off(urls, i) + e)
    {
      SameShapeCovered(xs, ys, Off(urls, i) + p, Off(urls, i) + e);
    }
  }

  /** The merged sentences before restoring: they cover every quote and have the restored sentences' shape. */
  lemma MergedShape(text: seq<string>) returns (merged: seq<string>)
    ensures SameShape(RestoredSentences(text), merged)
    ensures QuotesCovered(MaskUrlsAll(text), merged)
  {
    var urls := MaskUrlsAll(text);
    var masked := MaskDelimiters(urls).0;
    merged := MergeStray(SplitAll(masked));
    MergedCoversQuotes(urls, masked);
  }

  /** Every quote match survives the split and the merge inside one sentence. */
  lemma MergedCoversQuotes(urls: seq<string>, masked: seq<string>)
    requires MaskedParagraphs(urls, masked)
    ensures QuotesCovered(urls, MergeStray(SplitAll(masked)))
  {
    forall i, p, e | 0 <= i < |urls| && IsQuoteMatch(urls[i], p, e)
      ensures Covered(MergeStray(SplitAll(masked)), Off(urls, i) + p, Off(urls, i) + e)
    {
      QuoteInOneMergedSentence(urls, masked, i, p, e);
    }
  }

  /** The split cuts only at delimiters, and masking left none inside a quote match. */
  lemma QuoteInOneMergedSentence(urls: seq<string>, masked: seq<string>, i: nat, p: int, e: int)
    requires MaskedParagraphs(urls, masked)
    requires i < |urls| && IsQuoteMatch(urls[i], p, e)
    ensures Covered(MergeStray(SplitAll(masked)), Off(urls, i) + p, Off(urls, i) + e)
  {
    var b, e' := Off(urls, i) + p, Off(urls, i) + e;
    QuoteHasNoDelimiterAfterMasking(urls, masked, i, p, e);
    SplitAllCovers(masked, b, e');
    MergeStrayCovers(SplitAll(masked), b, e');
  }

  /** In the masked paragraphs, a quote match of paragraph i is a delimiter-free span inside it. */
  lemma QuoteHasNoDelimiterAfterMasking(urls: seq<string>, masked: seq<string>, i: nat, p: int, e: int)
    requires MaskedParagraphs(urls, masked)
    requires i < |urls| && IsQuoteMatch(urls[i], p, e)
    ensures Covered(masked, Off(urls, i) + p, Off(urls, i) + e)
    ensures p < e && NoDelimiterIn(Flatten(masked), Off(urls, i) + p, Off(urls, i) + e)
  {
    var o := Off(urls, i);
    SameShapeOff(urls, masked, i);
    forall k | o + p <= k < o + e
      ensures k < |Flatten(masked)| && !IsDelimiter(Flatten(masked)[k])
    {
      QuoteCharSurvives(urls, masked, i, p, e, k - o);
      FlattenAt(masked, i, k - o);
    }
    assert |masked[i]| == |urls[i]|;
    FlattenAt(masked, i, e - 1);
    assert Covers(masked, i, o + p, o + e);
  }

  /** Within a quote match, masking leaves no sentence delimiter: brackets stay, runs become MaskChar. */
  lemma QuoteCharSurvives(urls: seq<string>, masked: seq<string>, i: nat, p: int, e: int, k: int)
    requires MaskedParagraphs(urls, masked)
    requires i < |urls| && IsQuoteMatch(urls[i], p, e) && p <= k < e
    ensures k < |masked[i]| && !IsDelimiter(masked[i][k])
  {
    if p < k < e - 1 {
      assert InQuote(urls[i], k);
    }
  }

  /**
   * Without any delimiter in the URL-masked paragraphs, each non-empty paragraph comes
   * out as one sentence of its own (the paragraphs are not joined into one sentence).
   */
  lemma NoDelimiterOnePerParagraph(text: seq<string>)
    requires forall i :: 0 <= i < |MaskUrlsAll(text)| ==> NoDelimiter(MaskUrlsAll(text)[i])
    ensures RestoredSentences(text) == NonEmpty(MaskUrlsAll(text))
  {
    var urls := MaskUrlsAll(text);
    var masked := MaskDelimiters(urls).0;
    forall i | 0 <= i < |masked|
      ensures NoDelimiter(masked[i])
    {
      forall k | 0 <= k < |masked[i]|
        ensures !IsDelimiter(masked[i][k])
      {
        assert masked[i][k] == MaskChar || masked[i][k] == urls[i][k];
      }
    }
    SplitAllPlain(masked);
    forall j | 1 <= j < |NonEmpty(masked)|
      ensures !DelimToken(NonEmpty(masked)[j])
    {
      NonEmptyMembers(masked, j);
    }
    MergeStrayPlain(NonEmpty(masked));
    NonEmptySameShape(masked, urls);
    SameShapeFlattenEqual(RestoredSentences(text), NonEmpty(urls));
  }

  /** Each member of NonEmpty(xs) is a member of xs. */
  lemma {:induction false} NonEmptyMembers(xs: seq<string>, j: nat)
    requires j < |NonEmpty(xs)|
    ensures exists i :: 0 <= i < |xs| && NonEmpty(xs)[j] == xs[i]
    decreases |xs|
  {
    if |xs[0]| == 0 {
      NonEmptyMembers(xs[1..], j);
      var i :| 0 <= i < |xs[1..]| && NonEmpty(xs[1..])[j] == xs[1..][i];
      assert xs[i + 1] == xs[1..][i];
    } else if j > 0 {
      NonEmptyMembers(xs[1..], j - 1);
      var i :| 0 <= i < |xs[1..]| && NonEmpty(xs[1..])[j - 1] == xs[1..][i];
      assert xs[i + 1] == xs[1..][i];
    } else {
      assert NonEmpty(xs)[0] == xs[0];
    }
  }
}
