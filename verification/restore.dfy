/**
 * `demask_delimiter`: each record's original run is written back into the first
 * sentence whose global range contains the record's span. A record that no single
 * sentence contains is dropped without a trace.
 */
module Restore {
  import opened Masking
  import opened TextSeq

  /** The first entry, from i on, whose range contains [b, e); l is the offset of entry i. */
  function LocateFrom(xs: seq<string>, b: int, e: int, i: nat, l: nat): (r: Option<nat>)
    requires i <= |xs| && l == Off(xs, i)
    ensures r.Some? ==> i <= r.value && Covers(xs, r.value, b, e)
    ensures r.Some? ==> forall j :: i <= j < r.value ==> !Covers(xs, j, b, e)
    ensures r.None? ==> forall j :: i <= j < |xs| ==> !Covers(xs, j, b, e)
    decreases |xs| - i
  {
    if i == |xs| then None
    else if b >= l && e <= l + |xs[i]| then Some(i)
    else
      OffNext(xs, i);
      LocateFrom(xs, b, e, i + 1, l + |xs[i]|)
  }

  /** The inner loop of `demask_delimiter`: which sentence receives the record, if any. */
  function Locate(xs: seq<string>, b: int, e: int): (r: Option<nat>)
    ensures r.Some? <==> Covered(xs, b, e)
    ensures r.Some? ==> Covers(xs, r.value, b, e) && forall j :: 0 <= j < r.value ==> !Covers(xs, j, b, e)
  {
    assert Off(xs, 0) == 0 by { assert xs[..0] == []; }
    LocateFrom(xs, b, e, 0, 0)
  }

  /** The span of a record, made local to entry i. */
  function LocalSpan(xs: seq<string>, i: nat, r: MaskRecord): (sp: Span)
    requires Covers(xs, i, r.span.begin, r.span.end) && r.span.Valid()
    ensures sp.Valid() && sp.end <= |xs[i]| && sp.Len() == r.span.Len()
  {
    Span(r.span.begin - Off(xs, i), r.span.end - Off(xs, i))
  }

  /** One round of the record loop: `sents[i] = __demask(s, local span, tokens)` for the located i. */
  function RestoreOne(xs: seq<string>, r: MaskRecord): (ys: seq<string>)
    requires r.span.Valid()
    ensures |ys| == |xs|
    ensures forall j :: 0 <= j < |xs| && ys[j] != xs[j] ==>
      Covers(xs, j, r.span.begin, r.span.end) && forall j' :: 0 <= j' < j ==> !Covers(xs, j', r.span.begin, r.span.end)
  {
    match Locate(xs, r.span.begin, r.span.end)
    case None => xs
    case Some(i) => xs[i := Demask(xs[i], LocalSpan(xs, i, r), r.token)]
  }

  /** `demask_delimiter(sents, mask_info)`: the records applied in order. */
  function DemaskDelimiter(xs: seq<string>, recs: seq<MaskRecord>): (ys: seq<string>)
    requires forall j :: 0 <= j < |recs| ==> recs[j].span.Valid()
    ensures |ys| == |xs|
    decreases |recs|
  {
    if |recs| == 0 then xs else DemaskDelimiter(RestoreOne(xs, recs[0]), recs[1..])
  }

  /** A record no sentence contains changes nothing. */
  lemma RestoreOneUncovered(xs: seq<string>, r: MaskRecord)
    requires r.span.Valid() && !Covered(xs, r.span.begin, r.span.end)
    ensures RestoreOne(xs, r) == xs
  {
  }

  /**
   * A contained record whose token has the span's length keeps every sentence's length
   * and writes the token over the span of the concatenated text.
   */
  lemma RestoreOneSplices(xs: seq<string>, r: MaskRecord)
    requires r.span.Valid() && Covered(xs, r.span.begin, r.span.end) && |r.token| == r.span.Len()
    ensures SameShape(RestoreOne(xs, r), xs)
    ensures r.span.end <= |Flatten(xs)|
    ensures Flatten(RestoreOne(xs, r))
         == Flatten(xs)[..r.span.begin] + r.token + Flatten(xs)[r.span.end..]
  {
    var i := Locate(xs, r.span.begin, r.span.end).value;
    var o, w := Off(xs, i), xs[i];
    var b, e := r.span.begin, r.span.end;
    var x := Demask(w, LocalSpan(xs, i, r), r.token);
    assert x == w[..b - o] + r.token + w[e - o..];
    FlattenUpdate(xs, i, x);
    EntryInFlatten(xs, i);
    SpliceInside(Flatten(xs), o, w, b, e, r.token);
  }

  /** The concatenation is the text T once every record is put back. */
  ghost predicate RestorableTo(xs: seq<string>, recs: seq<MaskRecord>, T: string)
  {
    && |Flatten(xs)| == |T|
    && (forall j :: 0 <= j < |recs| ==>
          && recs[j].span.begin <= recs[j].span.end <= |T|
          && T[recs[j].span.begin..recs[j].span.end] == recs[j].token
          && Covered(xs, recs[j].span.begin, recs[j].span.end))
    && forall k :: 0 <= k < |T| && !InSpans(SpansOf(recs), k) ==> Flatten(xs)[k] == T[k]
  }

  /**
   * Restoring gives back T when each record holds T's characters over its span, lies
   * inside one sentence, and the sentences already agree with T outside all spans.
   */
  lemma {:induction false} DemaskDelimiterRestores(xs: seq<string>, recs: seq<MaskRecord>, T: string)
    requires RestorableTo(xs, recs, T)
    ensures SameShape(DemaskDelimiter(xs, recs), xs)
    ensures Flatten(DemaskDelimiter(xs, recs)) == T
    decreases |recs|
  {
    if |recs| == 0 {
      assert Flatten(xs) == T;
    } else {
      var r := recs[0];
      var ys := RestoreOne(xs, r);
      RestoreOneSplices(xs, r);
      RestoreStep(xs, ys, recs, T);
      DemaskDelimiterRestores(ys, recs[1..], T);
    }
  }

  lemma RestoreStep(xs: seq<string>, ys: seq<string>, recs: seq<MaskRecord>, T: string)
    requires RestorableTo(xs, recs, T) && |recs| > 0
    requires SameShape(ys, xs)
    requires Flatten(ys) == Flatten(xs)[..recs[0].span.begin] + recs[0].token + Flatten(xs)[recs[0].span.end..]
    ensures RestorableTo(ys, recs[1..], T)
  {
    RestoreKeepsCovered(xs, ys, recs);
    forall k | 0 <= k < |T| && !InSpans(SpansOf(recs[1..]), k)
      ensures Flatten(ys)[k] == T[k]
    {
      RestoreAgreesAt(xs, ys, recs, T, k);
    }
  }

  lemma RestoreKeepsCovered(xs: seq<string>, ys: seq<string>, recs: seq<MaskRecord>)
    requires SameShape(ys, xs)
    requires forall j :: 0 <= j < |recs| ==> Covered(xs, recs[j].span.begin, recs[j].span.end)
    ensures forall j :: 1 <= j < |recs| ==> Covered(ys, recs[j].span.begin, recs[j].span.end)
  {
    forall j | 1 <= j < |recs|
      ensures Covered(ys, recs[j].span.begin, recs[j].span.end)
    {
      SameShapeCovered(xs, ys, recs[j].span.begin, recs[j].span.end);
    }
  }

  lemma RestoreAgreesAt(xs: seq<string>, ys: seq<string>, recs: seq<MaskRecord>, T: string, k: int)
    requires RestorableTo(xs, recs, T) && |recs| > 0
    requires SameShape(ys, xs)
    requires Flatten(ys) == Flatten(xs)[..recs[0].span.begin] + recs[0].token + Flatten(xs)[recs[0].span.end..]
    requires 0 <= k < |T| && !InSpans(SpansOf(recs[1..]), k)
    ensures Flatten(ys)[k] == T[k]
  {
    var r := recs[0];
    var b, e := r.span.begin, r.span.end;
    assert SpansOf(recs) == [r.span] + SpansOf(recs[1..]);
    InSpansAppend([r.span], SpansOf(recs[1..]), k);
    if b <= k < e {
      assert Flatten(ys)[k] == r.token[k - b];
    } else {
      assert [r.span][0] == r.span;
      assert !InSpans([r.span], k);
      assert Flatten(ys)[k] == Flatten(xs)[k];
    }
  }
}
