/**
 * Lists of strings laid end to end: the concatenation of a list of sentences or
 * paragraphs, the global offset at which each entry starts, and "entry j covers the
 * global span [b, e)". The sentenizer keeps all of its bookkeeping in these terms.
 */
module TextSeq {

  datatype Option<T> = None | Some(value: T)

  /** u"".join(xs): the entries written one after the other. */
  function Flatten(xs: seq<string>): string
  {
    if |xs| == 0 then "" else xs[0] + Flatten(xs[1..])
  }

  /** The global offset at which entry j starts: the length of everything before it. */
  function Off(xs: seq<string>, j: nat): nat
    requires j <= |xs|
  {
    |Flatten(xs[..j])|
  }

  /** Entry j's range [Off(j), Off(j) + |xs[j]|) contains the span [b, e). */
  predicate Covers(xs: seq<string>, j: int, b: int, e: int)
  {
    0 <= j < |xs| && Off(xs, j) <= b && e <= Off(xs, j) + |xs[j]|
  }

  /** Some entry contains the whole span [b, e). */
  predicate Covered(xs: seq<string>, b: int, e: int)
  {
    exists j | 0 <= j < |xs| :: Covers(xs, j, b, e)
  }

  /** Two lists whose entries have pairwise equal lengths. */
  predicate SameShape(xs: seq<string>, ys: seq<string>)
  {
    |xs| == |ys| && forall i :: 0 <= i < |xs| ==> |xs[i]| == |ys[i]|
  }

  lemma {:induction false} FlattenAppend(a: seq<string>, b: seq<string>)
    ensures Flatten(a + b) == Flatten(a) + Flatten(b)
    decreases |a|
  {
    if |a| == 0 {
      assert a + b == b;
    } else {
      assert (a + b)[1..] == a[1..] + b;
      FlattenAppend(a[1..], b);
    }
  }

  lemma FlattenSingle(x: string)
    ensures Flatten([x]) == x
  {
    assert [x][1..] == [];
  }

  lemma FlattenSnoc(xs: seq<string>, x: string)
    ensures Flatten(xs + [x]) == Flatten(xs) + x
  {
    FlattenAppend(xs, [x]);
    FlattenSingle(x);
  }

  /** Cutting the list before entry j and after it cuts the text at Off(j) and Off(j+1). */
  lemma FlattenAround(xs: seq<string>, j: nat)
    requires j < |xs|
    ensures Flatten(xs) == Flatten(xs[..j]) + xs[j] + Flatten(xs[j+1..])
  {
    var tail := xs[j..];
    assert xs == xs[..j] + tail;
    FlattenAppend(xs[..j], tail);
    assert tail[0] == xs[j] && tail[1..] == xs[j+1..];
  }

  lemma OffNext(xs: seq<string>, j: nat)
    requires j < |xs|
    ensures Off(xs, j + 1) == Off(xs, j) + |xs[j]|
  {
    assert xs[..j + 1] == xs[..j] + [xs[j]];
    FlattenAppend(xs[..j], [xs[j]]);
    FlattenSingle(xs[j]);
  }

  lemma OffAll(xs: seq<string>)
    ensures Off(xs, |xs|) == |Flatten(xs)|
  {
    assert xs[..|xs|] == xs;
  }

  lemma {:induction false} OffMono(xs: seq<string>, i: nat, j: nat)
    requires i <= j <= |xs|
    ensures Off(xs, i) <= Off(xs, j)
    decreases j - i
  {
    if i < j {
      OffNext(xs, j - 1);
      OffMono(xs, i, j - 1);
    }
  }

  /** Appending entries does not move the earlier ones. */
  lemma OffPrefix(xs: seq<string>, ys: seq<string>, j: nat)
    requires j <= |xs|
    ensures Off(xs + ys, j) == Off(xs, j)
  {
    assert (xs + ys)[..j] == xs[..j];
  }

  /** Prepending entries moves the later ones by the prepended text's length. */
  lemma OffShift(xs: seq<string>, ys: seq<string>, j: nat)
    requires j <= |ys|
    ensures Off(xs + ys, |xs| + j) == |Flatten(xs)| + Off(ys, j)
  {
    assert (xs + ys)[..|xs| + j] == xs + ys[..j];
    FlattenAppend(xs, ys[..j]);
  }

  /** Replacing entry i replaces the text between Off(i) and Off(i+1). */
  lemma FlattenUpdate(xs: seq<string>, i: nat, x: string)
    requires i < |xs|
    ensures Off(xs, i) + |xs[i]| <= |Flatten(xs)|
            && Flatten(xs[i := x]) == Flatten(xs)[..Off(xs, i)] + x + Flatten(xs)[Off(xs, i) + |xs[i]|..]
  {
    var ys := xs[i := x];
    FlattenAround(xs, i);
    FlattenAround(ys, i);
    assert ys[..i] == xs[..i];
    assert ys[i+1..] == xs[i+1..];
    var pre := Flatten(xs[..i]);
    var post := Flatten(xs[i+1..]);
    assert Flatten(xs) == pre + xs[i] + post;
    assert Flatten(xs)[..|pre|] == pre;
    assert Flatten(xs)[|pre| + |xs[i]|..] == post;
  }

  /** Entry j sits in the concatenation at [Off(j), Off(j) + |xs[j]|). */
  lemma EntryInFlatten(xs: seq<string>, j: nat)
    requires j < |xs|
    ensures Off(xs, j) + |xs[j]| <= |Flatten(xs)|
    ensures Flatten(xs)[Off(xs, j)..Off(xs, j) + |xs[j]|] == xs[j]
  {
    FlattenAround(xs, j);
    var pre := Flatten(xs[..j]);
    assert Flatten(xs) == pre + xs[j] + Flatten(xs[j+1..]);
  }

  /** Character k of entry j is character Off(j) + k of the concatenation. */
  lemma FlattenAt(xs: seq<string>, j: nat, k: nat)
    requires j < |xs| && k < |xs[j]|
    ensures Off(xs, j) + k < |Flatten(xs)| && Flatten(xs)[Off(xs, j) + k] == xs[j][k]
  {
    EntryInFlatten(xs, j);
    assert Flatten(xs)[Off(xs, j)..Off(xs, j) + |xs[j]|][k] == xs[j][k];
  }

  lemma {:induction false} SameShapeOff(xs: seq<string>, ys: seq<string>, j: nat)
    requires SameShape(xs, ys) && j <= |xs|
    ensures Off(xs, j) == Off(ys, j)
    decreases j
  {
    if j > 0 {
      SameShapeOff(xs, ys, j - 1);
      OffNext(xs, j - 1);
      OffNext(ys, j - 1);
    }
  }

  /** Whether an entry covers a span depends only on the entries' lengths. */
  lemma SameShapeCovered(xs: seq<string>, ys: seq<string>, b: int, e: int)
    requires SameShape(xs, ys) && Covered(xs, b, e)
    ensures Covered(ys, b, e)
  {
    var j: nat :| j < |xs| && Covers(xs, j, b, e);
    SameShapeOff(xs, ys, j);
    assert Covers(ys, j, b, e);
  }

  lemma SameShapeSymmetric(xs: seq<string>, ys: seq<string>)
    requires SameShape(xs, ys)
    ensures SameShape(ys, xs)
  {
  }

  lemma SameShapeLength(xs: seq<string>, ys: seq<string>)
    requires SameShape(xs, ys)
    ensures |Flatten(xs)| == |Flatten(ys)|
  {
    SameShapeOff(xs, ys, |xs|);
    OffAll(xs);
    OffAll(ys);
  }

  /** A span covered in the front part stays covered after appending entries. */
  lemma CoveredPrefix(xs: seq<string>, ys: seq<string>, b: int, e: int)
    requires Covered(xs, b, e)
    ensures Covered(xs + ys, b, e)
  {
    var j: nat :| j < |xs| && Covers(xs, j, b, e);
    OffPrefix(xs, ys, j);
    assert Covers(xs + ys, j, b, e);
  }

  /** A span covered in the back part, d = |Flatten(xs)| further left, is covered in the whole list. */
  lemma CoveredShift(xs: seq<string>, ys: seq<string>, b: int, e: int, d: int)
    requires d == |Flatten(xs)| && Covered(ys, b - d, e - d)
    ensures Covered(xs + ys, b, e)
  {
    var j: nat :| j < |ys| && Covers(ys, j, b - d, e - d);
    OffShift(xs, ys, j);
    assert (xs + ys)[|xs| + j] == ys[j];
    assert Covers(xs + ys, |xs| + j, b, e);
  }

  /** Two lists of the same shape with the same concatenation are the same list. */
  lemma {:induction false} SameShapeFlattenEqual(xs: seq<string>, ys: seq<string>)
    requires SameShape(xs, ys) && Flatten(xs) == Flatten(ys)
    ensures xs == ys
    decreases |xs|
  {
    if |xs| > 0 {
      var n := |xs[0]|;
      assert Flatten(xs)[..n] == xs[0];
      assert Flatten(ys)[..n] == ys[0];
      assert Flatten(xs)[n..] == Flatten(xs[1..]);
      assert Flatten(ys)[n..] == Flatten(ys[1..]);
      SameShapeFlattenEqual(xs[1..], ys[1..]);
      assert xs == [xs[0]] + xs[1..];
      assert ys == [ys[0]] + ys[1..];
    }
  }

  /** The non-empty entries, in order (`filter(lambda s: len(s) > 0, …)`). */
  function NonEmpty(xs: seq<string>): (r: seq<string>)
    ensures |r| <= |xs| && Flatten(r) == Flatten(xs)
    ensures forall j :: 0 <= j < |r| ==> |r[j]| > 0
  {
    if |xs| == 0 then []
    else if |xs[0]| == 0 then NonEmpty(xs[1..])
    else [xs[0]] + NonEmpty(xs[1..])
  }

  lemma {:induction false} NonEmptySameShape(xs: seq<string>, ys: seq<string>)
    requires SameShape(xs, ys)
    ensures SameShape(NonEmpty(xs), NonEmpty(ys))
    decreases |xs|
  {
    if |xs| > 0 {
      NonEmptySameShape(xs[1..], ys[1..]);
    }
  }

  /** Replacing [b, e) inside the piece w = T[o..o+|w|] of T replaces [b, e) of T. */
  lemma SpliceInside(T: string, o: nat, w: string, b: nat, e: nat, tok: string)
    requires o <= b <= e <= o + |w| <= |T| && T[o..o + |w|] == w
    ensures T[..o] + (w[..b - o] + tok + w[e - o..]) + T[o + |w|..] == T[..b] + tok + T[e..]
  {
    assert T[..o] + w[..b - o] == T[..b];
    assert w[e - o..] + T[o + |w|..] == T[e..];
  }

  /** Two cuts of one sequence. A step for the verifier only. */
  lemma SliceParts<T>(s: seq<T>, a: nat, b: nat)
    requires a <= b <= |s|
    ensures s[..b] == s[..a] + s[a..b] && s[a..] == s[a..b] + s[b..]
  {
  }

  /** Regrouping a concatenation. A step for the verifier only. */
  lemma ConcatAssoc<T>(a: seq<T>, b: seq<T>, c: seq<T>)
    ensures a + (b + c) == (a + b) + c
  {
  }
}
