/**
 * lib/ngrams.py: `ngramalize`, the sliding window of n tokens joined by '_', and the
 * vocabulary step of `make_ngrams`, which gives the first THR entries of the
 * most-common list the dense indices 0, 1, 2, … in list order.
 */
module Ngrams {
  import opened TextSeq

  const Sep: char := '_'

  /** `u"_".join(xs)`: the tokens' characters plus one separator between each two tokens. */
  function Join(xs: seq<string>): (r: string)
    ensures |xs| > 0 ==> |r| == |Flatten(xs)| + |xs| - 1
  {
    if |xs| == 0 then "" else if |xs| == 1 then xs[0] else xs[0] + [Sep] + Join(xs[1..])
  }

  /** Position of the first c in s, or |s| when there is none. */
  function IndexOf(s: string, c: char): (i: nat)
    ensures i <= |s| && (i < |s| ==> s[i] == c)
    ensures forall k :: 0 <= k < i ==> s[k] != c
  {
    if |s| == 0 then 0 else if s[0] == c then 0 else 1 + IndexOf(s[1..], c)
  }

  /** The pieces between separators, in order: the inverse that states `Join`'s round trip. */
  function SplitOn(s: string, c: char): (r: seq<string>)
    ensures |r| > 0
    ensures forall j :: 0 <= j < |r| ==> c !in r[j]
    decreases |s|
  {
    var i := IndexOf(s, c);
    if i == |s| then [s] else [s[..i]] + SplitOn(s[i + 1..], c)
  }

  /** Splitting at the separator and joining again gives the string back. */
  lemma {:induction false} JoinSplitOn(s: string)
    ensures Join(SplitOn(s, Sep)) == s
    decreases |s|
  {
    var i := IndexOf(s, Sep);
    if i < |s| {
      JoinSplitOn(s[i + 1..]);
      assert s == s[..i] + [Sep] + s[i + 1..];
    }
  }

  /** Joining separator-free tokens and splitting again gives the tokens back. */
  lemma {:induction false} SplitOnJoin(xs: seq<string>)
    requires |xs| > 0
    requires forall j :: 0 <= j < |xs| ==> Sep !in xs[j]
    ensures SplitOn(Join(xs), Sep) == xs
    decreases |xs|
  {
    var s := Join(xs);
    if |xs| == 1 {
      assert IndexOf(s, Sep) == |s|;
    } else {
      var x := xs[0];
      assert s == x + [Sep] + Join(xs[1..]);
      assert s[..|x|] == x;
      IndexOfPrefix(x, Join(xs[1..]));
      assert s[|x| + 1..] == Join(xs[1..]);
      SplitOnJoin(xs[1..]);
    }
  }

  lemma IndexOfPrefix(x: string, rest: string)
    requires Sep !in x
    ensures IndexOf(x + [Sep] + rest, Sep) == |x|
  {
    var s := x + [Sep] + rest;
    var i := IndexOf(s, Sep);
    assert s[|x|] == Sep;
  }

  /** `ngramalize(tokens, N)` for N >= 0. */
  method Ngramalize(tokens: seq<string>, n: nat) returns (grams: seq<string>)
    ensures |grams| == if |tokens| + 1 >= n then |tokens| + 1 - n else 0
    ensures forall i :: 0 <= i < |grams| ==> i + n <= |tokens| && grams[i] == Join(tokens[i..i + n])
    ensures n == 1 ==> grams == tokens
  {
    grams := [];
    var count: int := |tokens| + (-(n as int) + 1);
    var i: int := 0;
    while i < count
      invariant 0 <= i && (i <= count || i == 0)
      invariant |grams| == i
      invariant forall j :: 0 <= j < i ==> j + n <= |tokens| && grams[j] == Join(tokens[j..j + n])
    {
      grams := grams + [Join(tokens[i..i + n])];
      i := i + 1;
    }
    if n == 1 {
      forall j | 0 <= j < |grams|
        ensures grams[j] == tokens[j]
      {
        assert tokens[j..j + 1] == [tokens[j]];
      }
    }
  }

  /** Every n-gram of separator-free tokens splits back into its n tokens. */
  lemma NgramSplitsBack(tokens: seq<string>, n: nat, i: nat)
    requires n >= 1 && i + n <= |tokens|
    requires forall j :: 0 <= j < |tokens| ==> Sep !in tokens[j]
    ensures SplitOn(Join(tokens[i..i + n]), Sep) == tokens[i..i + n]
  {
    SplitOnJoin(tokens[i..i + n]);
  }

  /**
   * `vocab = defaultdict(lambda: len(vocab)); [vocab[k] for k in keys]`: each key not
   * yet present gets the next free index.
   */
  function IndexKeys(keys: seq<string>): (v: map<string, nat>)
    ensures v.Keys == set k | k in keys
    ensures |v| <= |keys|
    ensures forall k :: k in v ==> v[k] < |v|
    ensures forall a, b :: a in v && b in v && v[a] == v[b] ==> a == b
  {
    if |keys| == 0 then map[]
    else
      var init := keys[..|keys| - 1];
      var k := keys[|keys| - 1];
      var v := IndexKeys(init);
      assert keys == init + [k];
      if k in v then v else v[k := |v|]
  }

  /** Every index below the vocabulary size is used. */
  lemma {:induction false} IndexKeysDense(keys: seq<string>, i: nat)
    requires i < |IndexKeys(keys)|
    ensures exists k :: k in IndexKeys(keys) && IndexKeys(keys)[k] == i
    decreases |keys|
  {
    var init := keys[..|keys| - 1];
    var k := keys[|keys| - 1];
    var v := IndexKeys(init);
    var w := IndexKeys(keys);
    assert w == if k in v then v else v[k := |v|];
    if k in v {
      IndexKeysDense(init, i);
    } else if i < |v| {
      IndexKeysDense(init, i);
      var k0 :| k0 in v && v[k0] == i;
      assert w[k0] == i;
    } else {
      assert w[k] == i;
    }
  }

  /** For distinct keys (as the most-common list has), the i-th key gets index i. */
  lemma {:induction false} IndexKeysInOrder(keys: seq<string>)
    requires forall a, b :: 0 <= a < b < |keys| ==> keys[a] != keys[b]
    ensures |IndexKeys(keys)| == |keys|
    ensures forall i :: 0 <= i < |keys| ==> IndexKeys(keys)[keys[i]] == i
    decreases |keys|
  {
    if |keys| > 0 {
      var init := keys[..|keys| - 1];
      IndexKeysInOrder(init);
      assert keys[|keys| - 1] !in init;
    }
  }

  /** The keys of a most-common list of (ngram, count) pairs. */
  function KeysOf(common: seq<(string, nat)>): (keys: seq<string>)
    ensures |keys| == |common| && forall i :: 0 <= i < |common| ==> keys[i] == common[i].0
  {
    seq(|common|, i requires 0 <= i < |common| => common[i].0)
  }

  /** `cnt.most_common()[:THR]` turned into the vocabulary. */
  function TopVocab(common: seq<(string, nat)>, thr: nat): (v: map<string, nat>)
    ensures |v| <= thr
    ensures forall k :: k in v <==> exists i :: 0 <= i < |common| && i < thr && common[i].0 == k
    ensures forall k :: k in v ==> v[k] < |v|
  {
    var top := if thr < |common| then common[..thr] else common;
    var keys := KeysOf(top);
    assert forall k :: k in keys <==> exists i :: 0 <= i < |common| && i < thr && common[i].0 == k by {
      forall k | k in keys
        ensures exists i :: 0 <= i < |common| && i < thr && common[i].0 == k
      {
        var i :| 0 <= i < |keys| && keys[i] == k;
        assert common[i] == top[i];
      }
    }
    IndexKeys(keys)
  }

  /** With distinct n-grams, the i-th most common one gets index i, for each i below THR. */
  lemma TopVocabInOrder(common: seq<(string, nat)>, thr: nat, i: nat)
    requires forall a, b :: 0 <= a < b < |common| ==> common[a].0 != common[b].0
    requires i < |common| && i < thr
    ensures common[i].0 in TopVocab(common, thr) && TopVocab(common, thr)[common[i].0] == i
  {
    var top := if thr < |common| then common[..thr] else common;
    var keys := KeysOf(top);
    assert keys[i] == common[i].0;
    IndexKeysInOrder(keys);
  }
}
