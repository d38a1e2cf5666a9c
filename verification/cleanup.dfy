/**
 * The last two steps of the sentenizer: `is_alphabet_only` and the filter that drops
 * such sentences, and the final `strip` of every survivor. `zenhan.z2h` is a foreign
 * library; in the two modes the program uses (ASCII and digits) it maps characters one
 * to one, so it enters the model as a parameter `norm` applied to each character
 * (standing for both z2h calls together).
 */
module Cleanup {
  import opened Chars

  /** `sent.replace(u" ", u"").replace(u"　", u"")`. */
  function RemoveSpaces(s: string): (r: string)
    ensures |r| <= |s|
    ensures forall k :: 0 <= k < |r| ==> !IsRemovedSpace(r[k]) && r[k] in s
    ensures forall k :: 0 <= k < |s| && !IsRemovedSpace(s[k]) ==> s[k] in r
  {
    if |s| == 0 then ""
    else
      var rest := RemoveSpaces(s[1..]);
      assert forall k :: 1 <= k < |s| ==> s[k] == s[1..][k - 1];
      (if IsRemovedSpace(s[0]) then "" else [s[0]]) + rest
  }

  /** Removing spaces works piece by piece, so order and multiplicity are kept. */
  lemma {:induction false} RemoveSpacesAppend(a: string, b: string)
    ensures RemoveSpaces(a + b) == RemoveSpaces(a) + RemoveSpaces(b)
    decreases |a|
  {
    if |a| == 0 {
      assert a + b == b;
    } else {
      assert (a + b)[1..] == a[1..] + b;
      RemoveSpacesAppend(a[1..], b);
    }
  }

  /** One character is dropped exactly when it is one of the two spaces. */
  lemma RemoveSpacesSingle(c: char)
    ensures RemoveSpaces([c]) == if IsRemovedSpace(c) then "" else [c]
  {
    assert [c][1..] == "";
  }

  /** Nothing is left after removing the spaces exactly when s holds nothing but spaces. */
  lemma {:induction false} RemoveSpacesEmpty(s: string)
    ensures RemoveSpaces(s) == "" <==> forall k :: 0 <= k < |s| ==> IsRemovedSpace(s[k])
  {
    if RemoveSpaces(s) != "" {
      var c := RemoveSpaces(s)[0];
      var k :| 0 <= k < |s| && s[k] == c;
    }
  }

  /** The z2h calls, character by character. */
  function Normalize(s: string, norm: char -> char): (r: string)
    ensures |r| == |s| && forall k :: 0 <= k < |s| ==> r[k] == norm(s[k])
  {
    seq(|s|, k requires 0 <= k < |s| => norm(s[k]))
  }

  predicate AllPrintable(t: string)
  {
    forall k :: 0 <= k < |t| ==> IsPrintableAscii(t[k])
  }

  /** Length of the longest prefix of printable ASCII characters. */
  function PrintableRunLen(t: string): (n: nat)
    ensures n <= |t| && AllPrintable(t[..n])
    ensures n == |t| || !IsPrintableAscii(t[n])
  {
    if |t| == 0 || !IsPrintableAscii(t[0]) then 0
    else
      var n := 1 + PrintableRunLen(t[1..]);
      assert t[..n] == [t[0]] + t[1..][..n - 1];
      n
  }

  /**
   * `p.match(t) is not None` for `^[a-zA-Z0-9!-/:-@[-`{-~]+$`: a run of printable
   * characters from the start, then the end of the text or a final '\n' (Python's `$`).
   * The scanner accepts exactly the pattern's language.
   */
  function AlphabetOnlyMatch(t: string): (r: bool)
    ensures r <==> AlphabetOnlyLanguage(t)
  {
    var n := PrintableRunLen(t);
    PrintableRunSound(t, n);
    PrintableRunComplete(t, n);
    n > 0 && (n == |t| || (n + 1 == |t| && t[n] == '\n'))
  }

  /** The language the pattern accepts, stated without a scanner. */
  ghost predicate AlphabetOnlyLanguage(t: string)
  {
    exists p :: |p| > 0 && AllPrintable(p) && (t == p || t == p + "\n")
  }

  /** A printable run that reaches the end or one final newline is a word of the language. */
  lemma PrintableRunSound(t: string, n: nat)
    requires n == PrintableRunLen(t)
    ensures n > 0 && (n == |t| || (n + 1 == |t| && t[n] == '\n')) ==> AlphabetOnlyLanguage(t)
  {
    if n > 0 && n == |t| {
      assert t[..n] == t;
    } else if n > 0 && n + 1 == |t| && t[n] == '\n' {
      assert t == t[..n] + "\n";
    }
  }

  /** Every word of the language is a printable run followed by the end or one newline. */
  lemma PrintableRunComplete(t: string, n: nat)
    requires n == PrintableRunLen(t)
    ensures AlphabetOnlyLanguage(t) ==> n > 0 && (n == |t| || (n + 1 == |t| && t[n] == '\n'))
  {
    if AlphabetOnlyLanguage(t) {
      var p :| |p| > 0 && AllPrintable(p) && (t == p || t == p + "\n");
      assert t[..|p|] == p;
      if |p| < n {
        assert t[|p|] == '\n';
        assert t[..n][|p|] == t[|p|];
      }
    }
  }

  /**
   * `is_alphabet_only(sent)`: after the two spaces are removed and z2h is applied, the
   * sentence is a word of the pattern's language.
   */
  function IsAlphabetOnly(sent: string, norm: char -> char): (r: bool)
    ensures r <==> AlphabetOnlyLanguage(Normalize(RemoveSpaces(sent), norm))
  {
    AlphabetOnlyMatch(Normalize(RemoveSpaces(sent), norm))
  }

  /** A sentence of nothing but spaces is not alphabet-only, so the filter keeps it. */
  lemma SpacesOnlyIsKept(sent: string, norm: char -> char)
    requires forall k :: 0 <= k < |sent| ==> IsRemovedSpace(sent[k])
    ensures !IsAlphabetOnly(sent, norm)
  {
    RemoveSpacesEmpty(sent);
  }

  /**
   * A character that normalises to neither printable ASCII nor a line feed keeps the
   * sentence from being alphabet-only.
   */
  lemma ForeignCharIsKept(sent: string, norm: char -> char, k: nat)
    requires k < |sent| && !IsRemovedSpace(sent[k])
    requires !IsPrintableAscii(norm(sent[k])) && norm(sent[k]) != '\n'
    ensures !IsAlphabetOnly(sent, norm)
  {
    var r := RemoveSpaces(sent);
    var t := Normalize(r, norm);
    assert sent[k] in r;
    var i :| 0 <= i < |r| && r[i] == sent[k];
  }

  /**
   * With a normaliser that fixes printable ASCII, a sentence of printable ASCII and
   * spaces with at least one non-space is alphabet-only, and the filter drops it.
   */
  lemma AsciiSentenceIsDropped(sent: string, norm: char -> char)
    requires forall c :: IsPrintableAscii(c) ==> norm(c) == c
    requires forall k :: 0 <= k < |sent| ==> IsPrintableAscii(sent[k]) || IsRemovedSpace(sent[k])
    requires exists k :: 0 <= k < |sent| && !IsRemovedSpace(sent[k])
    ensures IsAlphabetOnly(sent, norm)
  {
    var r := RemoveSpaces(sent);
    var t := Normalize(r, norm);
    RemoveSpacesEmpty(sent);
    forall i | 0 <= i < |r|
      ensures IsPrintableAscii(r[i])
    {
      var k :| 0 <= k < |sent| && sent[k] == r[i];
    }
    assert AllPrintable(t);
  }

  /** `[s for s in sents if is_alphabet_only(s) == False]`. */
  function KeepSentences(xs: seq<string>, norm: char -> char): (r: seq<string>)
    ensures |r| <= |xs|
    ensures forall j :: 0 <= j < |r| ==> r[j] in xs && !IsAlphabetOnly(r[j], norm)
    ensures forall j :: 0 <= j < |xs| && !IsAlphabetOnly(xs[j], norm) ==> xs[j] in r
  {
    if |xs| == 0 then []
    else
      var rest := KeepSentences(xs[1..], norm);
      assert forall j :: 1 <= j < |xs| ==> xs[j] == xs[1..][j - 1];
      (if IsAlphabetOnly(xs[0], norm) then [] else [xs[0]]) + rest
  }

  /** The filter keeps the input order: filtering a concatenation concatenates the results. */
  lemma {:induction false} KeepSentencesAppend(xs: seq<string>, ys: seq<string>, norm: char -> char)
    ensures KeepSentences(xs + ys, norm) == KeepSentences(xs, norm) + KeepSentences(ys, norm)
    decreases |xs|
  {
    if |xs| == 0 {
      assert xs + ys == ys;
    } else {
      assert (xs + ys)[1..] == xs[1..] + ys;
      KeepSentencesAppend(xs[1..], ys, norm);
    }
  }

  /** One flag per sentence: whether the filter keeps it. */
  function KeepFlags(xs: seq<string>, norm: char -> char): (flags: seq<bool>)
    ensures |flags| == |xs|
  {
    seq(|xs|, k requires 0 <= k < |xs| => !IsAlphabetOnly(xs[k], norm))
  }

  /** The indices k >= i whose flag is set, in increasing order. */
  function KeptIndices(flags: seq<bool>, i: nat): (f: seq<nat>)
    requires i <= |flags|
    ensures forall j :: 0 <= j < |f| ==> i <= f[j] < |flags| && flags[f[j]]
    ensures forall a, b :: 0 <= a < b < |f| ==> f[a] < f[b]
    ensures forall k :: i <= k < |flags| && flags[k] ==> k in f
    decreases |flags| - i
  {
    if i == |flags| then []
    else (if flags[i] then [i] else []) + KeptIndices(flags, i + 1)
  }

  /** The filter's j-th survivor is the sentence at the j-th kept index. */
  lemma {:induction false} KeepSentencesIndices(xs: seq<string>, norm: char -> char, i: nat)
    requires i <= |xs|
    ensures |KeepSentences(xs[i..], norm)| == |KeptIndices(KeepFlags(xs, norm), i)|
    ensures forall j :: 0 <= j < |KeptIndices(KeepFlags(xs, norm), i)| ==>
              KeepSentences(xs[i..], norm)[j] == xs[KeptIndices(KeepFlags(xs, norm), i)[j]]
    decreases |xs| - i
  {
    if i < |xs| {
      var flags := KeepFlags(xs, norm);
      KeepSentencesIndices(xs, norm, i + 1);
      var rest := KeepSentences(xs[i + 1..], norm);
      var f := KeptIndices(flags, i + 1);
      assert xs[i..][1..] == xs[i + 1..];
      assert xs[i..][0] == xs[i];
      assert KeepSentences(xs[i..], norm) == (if flags[i] then [xs[i]] else []) + rest;
      ConsIndices(xs, i, flags[i], rest, f, KeepSentences(xs[i..], norm), KeptIndices(flags, i));
    }
  }

  /**
   * Putting sentence i and index i in front keeps survivors and indices in step. A step
   * for the verifier only: it keeps `IsAlphabetOnly` out of the proof's context.
   */
  lemma ConsIndices(xs: seq<string>, i: nat, kept: bool, rest: seq<string>, f: seq<nat>,
                    k: seq<string>, g: seq<nat>)
    requires i < |xs| && |rest| == |f|
    requires forall j :: 0 <= j < |f| ==> f[j] < |xs| && rest[j] == xs[f[j]]
    requires k == (if kept then [xs[i]] else []) + rest
    requires g == (if kept then [i] else []) + f
    ensures |k| == |g| && forall j :: 0 <= j < |g| ==> g[j] < |xs| && k[j] == xs[g[j]]
  {
  }

  /** After the strip, the j-th output is the stripped sentence at the j-th kept index. */
  lemma StripKeptIndices(xs: seq<string>, norm: char -> char)
    ensures |StripAll(KeepSentences(xs, norm))| == |KeptIndices(KeepFlags(xs, norm), 0)|
    ensures forall j :: 0 <= j < |KeptIndices(KeepFlags(xs, norm), 0)| ==>
              StripAll(KeepSentences(xs, norm))[j] == Strip(xs[KeptIndices(KeepFlags(xs, norm), 0)[j]])
  {
    KeepSentencesIndices(xs, norm, 0);
    assert xs[0..] == xs;
  }

  /**
   * The filter and the strip together: one stripped sentence for each sentence that is
   * not alphabet-only, in input order, and nothing else.
   */
  function CleanSentences(xs: seq<string>, norm: char -> char): (r: seq<string>)
    ensures |r| <= |xs|
    ensures forall j :: 0 <= j < |r| ==> Strip(r[j]) == r[j]
    ensures |r| == |KeptIndices(KeepFlags(xs, norm), 0)|
    ensures forall j :: 0 <= j < |r| ==> r[j] == Strip(xs[KeptIndices(KeepFlags(xs, norm), 0)[j]])
    ensures forall i :: 0 <= i < |xs| && !IsAlphabetOnly(xs[i], norm) ==> Strip(xs[i]) in r
  {
    var kept := KeepSentences(xs, norm);
    var r := StripAll(kept);
    StripKeptIndices(xs, norm);
    StripAllIdempotent(kept);
    KeptIndicesComplete(xs, norm, r);
    r
  }

  /** Each stripped output is its own strip. */
  lemma StripAllIdempotent(xs: seq<string>)
    ensures forall j :: 0 <= j < |xs| ==> Strip(StripAll(xs)[j]) == StripAll(xs)[j]
  {
    forall j | 0 <= j < |xs|
      ensures Strip(StripAll(xs)[j]) == StripAll(xs)[j]
    {
      StripIdempotent(xs[j]);
    }
  }

  /** Listing the stripped sentences at every kept index leaves none out. */
  lemma KeptIndicesComplete(xs: seq<string>, norm: char -> char, r: seq<string>)
    requires |r| == |KeptIndices(KeepFlags(xs, norm), 0)|
    requires forall j :: 0 <= j < |r| ==> r[j] == Strip(xs[KeptIndices(KeepFlags(xs, norm), 0)[j]])
    ensures forall i :: 0 <= i < |xs| && !IsAlphabetOnly(xs[i], norm) ==> Strip(xs[i]) in r
  {
    var flags := KeepFlags(xs, norm);
    var f := KeptIndices(flags, 0);
    forall i | 0 <= i < |xs| && !IsAlphabetOnly(xs[i], norm)
      ensures Strip(xs[i]) in r
    {
      assert flags[i];
      var j :| 0 <= j < |f| && f[j] == i;
      assert r[j] == Strip(xs[i]);
    }
  }

  predicate AllSpaces(t: string)
  {
    forall k :: 0 <= k < |t| ==> IsSpace(t[k])
  }

  /** Number of leading whitespace characters. */
  function LeadingSpaces(s: string): (n: nat)
    ensures n <= |s| && AllSpaces(s[..n]) && (n == |s| || !IsSpace(s[n]))
  {
    if |s| == 0 || !IsSpace(s[0]) then 0
    else
      var n := 1 + LeadingSpaces(s[1..]);
      assert s[..n] == [s[0]] + s[1..][..n - 1];
      n
  }

  /** Number of trailing whitespace characters. */
  function TrailingSpaces(s: string): (n: nat)
    ensures n <= |s| && AllSpaces(s[|s| - n..]) && (n == |s| || !IsSpace(s[|s| - n - 1]))
  {
    if |s| == 0 || !IsSpace(s[|s| - 1]) then 0
    else
      var n := 1 + TrailingSpaces(s[..|s| - 1]);
      assert s[|s| - n..] == s[..|s| - 1][|s| - n..] + [s[|s| - 1]];
      n
  }

  /** `unicode.strip()`: s without its leading and trailing whitespace. */
  function Strip(s: string): (r: string)
    ensures |r| > 0 ==> !IsSpace(r[0]) && !IsSpace(r[|r| - 1])
    ensures exists a :: 0 <= a <= |s| - |r| && r == s[a..a + |r|] && AllSpaces(s[..a]) && AllSpaces(s[a + |r|..])
  {
    var a := LeadingSpaces(s);
    var t := s[a..];
    var n := TrailingSpaces(t);
    StripFacts(s, a, n, t);
    t[..|t| - n]
  }

  /**
   * The shape of the strip from the facts about its two whitespace runs alone. A step
   * for the verifier only: with `LeadingSpaces` out of view the proof stays small.
   */
  lemma StripFacts(s: string, a: nat, n: nat, t: string)
    requires a <= |s| && t == s[a..] && n <= |t|
    requires AllSpaces(s[..a]) && (a == |s| || !IsSpace(s[a]))
    requires AllSpaces(t[|t| - n..]) && (n == |t| || !IsSpace(t[|t| - n - 1]))
    ensures 0 <= a <= |s| - (|s| - a - n)
    ensures s[a..][..|s| - a - n] == s[a..a + (|s| - a - n)]
    ensures AllSpaces(s[..a]) && AllSpaces(s[a + (|s| - a - n)..])
    ensures |s| - a - n > 0 ==> !IsSpace(s[a]) && !IsSpace(s[|s| - n - 1])
  {
    assert s[a + (|s| - a - n)..] == t[|t| - n..];
    assert s[a..][..|s| - a - n] == s[a..a + (|s| - a - n)];
    if |s| - a - n > 0 {
      assert s[|s| - n - 1] == t[|t| - n - 1];
    }
  }

  /** Stripping twice is stripping once. */
  lemma StripIdempotent(s: string)
    ensures Strip(Strip(s)) == Strip(s)
  {
    var r := Strip(s);
    assert LeadingSpaces(r) == 0;
    assert r[0..] == r;
    assert TrailingSpaces(r) == 0;
    assert r[..|r|] == r;
  }

  /** `map(lambda sent: sent.strip(), sents)`. */
  function StripAll(xs: seq<string>): (r: seq<string>)
    ensures |r| == |xs| && forall j :: 0 <= j < |xs| ==> r[j] == Strip(xs[j])
  {
    seq(|xs|, j requires 0 <= j < |xs| => Strip(xs[j]))
  }
}
