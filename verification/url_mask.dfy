/**
 * `__mask_url`: every match of `https?://[\w:;/.?%#&=+-]+` in a paragraph becomes
 * the tag `<URL>`. The regex is replaced by a hand-written left-to-right scanner;
 * the body class is greedy and nothing follows it, so each match is the longest
 * URL-character run after the scheme.
 */
module UrlMask {
  import opened Chars

  const UrlTag: string := "<URL>"

  predicate AllUrlChars(s: string)
  {
    forall k :: 0 <= k < |s| ==> IsUrlChar(s[k])
  }

  /** The pattern as a language: a scheme and at least one body character. */
  predicate IsUrl(u: string)
  {
    || (|u| > 7 && u[..7] == "http://" && AllUrlChars(u[7..]))
    || (|u| > 8 && u[..8] == "https://" && AllUrlChars(u[8..]))
  }

  /** Length of the longest prefix made of URL characters. */
  function UrlRunLen(s: string): (n: nat)
    ensures n <= |s| && AllUrlChars(s[..n])
    ensures n == |s| || !IsUrlChar(s[n])
  {
    if |s| > 0 && IsUrlChar(s[0]) then 1 + UrlRunLen(s[1..]) else 0
  }

  /** Length of the pattern's match starting at the first character of s, 0 when none. */
  function UrlMatchLen(s: string): (n: nat)
    ensures n <= |s|
  {
    if |s| > 8 && s[..8] == "https://" && IsUrlChar(s[8]) then 8 + UrlRunLen(s[8..])
    else if |s| > 7 && s[..7] == "http://" && IsUrlChar(s[7]) then 7 + UrlRunLen(s[7..])
    else 0
  }

  /** A reported match is a URL and cannot be extended: the body class is greedy. */
  lemma UrlMatchIsLongestUrl(s: string)
    ensures var n := UrlMatchLen(s);
            n > 0 ==> IsUrl(s[..n]) && (n == |s| || !IsUrlChar(s[n]))
  {
    var n := UrlMatchLen(s);
    if |s| > 8 && s[..8] == "https://" && IsUrlChar(s[8]) {
      assert s[..n][8..] == s[8..][..UrlRunLen(s[8..])];
      assert s[..n][..8] == s[..8];
    } else if |s| > 7 && s[..7] == "http://" && IsUrlChar(s[7]) {
      assert s[..n][7..] == s[7..][..UrlRunLen(s[7..])];
      assert s[..n][..7] == s[..7];
    }
  }

  /** When the scanner reports no match, no prefix of s is a URL. */
  lemma NoMatchNoUrlPrefix(s: string, m: nat)
    requires UrlMatchLen(s) == 0 && 0 < m <= |s|
    ensures !IsUrl(s[..m])
  {
  }

  /** Every match starts with 'h'. */
  lemma UrlStartsWithH(s: string)
    ensures UrlMatchLen(s) > 0 ==> s[0] == 'h'
  {
    if UrlMatchLen(s) > 0 {
      assert s[0] == s[..7][0];
    }
  }

  /** A URL prefix of length 8 or 9 (scheme and one body character) exists in every URL. */
  lemma ShortUrl(u: string) returns (m: nat)
    requires IsUrl(u)
    ensures m <= |u| && IsUrl(u[..m])
  {
    if |u| > 8 && u[..8] == "https://" && AllUrlChars(u[8..]) {
      m := 9;
      assert u[..9][..8] == u[..8];
      assert u[..9][8..] == [u[8..][0]];
    } else {
      m := 8;
      assert u[..8][..7] == u[..7];
      assert u[..8][7..] == [u[7..][0]];
      assert !(u[..8][..8] == "https://" && |u[..8]| > 8);
    }
  }

  /**
   * `re.sub(URL pattern, u"<URL>", par)`. The tag is shorter than any URL, so masking
   * never lengthens a paragraph.
   */
  function MaskUrls(s: string): (r: string)
    ensures |r| <= |s|
    decreases |s|
  {
    if |s| == 0 then ""
    else
      var n := UrlMatchLen(s);
      UrlMatchLongerThanTag(s);
      if n > 0 then UrlTag + MaskUrls(s[n..]) else [s[0]] + MaskUrls(s[1..])
  }

  /** A match has its scheme and at least one body character: more than the tag's five. */
  lemma UrlMatchLongerThanTag(s: string)
    ensures UrlMatchLen(s) == 0 || UrlMatchLen(s) > |UrlTag|
  {
    if |s| > 7 && s[..7] == "http://" && IsUrlChar(s[7]) {
      assert s[7..][0] == s[7];
    }
  }

  /** `__mask_url` over the list of paragraphs. */
  function MaskUrlsAll(text: seq<string>): (r: seq<string>)
    ensures |r| == |text| && forall i :: 0 <= i < |text| ==> r[i] == MaskUrls(text[i])
  {
    seq(|text|, i requires 0 <= i < |text| => MaskUrls(text[i]))
  }

  /** No position of s starts a URL. */
  predicate NoUrl(s: string)
  {
    forall i :: 0 <= i < |s| ==> UrlMatchLen(s[i..]) == 0
  }

  /** The first URL start in s shows up, unmoved, as the tag's '<'. */
  lemma TagAt(s: string, j: nat)
    requires j < |s| && UrlMatchLen(s[j..]) > 0
    requires forall i :: 0 <= i < j ==> UrlMatchLen(s[i..]) == 0
    ensures |MaskUrls(s)| > j && MaskUrls(s)[j] == '<'
  {
    MaskedTailIsSuffix(s, j);
  }

  /** The first position below m that starts a URL in s, or m when there is none. */
  lemma FirstUrlBelow(s: string, m: nat) returns (j: nat)
    ensures j <= m
    ensures forall i :: 0 <= i < j && i < |s| ==> UrlMatchLen(s[i..]) == 0
    ensures j < m ==> j < |s| && UrlMatchLen(s[j..]) > 0
  {
    j := 0;
    while j < m && j < |s| && UrlMatchLen(s[j..]) == 0
      invariant 0 <= j <= m
      invariant forall i :: 0 <= i < j && i < |s| ==> UrlMatchLen(s[i..]) == 0
    {
      j := j + 1;
    }
    if j < m && |s| <= j {
      j := m;
    }
  }

  /** Every character of a URL is a scheme character or a URL character, never '<'. */
  lemma NoTagInsideUrl(s: string, m: nat, j: nat)
    requires j < m <= |s| && IsUrl(s[..m])
    ensures s[j] != '<'
  {
    var u := s[..m];
    assert s[j] == u[j];
    forall k | k == j
      ensures u[k] != '<'
    {
      if |u| > 7 && u[..7] == "http://" && AllUrlChars(u[7..]) {
        if k >= 7 { assert IsUrlChar(u[7..][k - 7]); }
        else { assert u[k] == u[..7][k]; }
      } else {
        if k >= 8 { assert IsUrlChar(u[8..][k - 8]); }
        else { assert u[k] == u[..8][k]; }
      }
    }
  }

  /** If the masked text starts a URL, so did the input: a tag's '<' cannot be part of one. */
  lemma HeadUrlComesFromInput(s: string)
    requires UrlMatchLen(s) == 0
    ensures UrlMatchLen(MaskUrls(s)) == 0
  {
    var r := MaskUrls(s);
    var n := UrlMatchLen(r);
    if n > 0 {
      UrlMatchIsLongestUrl(r);
      var m := ShortUrl(r[..n]);
      assert r[..n][..m] == r[..m];
      var j := FirstUrlBelow(s, m);
      if j < m {
        TagAt(s, j);
        NoTagInsideUrl(r, m, j);
      } else {
        MaskedTailIsSuffix(s, m);
        assert r[..m] == s[..m];
        NoMatchNoUrlPrefix(s, m);
      }
      assert false;
    }
  }

  /** No position below n starts a URL. */
  predicate NoUrlBefore(s: string, n: nat)
  {
    forall i :: 0 <= i < n && i < |s| ==> UrlMatchLen(s[i..]) == 0
  }

  /** Once no URL starts before n, the masked text is s[..n] followed by the masked rest. */
  lemma {:induction false} MaskedTailIsSuffix(s: string, n: nat)
    requires n <= |s| && NoUrlBefore(s, n)
    ensures MaskUrls(s) == s[..n] + MaskUrls(s[n..])
    decreases n
  {
    if n == 0 {
      assert s[0..] == s;
    } else {
      assert NoUrlBefore(s, n - 1);
      MaskedTailIsSuffix(s, n - 1);
      MaskedPrefixStep(s, n);
    }
  }

  lemma MaskedPrefixStep(s: string, n: nat)
    requires 0 < n <= |s| && UrlMatchLen(s[n - 1..]) == 0
    requires MaskUrls(s) == s[..n - 1] + MaskUrls(s[n - 1..])
    ensures MaskUrls(s) == s[..n] + MaskUrls(s[n..])
  {
    KeepOneChar(s, n - 1);
    MoveOne(s[..n - 1], s[n - 1], MaskUrls(s[n..]), MaskUrls(s[n - 1..]), MaskUrls(s));
    SnocSlice(s, n);
  }

  /** A prefix grows by its next character. A step for the verifier only. */
  lemma SnocSlice(s: string, n: nat)
    requires 0 < n <= |s|
    ensures s[..n - 1] + [s[n - 1]] == s[..n]
  {
  }

  /** Moving one character across a concatenation. A step for the verifier only. */
  lemma MoveOne(a: string, c: char, t: string, u: string, m: string)
    requires m == a + u && u == [c] + t
    ensures m == (a + [c]) + t
  {
  }

  /** Where no URL starts, the character is copied and the scan moves on by one. */
  lemma KeepOneChar(s: string, i: nat)
    requires i < |s| && UrlMatchLen(s[i..]) == 0
    ensures MaskUrls(s[i..]) == [s[i]] + MaskUrls(s[i + 1..])
  {
    assert s[i..][1..] == s[i + 1..];
  }

  /** URL masking leaves no URL behind: no position of its output starts a match. */
  lemma {:induction false} MaskUrlsLeavesNoUrl(s: string)
    ensures NoUrl(MaskUrls(s))
    decreases |s|
  {
    if |s| > 0 {
      var n := UrlMatchLen(s);
      var r := MaskUrls(s);
      if n > 0 {
        var rest := MaskUrls(s[n..]);
        MaskUrlsLeavesNoUrl(s[n..]);
        assert r == UrlTag + rest;
        TagHeadNoUrl(r);
        NoUrlAfter(r, rest, |UrlTag|);
      } else {
        var rest := MaskUrls(s[1..]);
        MaskUrlsLeavesNoUrl(s[1..]);
        assert r == [s[0]] + rest;
        assert r[0..] == r;
        assert s[0..] == s;
        HeadUrlComesFromInput(s);
        NoUrlAfter(r, rest, 1);
      }
    }
  }

  /** No URL starts inside the tag: none of its characters is an 'h'. */
  lemma TagHeadNoUrl(r: string)
    requires |r| >= |UrlTag| && r[..|UrlTag|] == UrlTag
    ensures forall i :: 0 <= i < |UrlTag| ==> UrlMatchLen(r[i..]) == 0
  {
    forall i | 0 <= i < |UrlTag|
      ensures UrlMatchLen(r[i..]) == 0
    {
      assert r[i..][0] == r[..|UrlTag|][i] != 'h';
      UrlStartsWithH(r[i..]);
    }
  }

  /** A URL-free suffix starting at d leaves no URL at positions d and later. */
  lemma NoUrlAfter(r: string, rest: string, d: nat)
    requires d <= |r| && r[d..] == rest && NoUrl(rest)
    requires forall i :: 0 <= i < d ==> UrlMatchLen(r[i..]) == 0
    ensures NoUrl(r)
  {
    forall i | d <= i < |r|
      ensures UrlMatchLen(r[i..]) == 0
    {
      assert r[i..] == rest[i - d..];
    }
  }

  /** A text without URLs is left alone. */
  lemma {:induction false} MaskUrlsIdentity(s: string)
    requires NoUrl(s)
    ensures MaskUrls(s) == s
  {
    MaskedTailIsSuffix(s, |s|);
    assert s[..|s|] == s;
    assert s[|s|..] == "";
  }

  /** Masking URLs twice is masking them once. */
  lemma MaskUrlsIdempotent(s: string)
    ensures MaskUrls(MaskUrls(s)) == MaskUrls(s)
  {
    MaskUrlsLeavesNoUrl(s);
    MaskUrlsIdentity(MaskUrls(s));
  }
}
