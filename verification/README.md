# Japanese sentence splitter and n-gram vocabulary, modelled in Dafny

This project models `sentenizer` of `lib/text_processor.py`. It is the splitter that
turns a list of paragraphs of Japanese blog text into a list of sentences. It also
models two pure parts of `lib/ngrams.py`: the sliding-window n-gram builder
`ngramalize`, and the step of `make_ngrams` that turns the most-common list into a
vocabulary of dense indices.

The sentenizer is modelled step by step, in the program's own order:

1. `__mask_url` (`UrlMask`) replaces every `https?://[\w:;/.?%#&=+-]+` with `<URL>`. A
   left-to-right scanner stands in for the regex.
2. `__mask_delimiter` (`QuoteMask` for one paragraph, `DelimiterMask` for the list)
   finds every 「…」 match of the quote pattern. It overwrites each delimiter run inside
   a match with `#` and records the run's global span and its original characters.
   `__mask` and `__demask` are in `Masking`.
3. The split of each paragraph on the delimiter alternation, with empty pieces
   dropped (`Splitter`).
4. `concat_delimiter` (`Merge`) is modelled twice:
   - `MergeStray` is a functional left fold;
   - `ConcatDelimiter` is the program's index-collect-then-pop loop, proved equal to
     the fold.
5. `demask_delimiter` (`Restore`), then the `is_alphabet_only` filter and `strip`
   (`Cleanup`).

`Sentenizer` puts the steps together. `TextSeq` holds the shared bookkeeping: the
concatenation of a list of strings, the global offset of each entry, and "entry j
covers span [b, e)". `Chars` holds the fixed character classes.

The main end-to-end results are:
- The restored sentences, laid end to end, are exactly the URL-masked paragraphs laid
  end to end (`Sentenizer.RestoredSentences`). This holds for every input: every
  masked run provably lies inside one merged sentence, so no record is ever dropped
  by `demask_delimiter`.
- A quote match is never cut into two sentences (`Sentenizer.QuoteStaysInOneSentence`).

Behaviours of the code worth knowing:
- A sentence that is empty once its spaces are removed is kept, not dropped. The
  pattern `^[…]+$` needs at least one character (`Cleanup.SpacesOnlyIsKept`).
- Input with no delimiter at all gives one restored sentence per non-empty paragraph,
  not one sentence for the whole input (`Sentenizer.NoDelimiterOnePerParagraph`). This
  holds before the alphabet-only filter and the strip: the filter may still drop some
  of those paragraphs, so the final output can have fewer.
- Python's `$` also matches just before a final `'\n'`, so a printable ASCII
  sentence that ends in one newline also counts as alphabet-only.
- The quote pattern's bracketed classes hold a literal `|`, so `|` is masked like a
  delimiter inside quotes. The interior class `[^「|^」]` also excludes `|` and `^`.

## Model

| member | source | states |
|---|---|---|
| Masking.Mask | lib/text_processor.py:40-51 | the length is kept, every position inside the span becomes `#`, every position outside it is unchanged |
| Masking.Demask | lib/text_processor.py:53-63 | the result is the text before the span, then the tokens, then the text after the span; its length changes by the tokens' length minus the span's |
| Masking.DemaskMask | lib/text_processor.py:40-63 | masking a span and then demasking it with the characters it held gives the original text back |
| Masking.DemaskPointwise | lib/text_processor.py:63 | with a token as long as the span, demasking keeps the length and puts token character k - begin at each position k of the span |
| UrlMask.UrlMatchLen | lib/text_processor.py:74 | the length of the pattern's match at a position, never past the end of the text; `UrlMask.UrlMatchIsLongestUrl` and `UrlMask.NoMatchNoUrlPrefix` show that it is the greedy match and that it misses none |
| UrlMask.MaskUrls | lib/text_processor.py:74 | the substitution never lengthens a paragraph, because the tag `<URL>` is shorter than any URL; `UrlMask.MaskUrlsLeavesNoUrl`, `UrlMask.MaskUrlsIdentity` and `UrlMask.TagAt` state what it leaves behind |
| UrlMask.UrlRunLen | lib/text_processor.py:74 | the greedy body `[\w:;/.?%#&=+-]+` takes the longest run of URL characters: all of them are URL characters and the next one is not |
| UrlMask.UrlMatchIsLongestUrl | lib/text_processor.py:74 | a match the scanner reports is a word of the URL pattern, and the character after it cannot extend it |
| UrlMask.NoMatchNoUrlPrefix | lib/text_processor.py:74 | when the scanner reports no match at a position, no prefix starting there is a URL |
| UrlMask.TagAt | lib/text_processor.py:74 | the first URL start in a paragraph shows up, at the same position, as the `<` of the tag |
| UrlMask.MaskedTailIsSuffix | lib/text_processor.py:74 | the characters before the first URL are copied unchanged, followed by the masked rest |
| UrlMask.MaskUrlsLeavesNoUrl | lib/text_processor.py:73-75 | after the substitution no position of the paragraph starts a URL |
| UrlMask.MaskUrlsIdentity | lib/text_processor.py:74 | a paragraph without a URL is left as it is |
| UrlMask.MaskUrlsIdempotent | lib/text_processor.py:73-75 | masking URLs twice gives the same result as masking them once |
| QuoteMask.MatchInterior | lib/text_processor.py:80 | no bracket lies strictly inside a quote match |
| QuoteMask.MatchEnds | lib/text_processor.py:80 | a quote match starting at i ends at the first bracket after i, so the lazy interiors give one match per start |
| QuoteMask.MatchAt | lib/text_processor.py:80 | a match is reported at i exactly when the pattern matches there, with the only possible end |
| QuoteMask.QuoteMatches | lib/text_processor.py:85 | every span the scan lists is a quote match at or after the starting position |
| QuoteMask.QuoteMatchesComplete | lib/text_processor.py:85 | the scan lists every quote match at or after its start: matches never overlap, so `finditer` misses none |
| QuoteMask.ListedIsInQuote | lib/text_processor.py:85 | a position lies inside a listed match exactly when it lies strictly inside some quote match |
| QuoteMask.RunEnd | lib/text_processor.py:82 | the greedy run `[…]+` from i extends over mask delimiters only and stops at the first other character |
| QuoteMask.DelimRuns | lib/text_processor.py:87 | the runs `p2.finditer` finds are non-empty and maximal, and together cover exactly the mask-delimiter positions of the string |
| QuoteMask.MatchRuns | lib/text_processor.py:86-88 | the runs of one match, moved by the match offset, cover exactly the mask delimiters strictly between its brackets |
| QuoteMask.RunsIn | lib/text_processor.py:85-88 | the runs of all listed matches cover exactly the mask delimiters inside listed matches |
| QuoteMask.ParagraphRuns | lib/text_processor.py:84-92 | a paragraph's masked positions are exactly the mask delimiters strictly inside some quote match |
| QuoteMask.MaskRuns | lib/text_processor.py:92 | the repeated `__mask` keeps the length and writes `#` exactly on the positions of the runs |
| QuoteMask.MaskParagraph | lib/text_processor.py:84-96 | a masked paragraph has the same length; position k changes exactly when it is a mask delimiter inside a quote, and exactly the records' spans change; every record is valid |
| DelimiterMask.MaskAll | lib/text_processor.py:78-96 | the paragraph loop keeps the paragraph count and lengths, and its records account for exactly the changed positions of the whole text |
| DelimiterMask.MaskDelimiters | lib/text_processor.py:77-97 | the masking is as above; the info is None exactly when nothing was masked, and otherwise a non-empty list whose every record has `e - b == len(tok)`, `tok` as the original text at [b, e), and `#` in the masked text there |
| DelimiterMask.NothingMaskedIffNoRecord | lib/text_processor.py:97 | there are no records exactly when the masked text equals the input |
| DelimiterMask.QuoteProtection | lib/text_processor.py:80-92 | after masking, no mask delimiter remains strictly inside a quote match |
| Splitter.DelimitersAreDelimTokens | lib/text_processor.py:133 | an entry equals a member of the `delimiter` list exactly when it is one character of the split alternation |
| Splitter.SplitParagraph | lib/text_processor.py:144 | the pieces concatenate to the paragraph; each is one delimiter or a non-empty delimiter-free run; no two delimiter-free pieces are adjacent |
| Splitter.SplitParagraphUnique | lib/text_processor.py:144 | any list with those three properties is the split, so they determine it |
| Splitter.SplitParagraphPlain | lib/text_processor.py:144 | a paragraph without a delimiter splits into itself, or into nothing when it is empty |
| Splitter.SplitAll | lib/text_processor.py:141-144 | the sentences concatenate to the concatenated paragraphs, and each is one delimiter or a non-empty delimiter-free run |
| Splitter.SplitCoversPlain | lib/text_processor.py:144 | a non-empty delimiter-free span of a paragraph lies inside one piece |
| Splitter.SplitAllCovers | lib/text_processor.py:141-144 | a non-empty delimiter-free span inside one paragraph lies inside one sentence |
| Splitter.SplitAllPlain | lib/text_processor.py:141-144 | without delimiters the split gives the non-empty paragraphs |
| Merge.MergeStray | lib/text_processor.py:110-122 | merging never makes the list longer, and gives an empty list only for an empty list |
| Merge.MergeStrayFlatten | lib/text_processor.py:120 | merging keeps the concatenation of all entries |
| Merge.MergeStrayLength | lib/text_processor.py:113-121 | the length drops by the number of one-delimiter entries after index 0 |
| Merge.MergeStrayLeavesNoStray | lib/text_processor.py:110-122 | with non-empty entries, the result has non-empty entries and no one-delimiter entry after index 0 |
| Merge.MergeStrayPlain | lib/text_processor.py:111-112 | a list with no one-delimiter entry after index 0 is left alone; a one-element list is the special case |
| Merge.MergeStrayCovers | lib/text_processor.py:120 | a span one entry covers is still covered by one entry after merging |
| Merge.DelimIndices | lib/text_processor.py:113-116 | the indices are exactly the positions of one-delimiter entries, increasing |
| Merge.CollectDelimIndices | lib/text_processor.py:113-116 | the collecting loop returns those indices |
| Merge.JoinNext | lib/text_processor.py:120 | joining an entry with the next leaves one entry fewer and the text laid end to end unchanged |
| Merge.LoopStep | lib/text_processor.py:118-121 | one pop keeps the loop invariant: the joined index is in range, and the list is the merged prefix followed by the untouched suffix |
| Merge.PopAll | lib/text_processor.py:117-122 | the pop loop over the collected indices gives the merged list |
| Merge.ConcatDelimiter | lib/text_processor.py:110-122 | `concat_delimiter` with the one-element shortcut, the index collection and the pop loop equals the fold |
| Restore.LocateFrom | lib/text_processor.py:102-107 | the scan from sentence i finds the first sentence at or after i that covers the span, or reports none |
| Restore.Locate | lib/text_processor.py:102-107 | a sentence is found exactly when some sentence covers the span, and it is the first one |
| Restore.RestoreOne | lib/text_processor.py:101-107 | the sentence count is kept and at most the first covering sentence changes |
| Restore.RestoreOneUncovered | lib/text_processor.py:103-107 | when no sentence covers the span, nothing changes |
| Restore.RestoreOneSplices | lib/text_processor.py:104-105 | restoring a same-length token keeps every sentence's length and replaces exactly the span of the concatenation by the token |
| Restore.DemaskDelimiter | lib/text_processor.py:99-108 | restoring all records keeps the sentence count |
| Restore.DemaskDelimiterRestores | lib/text_processor.py:99-108 | when every record is covered and agrees with a target text, the restored concatenation is the target and every sentence's length is kept |
| Cleanup.RemoveSpaces | lib/text_processor.py:125 | the result holds every character of the input except the two spaces, and only those |
| Cleanup.RemoveSpacesAppend | lib/text_processor.py:125 | removing spaces works piece by piece, so the kept characters stay in order and keep their multiplicity |
| Cleanup.RemoveSpacesSingle | lib/text_processor.py:125 | a single character is dropped exactly when it is a half-width or full-width space |
| Cleanup.RemoveSpacesEmpty | lib/text_processor.py:125 | the result is empty exactly when the sentence holds nothing but the two spaces |
| Cleanup.AlphabetOnlyMatch | lib/text_processor.py:129-131 | the scanner accepts exactly the non-empty printable-ASCII strings, optionally followed by one final newline, an independent description of the pattern's language |
| Cleanup.IsAlphabetOnly | lib/text_processor.py:124-131 | a sentence is alphabet-only exactly when, with the two spaces removed and the normaliser applied, it is a word of the pattern's language |
| Cleanup.SpacesOnlyIsKept | lib/text_processor.py:124-131 | a sentence made only of the two spaces, the empty one included, is not alphabet-only and is kept |
| Cleanup.ForeignCharIsKept | lib/text_processor.py:124-131 | a character that normalises to non-ASCII keeps the sentence |
| Cleanup.AsciiSentenceIsDropped | lib/text_processor.py:124-131 | a sentence of printable ASCII and spaces, with one non-space, is alphabet-only when the normaliser leaves ASCII alone |
| Cleanup.KeepSentences | lib/text_processor.py:152 | the kept sentences are exactly the members that are not alphabet-only |
| Cleanup.KeepSentencesAppend | lib/text_processor.py:152 | the filter works piece by piece, so input order is kept |
| Cleanup.KeptIndices | lib/text_processor.py:152 | the indices of the sentences the filter keeps: strictly increasing, each one kept, and every kept index listed |
| Cleanup.KeepSentencesIndices | lib/text_processor.py:152 | the filter's j-th survivor is the sentence at the j-th kept index, and there are as many survivors as kept indices |
| Cleanup.CleanSentences | lib/text_processor.py:151-154 | one stripped sentence for each sentence that is not alphabet-only, in input order, and nothing else; every output is already stripped |
| Cleanup.Strip | lib/text_processor.py:154 | the result is a slice of the input with only whitespace cut on each side, and it neither starts nor ends with whitespace |
| Cleanup.StripIdempotent | lib/text_processor.py:154 | stripping twice gives the same result as stripping once |
| Sentenizer.Sentenize | lib/text_processor.py:136-154 | the j-th result is the stripped restored sentence at the j-th index that is not alphabet-only; every such sentence appears, in order, and nothing else does |
| Sentenizer.RecordSurvivesSplitAndMerge | lib/text_processor.py:139-146 | every masked run lies inside one sentence after the split and the merge |
| Sentenizer.RestoredSentences | lib/text_processor.py:136-149 | for every input, the restored sentences concatenate to the concatenated URL-masked paragraphs, and restoring keeps the merged sentences' lengths |
| Sentenizer.RestoreRecords | lib/text_processor.py:139-149 | every masked run lies inside one merged sentence, so restoring the records puts the masked text back and keeps every length |
| Sentenizer.MergedCoversQuotes | lib/text_processor.py:139-146 | every quote match lies inside one merged sentence |
| Sentenizer.QuoteStaysInOneSentence | lib/text_processor.py:136-149 | after restoring, one sentence holds each whole quote match, brackets included |
| Sentenizer.NoDelimiterOnePerParagraph | lib/text_processor.py:136-149 | with no delimiter in the URL-masked paragraphs, the sentences are the non-empty paragraphs themselves |
| Ngrams.Ngramalize | lib/ngrams.py:20-31 | there are `max(0, len(tokens) - N + 1)` n-grams, the i-th is `"_".join(tokens[i:i+N])`, and for N = 1 the result is the tokens |
| Ngrams.Join | lib/ngrams.py:30 | the joined string holds the tokens' characters plus one separator between each two tokens; `Ngrams.SplitOnJoin` and `Ngrams.JoinSplitOn` show that the join can be undone |
| Ngrams.JoinSplitOn | lib/ngrams.py:30 | splitting on `_` and joining with `_` gives the string back |
| Ngrams.SplitOnJoin | lib/ngrams.py:30 | joining tokens that hold no `_` and splitting on `_` gives the tokens back |
| Ngrams.NgramSplitsBack | lib/ngrams.py:28-31 | an n-gram of `_`-free tokens splits back into its window |
| Ngrams.IndexKeys | lib/ngrams.py:63-64 | the vocabulary's keys are the listed n-grams, with distinct indices below its size |
| Ngrams.IndexKeysDense | lib/ngrams.py:63-64 | every index below the size is used |
| Ngrams.IndexKeysInOrder | lib/ngrams.py:63-64 | with distinct n-grams, the i-th listed one gets index i |
| Ngrams.TopVocab | lib/ngrams.py:60-64 | the vocabulary holds at most THR entries, which are exactly the first THR n-grams, with indices below its size |
| Ngrams.TopVocabInOrder | lib/ngrams.py:60-64 | the i-th most common n-gram, for i below THR, gets index i |

## Left out

- `extract_words` (lib/text_processor.py:7-27) walks MeCab's linked node list. MeCab is
  not part of this model.
- `zenhan.z2h` is a foreign library. `IsAlphabetOnly` takes an arbitrary
  per-character normaliser `norm` in its place. In the two modes the program uses
  (ASCII and digits) z2h maps each character to one character, so a per-character
  function covers it; its kana mode, which can change a string's length, is never used.
- The in-place list updates (`text[i] = …`, `sents[i] = …`, `sents.pop`) and the
  aliasing of `text` between `__mask_url` and `__mask_delimiter` are modelled as
  functions that return new lists.
- `sentenizer` overwrites its argument's paragraphs with their URL-masked and then
  delimiter-masked forms (lib/text_processor.py:74, :95), so the caller's list is
  changed after the call. The functional model leaves its input untouched and does not
  show this side effect.
- Merge.MergeStrayLeavesNoStray: requires non-empty entries. With an empty entry
  (`["a", "", "。"]`) the program itself leaves a stray delimiter at index 1. The split
  step never produces empty entries, so the pipeline always meets the requirement.
- `Ngrams.__init__`, `_sub_make_ngrams` and the joblib `Parallel` fan-out of
  `make_ngrams` (lib/ngrams.py:11-17, 33-55) are file reading and concurrency.
  `_sub_make_ngrams` also overwrites its `N` with the number of paths at :34.
- `ngramalize` is declared `@staticmethod` with a `self` parameter. The call at
  lib/ngrams.py:45 therefore binds the tokens to `self`. Only the evident body
  `ngramalize(tokens, N)` is modelled.
- `Counter.most_common` and its tie order are not modelled. `TopVocab` takes the
  sorted (n-gram, count) list as input.
- The `defaultdict` vocabulary hands out a fresh index when later code reads a
  missing key. The model covers only the vocabulary as `make_ngrams` returns it.
- `N` and `THR` are natural numbers. Python's slicing with a negative `THR`, and
  `xrange` with a negative `N`, are not modelled.
- The rest of the repository (lib/extractor.py, lib/metrics.py, lib/pipe.py,
  lib/const.py and the serializer and build scripts) is not part of this model.
