# fuzzy_search_lib — a Dafny model of the matching core

`fuzzy_search_lib` loads a newline-separated corpus once and answers
`search(query)` with the single corpus entry closest to the query under a
naive positional metric: the difference of the two byte lengths plus the
number of aligned character positions that differ (not edit distance),
normalised by the query's byte length. This project models, in
`src/lib.rs`:

- the split of the corpus text into lines (`load_corpus`, line 45), with the
  file read represented by its outcome (`CorpusLoader.FileContents`);
- the `distance` closure (lines 61–84);
- the closest-match scan `find_closest_str` (lines 53–105);
- `FuzzySearcher::search` (lines 138–140) over an immutable corpus.

Files and modules:

| file | module | contents |
|---|---|---|
| `utf8.dfy` | `Utf8` | `ByteLen`: Rust's `str::len`, the UTF-8 byte count |
| `corpus.dfy` | `CorpusLoader` | `Split`/`Join` and `LoadCorpus`, the error type |
| `float.dfy` | `Float64` | quotients of lengths as IEEE values and IEEE `<` |
| `matcher.dfy` | `Matcher` | raw and normalised distance |
| `scan.dfy` | `Scan` | argmin specification and the scan method |
| `searcher.dfy` | `Searcher` | `FuzzySearcher`, `New`, `Search` |

Modelling decisions:

- **Bytes versus characters.** Lines 70–71 measure `.len()` (UTF-8 bytes)
  while line 74 zips `.chars()`. Strings are `seq<char>` (Unicode scalar
  values) and `Utf8.ByteLen` computes the byte length from each character's
  UTF-8 width, so no ASCII assumption is needed; `Utf8.AsciiByteLen` shows
  that on ASCII the two lengths coincide.
- **Floats.** `Float64.Float` is a finite value, `+inf` or NaN, with IEEE
  `<` (NaN compares false both ways; `+inf` is below nothing). A finite
  value is the exact fraction `num/den` of two naturals; rounding is not
  modelled. The scan
  method performs exactly the comparisons of line 97 on these values:
  the initial bound is `len(arg) as f64` (line 55), every candidate is
  `raw / len(arg)`. `Float64.DivideBelowBound` and `Float64.DivideMonotone`
  show that for a query of `n > 0` bytes these comparisons are the integer
  tests `raw < n*n` and `raw < raw_best`, and that for `n = 0` (`0/0` is NaN,
  `k/0` is `+inf`) nothing is ever below the bound `0.0`. The specification
  of the scan (`Scan.IsClosest`) is stated over the integers.
- **What line 97 compares.** Line 97 compares the closure's normalised
  result (line 91) with `closest_distance`, which starts at
  `len(arg) as f64`. In integer terms an entry is first picked only when
  `raw < n*n`, not `raw < n`.
- **The 0–1 range claim.** The doc comments at lines 50 and 60 say the
  normalised distance lies between 0 and 1. That holds when the query is
  non-empty and the entry has no more bytes than it (`Matcher.NormalisedRange`)
  but not in general: query `"a"` against entry `"xyz"` gives 3
  (`Matcher.NormalisedCanExceedOne`), and the empty query gives NaN against
  the empty entry and `+inf` against any other (`Matcher.EmptyQueryNotNormalised`),
  so the doc comments fail there too.
- **Non-empty corpus.** Line 54 indexes `reference_strs[0]`, so the scan
  takes a `CorpusLoader.Corpus`, a sequence with at least one entry. The
  splitter always yields one (`CorpusLoader.Split` returns one more piece
  than there are newlines), so a loaded searcher always satisfies it.

## Model

| member | source | states |
|---|---|---|
| Utf8.ByteLen | src/lib.rs:70-71 | the byte length is at least the character count, and is 0 only for the empty string |
| Utf8.AsciiByteLen | src/lib.rs:70-74 | on ASCII text `.len()` and the number of `.chars()` agree |
| CorpusLoader.Split | src/lib.rs:45 | splitting yields exactly one more piece than the text has newlines (so never an empty sequence) and no piece contains a newline |
| CorpusLoader.JoinSplit | src/lib.rs:45 | joining the pieces with `"\n"` gives back the original text |
| CorpusLoader.SplitJoin | src/lib.rs:45 | splitting the join of newline-free pieces gives back those pieces |
| CorpusLoader.SplitSingleLine | src/lib.rs:45 | a text without newline is a one-entry corpus holding that text |
| CorpusLoader.SplitTrailingNewline | src/lib.rs:45 | `"a\nb\nc\n"` splits to `["a","b","c",""]` and `"a\nb\nc"` to `["a","b","c"]` |
| CorpusLoader.LoadCorpus | src/lib.rs:33-46 | an unopenable file gives `UnableToOpenCorpusFile`, any read error, including invalid UTF-8, gives `UnableToReadCorpusFileToString`, readable text gives newline-free lines whose join is the text |
| Float64.FromNat | src/lib.rs:55 | `n as f64` is the finite value `n` |
| Float64.Divide | src/lib.rs:82 | dividing by a positive length gives the finite value `num/den`; `0/0` is NaN and `k/0` with `k > 0` is `+inf` |
| Float64.DivideBelowBound | src/lib.rs:55-97 | a normalised distance is below the initial bound `len(arg)` exactly when `raw < n*n`; never when `n = 0` |
| Float64.DivideMonotone | src/lib.rs:97 | for a fixed positive query length, normalised distances compare as raw distances do |
| Float64.DivideAboveOne | src/lib.rs:82 | a quotient by a positive length exceeds 1 exactly when the numerator exceeds that length |
| Matcher.Distance | src/lib.rs:61-84 | the loop over zipped characters computes the byte-length difference plus the positional mismatches, divided by the byte length of `a` |
| Matcher.RawDistanceSymmetric | src/lib.rs:61-79 | the raw distance is symmetric in its two arguments |
| Matcher.RawDistanceZero | src/lib.rs:61-79 | the raw distance is 0 if and only if the strings are equal |
| Matcher.RawDistanceAtMostLonger | src/lib.rs:61-79 | the raw distance lies between the byte-length difference and the longer byte length |
| Matcher.NormalisedRange | src/lib.rs:60-83 | for a non-empty query, the normalised distance is at most 1 when the entry is no longer than the query, and above 1 when it is more than twice as long |
| Matcher.NormalisedCanExceedOne | src/lib.rs:50-83 | query `"a"` against `"xyz"` has raw distance 3 and normalised distance 3, contrary to the documented 0–1 range |
| Matcher.EmptyQueryNotNormalised | src/lib.rs:60-83 | for the empty query the normalised distance is NaN against the empty entry and `+inf` against any other, never a value between 0 and 1 |
| Matcher.HelloHelpDistance | src/lib.rs:61-79 | `"hello"` against `"help"` is 2 (one byte longer, one mismatch), against itself 0 |
| Scan.FirstMinIndex | src/lib.rs:89-101 | the index returned holds a minimum and every earlier index holds a strictly larger value |
| Scan.FirstMinUnique | src/lib.rs:97 | there is only one earliest minimum |
| Scan.ClosestIndex | src/lib.rs:53-101 | the selected index is within the corpus; if some raw distance is below `n*n` it is the earliest minimal one, otherwise it is the seed 0 |
| Scan.ClosestIndexUnique | src/lib.rs:53-101 | an index satisfies that description if and only if it is the selected index |
| Scan.ClosestMatch | src/lib.rs:104 | the result is an element of the corpus, never a synthesised string |
| Scan.FindClosestStr | src/lib.rs:53-105 | the scan with IEEE comparisons against the bound `len(arg)` returns a corpus element, the one at the selected index |
| Scan.TiesKeepEarliest | src/lib.rs:97 | of two entries at equal raw distance the later is never chosen |
| Scan.ExactMatchFound | src/lib.rs:55-97 | a non-empty query that occurs in the corpus is returned itself |
| Scan.EmptyQueryKeepsFirst | src/lib.rs:54-97 | for the empty query no update fires and the first entry is returned |
| Scan.NothingBelowBoundKeepsFirst | src/lib.rs:54-97 | when no raw distance is below `n*n` the first entry is returned, even if a later entry is closer |
| Scan.DuplicateEntriesExample | src/lib.rs:97 | query `"ab"` on `["ab","ab"]` selects index 0 |
| Searcher.New | src/lib.rs:128-133 | construction succeeds exactly when the corpus file's text could be read, maps each read failure to its error, and stores exactly the split of that text: newline-free lines whose join is that text |
| Searcher.Search | src/lib.rs:138-140 | search returns an element of the stored corpus, determined by the query and the corpus alone, so repeated calls agree |
| Searcher.LoadedTextIsSearchable | src/lib.rs:45-54 | any corpus text loads into a non-empty corpus (one entry per newline plus one), which the scan's indexing of entry 0 requires |

## Left out

- Opening and reading the file (lines 35–42): operating-system effects; their outcome is the parameter `CorpusLoader.FileContents`.
- Searcher.New: the `path` argument is not modelled, because the code ignores it and always reads `corpus/words.txt` (line 129); the file's read outcome is the parameter.
- The `correctness` vector (lines 87 and 94): floating-point, never returned, so unobservable.
- Float64.Divide: finite quotients are exact fractions, not rounded binary64 values; the equivalence of the float comparisons with the integer tests assumes lengths small enough that rounding cannot reorder them (it fails only for strings of roughly 2^26 bytes and more).
- Float64.DivideBelowBound: `len(arg) as f64` is taken as exact, which holds for lengths below 2^53.
- The `thiserror` derive and `Display` messages (lines 14–23) and the empty `it_works` test (lines 8–12).
- The clone at line 104 and borrowing: values are immutable here, so the returned string never aliases the corpus.
