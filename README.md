# Hindi verb checker: lookup index and statistics

This project models the logic of the Hindi verb checker (`app.py`) that sits
under its Streamlit pages, and proves properties of it:

- **The lookup index.** At start-up the app walks the verb table row by row.
  It fills the dictionary `form_to_row`, which maps every comma-separated,
  stripped spelling of a row's `root` to the row. It also maps the row's
  stripped, lower-cased romanized gloss, when one is present. Later writes
  overwrite earlier ones.
- **The query policy.** A non-empty query is stripped and looked up
  verbatim. If that misses, it is looked up again lower-cased.
- **The statistics page.** These figures are computed over the plotting
  table:
  - the longest root (first maximum of `root_length`);
  - the shortest root, taken over the rows whose root is not the placeholder
    `v` (first minimum, labelled as in the full table);
  - the mean root length and the row count, both over every row;
  - the frequency ranking with its 1-based rank, behind the Zipf plot;
  - the top-20 list;
  - the bar heights of the root-length histogram, whose bin edges are
    `1 .. max + 1`.

Modules:

- `Wrappers` (`wrappers.dfy`): `Option`, which stands for pandas' missing
  values and for results pandas cannot produce.
- `Text` (`text.dfy`): Python's `str.strip()`, `str.lower()` (ASCII letters)
  and `str.split(',')`, with their algebra:
  - strip ignores surrounding whitespace, and its result is unique and
    idempotent;
  - split and join round-trip;
  - lower is idempotent.
- `VerbIndex` (`verb_index.dfy`): the verb rows, the build loop as imperative
  methods proved equal to a left fold (`Build`), a last-write-wins reference
  definition (`Owner`) proved to agree with the fold, and `Lookup` with its
  properties. It also holds an end-to-end example: one row with root
  `khā,khaa` and gloss `eat`.
- `Stats` (`stats.dfy`): the plotting rows, the placeholder filter, the
  argmax/argmin rules, the mean, the insertion-sort ranking, the top-20
  prefix and the histogram.

One might expect empty root pieces and a blank gloss to be skipped. The
code does not skip them, and the model follows the code:

- Empty pieces of `root` (from `"a,,b"` or a trailing comma) are stripped to
  `""` and registered as keys. Nothing filters them out.
- A romanized gloss that is present but blank registers the key `""`.

The frequency sort is pandas' default quicksort, which is not stable. The
model sorts with an insertion sort and proves only what every correct sort
shares: the result is a permutation of the input and never rises in
frequency. The order of rows with equal frequency is not claimed.

## Model

| member | source | states |
|---|---|---|
| VerbIndex.Build | app.py:12-19 | `form_to_row` as a left fold of one row's writes after another; its meaning is stated by `BuildIsLastWriteWins` and `BuildKeysComeFromRows` |
| VerbIndex.RowKeys | app.py:14-19 | the keys one row writes, in write order: the stripped root pieces, then the stripped, lower-cased gloss; stated by `StripEachAt`, `RootPieceIsKey` and `RomanizedIsKey` |
| VerbIndex.BuildIndex | app.py:12-19 | the nested build loop, run over the rows in input order, leaves exactly the dictionary of the left fold `Build` |
| VerbIndex.AddRow | app.py:14-19 | processing one row writes its stripped root pieces in order, then its stripped, lower-cased gloss if present |
| VerbIndex.AddPieces | app.py:15-17 | the inner loop writes the row under each stripped piece, in order |
| VerbIndex.StripEachAt | app.py:15-16 | the n-th key written for a row's root is the n-th comma piece, stripped |
| VerbIndex.RegisterWrites | app.py:17 | after the writes for one row, a key is present iff it was before or is one of the row's keys; written keys map to the row, the rest are unchanged |
| VerbIndex.ApplyIsLastWriteWins | app.py:13-19 | the fold agrees with the reference definition: a key is present iff some row writes it, and it maps to the last such row |
| VerbIndex.Owner | app.py:13-19 | the reference last-writer: the owning row writes the key, and no later row does; no owner means no row writes it |
| VerbIndex.BuildIsLastWriteWins | app.py:13-19 | a key is in `form_to_row` iff it has an owner, and it maps to the owner's row |
| VerbIndex.BuildKeysComeFromRows | app.py:12-19 | nothing but the rows' keys enters the dictionary, and every value is an input row that writes that key |
| VerbIndex.RootPieceIsKey | app.py:14-17 | every comma piece of every row's root, stripped, is a key, even when it strips to the empty string; its owner is that row or a later one |
| VerbIndex.LastRowOwnsItsPieces | app.py:13-17 | the last row's stripped pieces all map to the last row |
| VerbIndex.RomanizedIsKey | app.py:18-19 | a present gloss, stripped and lower-cased, is a key; its owner is that row or a later one |
| VerbIndex.Lookup | app.py:46-53 | nothing is looked up for empty input; an exact match of the stripped query wins; failing that, a match of the lower-cased stripped query returns that key's row; the result is not-found iff neither key is present; a found row is a value of the dictionary |
| VerbIndex.LookupIsLastWriter | app.py:46-53 | over the built dictionary, a non-empty query returns the last row writing its stripped form, else the last row writing its lower-cased stripped form, else not-found |
| VerbIndex.LookupIgnoresPadding | app.py:47 | surrounding whitespace on a non-empty query never changes its result |
| VerbIndex.BlankQueryMatchesEmptyKey | app.py:46-50 | a non-empty, whitespace-only query finds the row stored under `""` |
| VerbIndex.LookupFindsRootPiece | app.py:47-50 | a query that strips to a stripped root piece finds the last row writing that piece |
| VerbIndex.LookupFindsRomanized | app.py:52-53 | a query equal to a gloss up to whitespace and ASCII case, and not itself a key, finds the last row writing the gloss |
| VerbIndex.LookupNotFound | app.py:46-53 | a query is not found iff it is non-empty and no row writes either its stripped form or its lower-cased stripped form |
| VerbIndex.TwoSpellingsIndex | app.py:12-19 | the one-row table `khā,khaa` / `eat` builds exactly the dictionary of its two spellings and the gloss |
| VerbIndex.TwoSpellingsLookups | app.py:46-53 | in that dictionary, `khā`, `EAT` and `khaa ` find the row, and `drink` is not found |
| Text.Strip | app.py:16 | `str.strip()`: `TrimStart` then `TrimEnd` over Python's whitespace set; stated by `StripUnique`, `StripIsTrimmed` and `StripIgnoresPadding` |
| Text.Lower | app.py:19 | `str.lower()` over ASCII letters; stated character by character by `LowerAt` |
| Text.StripUnique | app.py:16 | strip returns the unique middle part of whitespace, a trimmed middle and whitespace |
| Text.StripIgnoresPadding | app.py:47 | added leading or trailing whitespace does not change what strip returns |
| Text.StripIdempotent | app.py:16 | stripping twice is stripping once |
| Text.StripAllSpace | app.py:47 | a whitespace-only string strips to the empty string |
| Text.StripIsTrimmed | app.py:16 | the result of strip starts and ends with a non-whitespace character, or is empty |
| Text.TrimStartTrims | app.py:16 | the left half of strip never lengthens and leaves no leading whitespace |
| Text.TrimEndTrims | app.py:16 | the right half of strip never lengthens, keeps the first character and leaves no trailing whitespace |
| Text.LowerAt | app.py:19 | lower-casing keeps the length and lower-cases each character in place |
| Text.LowerIdempotent | app.py:53 | lower-casing twice is lower-casing once |
| Text.LowerIgnoresCase | app.py:53 | strings equal up to ASCII case lower-case to the same string |
| Text.Split | app.py:14 | splitting gives at least one piece, and no piece contains the separator |
| Text.JoinSplit | app.py:14 | joining the pieces with commas gives back the root |
| Text.SplitJoin | app.py:14 | splitting joined comma-free pieces gives back the same pieces, empty ones included |
| Stats.IsPlaceholder | app.py:22 | a plotting row whose stripped, lower-cased root is `v` |
| Stats.Kept | app.py:22 | the row mask of `df_no_v`, one entry per row; `KeptAt` states each entry |
| Stats.KeptAt | app.py:22 | a plotting row is kept in `df_no_v` iff its stripped, lower-cased root is not `v` |
| Stats.FirstMax | app.py:24 | `idxmax`: the position holds a maximum, and every earlier position is strictly smaller |
| Stats.LongestLabel | app.py:24 | `longest` has the greatest root length of all rows, and no earlier row reaches it |
| Stats.FirstMinWhere | app.py:25 | first minimum among marked positions: absent iff none is marked; otherwise marked, no marked position is smaller, and every earlier marked one is strictly larger |
| Stats.ShortestLabel | app.py:22-25 | `idxmin` over `df_no_v`: absent iff every row is a placeholder; otherwise a kept row of least length among kept rows, the first of them |
| Stats.Summarize | app.py:22-27 | the statistics exist iff some row is not the placeholder |
| Stats.SummarizeExtremes | app.py:22-25 | `longest` is a row of greatest length over all rows; `shortest` is a non-placeholder row whose length no non-placeholder row undercuts |
| Stats.SummarizeTotals | app.py:26-27 | the total counts every row, and the mean is the sum of all root lengths divided by that count |
| Stats.Quotient | app.py:26 | the mean times the count is the sum |
| Stats.Mean | app.py:26 | the mean exists iff the column is non-empty |
| Stats.MeanBetweenExtremes | app.py:24-26 | the mean lies between the least root length of all rows and the longest |
| Stats.PlaceholderSkippedOnlyByShortest | app.py:22-27 | appending a `v` row leaves `shortest` unchanged, adds one to the total, and enters the mean |
| Stats.Insert | app.py:104 | inserting into a frequency-descending list keeps it descending and adds exactly the new row |
| Stats.SortByFrequency | app.py:104 | the sorted table is a permutation of the rows, of the same length, in non-increasing frequency |
| Stats.Ranked | app.py:104-105 | the Zipf table has one entry per row; entry i carries rank i + 1 and the i-th sorted row |
| Stats.RankedIsZipfOrder | app.py:104-105 | ranks are strictly increasing within 1..n, so each has a logarithm, and frequency never rises with rank |
| Stats.TopN | app.py:119 | `head(n)` of the sorted table is its prefix of length min(n, rows) |
| Stats.Top20 | app.py:119 | the top-frequency list has min(20, n) rows; `Top20IsHighest` states which rows |
| Stats.Top20IsHighest | app.py:119 | the top-20 list has min(20, n) rows, comes from the table, is descending, and no row left out has a higher frequency than a row kept |
| Stats.Histogram | app.py:86 | with bin edges 1..max+1 there is one bar per length 1..max, and bar b counts the rows of length b + 1 |
| Stats.HistogramTotal | app.py:86 | when every length is at least 1, the bars add up to the row count |
| Stats.BarsSum | app.py:86 | the first m bars add up to the rows of length 1..m |

## Left out

- CSV loading (app.py:8-9) is not modelled: the model takes already-parsed rows. A missing `romanized` value arrives as `None`.
- `str(NaN)` becoming the text `"nan"` (app.py:14) is not modelled: `root` is taken to be a string.
- The `isinstance(row, pd.Series)` check (app.py:57) is not modelled: every dictionary value is a row.
- The Streamlit pages, the messages, the progress bar and the `.2f` formatting of the mean (app.py:30-82) are presentation only.
- The matplotlib drawing is a foreign call: the histogram drawing, the scatter plot, the `log10` Zipf transform and the bar chart (app.py:85-113, 122-127). Only the histogram's bar heights are modelled, from its bin edges.
- Text.Lower: folds only ASCII letters, whereas Python's `str.lower()` folds every cased Unicode letter. Devanagari has no case, so Devanagari spellings are unaffected. Latin letters with diacritics in romanized spellings are not folded, though: for the query `KHĀ` against the root `khā`, app.py lower-cases to `khā` and finds the row, while the model's `Lower` gives `khĀ` and returns not-found.
- Stats.SortByFrequency: does not fix the order of rows with equal frequency, because pandas' default quicksort is not stable. Every property proved holds for any tie order.
- Stats.Mean: is an exact `real`, not a 64-bit float, and represents the NaN of an empty column as `None`.
- Stats.Summarize: returns `None` where pandas would raise, on an empty table or one whose every root is the placeholder. The exception itself is not modelled.
- Integers are unbounded. The source's columns are 64-bit integers, and overflow is not modelled.
