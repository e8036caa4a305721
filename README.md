# Netflix titles dashboard: the data pipeline

The dashboard loads a table of Netflix titles, cleans it, lets the user filter
it by content type and release year, and draws six summaries of the filtered
view. This project models the data pipeline behind those summaries as pure
Dafny functions over sequences, and proves what each step delivers.

- `Records` (`records.dfy`): `load_data`. Every text column is stripped of
  leading and trailing whitespace. `date_added` is stripped again and handed to
  the date parser. `year_added` and `month_added` are derived from the parsed
  date, and the numeric `year` column from `release_year`.
- `Filtering` (`filtering.dfy`): the sidebar mask. A record is kept when its
  type is among the selected types and its release year is present and within
  `[lo, hi]`, both bounds included. Catalog order is kept.
- `Counting` (`counting.dfy`): pandas' `value_counts`, `sort_index` and
  `head(n)`.
- `Aggregation` (`aggregation.dfy`): the type distribution, the titles added per
  year, the top-10 genres, countries and directors, and the actor text for the
  word cloud. `Dashboard` runs one whole pass.
- `Text` (`text.dfy`): Python's `str.strip()`, `str.split(', ')` and
  `' '.join(...)`.
- `Scenarios` (`scenarios.dfy`): worked examples on a three-title catalog and
  on an unreadable date.

Tie order. pandas does not document the order of equal counts in
`value_counts`. The model fixes one rule. Values are tallied in the order they
are first met (`Tally`, `TallyFirstSeen`). The sort by count is a stable
insertion sort (`SortByCountStable`). So equal counts keep first-seen order
(`ValueCountsTieOrder`). The model does not claim that pandas does the same.

Three behaviours of the code are easy to miss. The model follows them:
- The pieces of a split are not stripped (app.py:69). `"a ,b"` stays one piece.
- Only missing cells are dropped before splitting (`dropna`, app.py:69). A cell
  that held only whitespace is stripped to `""` at app.py:20. It is then split
  into the single piece `""`, which is counted.
- An empty type selection is allowed. It yields an empty view
  (`EmptySelectionEmptyView`), and every summary of it is empty
  (`EmptyViewEmptySummaries`).

The filter tests `release_year` (app.py:42), not the derived `year` column
(app.py:29). The two columns are equal in the model (`WellFormed`).

## Model

| member | source | states |
|---|---|---|
| Text.TrimLeft | app.py:20 | the result is the suffix left after the leading whitespace; all of that whitespace is removed |
| Text.TrimRight | app.py:20 | the result is the prefix left before the trailing whitespace; all of that whitespace is removed |
| Text.Trim | app.py:20 | `strip()` returns the infix between the leading and the trailing whitespace. Everything cut off is whitespace, interior whitespace is kept, and the result neither starts nor ends with whitespace |
| Text.TrimOfTrimmed | app.py:20 | a string without leading or trailing whitespace is left unchanged |
| Text.TrimIdempotent | app.py:20-23 | stripping twice equals stripping once |
| Text.Split | app.py:69 | `split(', ')` always returns at least one piece, and its first piece is a prefix of the input |
| Text.SplitPiecesHaveNoDelim | app.py:69 | no piece of a split contains `", "` |
| Text.JoinSplit | app.py:69 | joining the pieces with `", "` gives back the cell text |
| Text.SplitOfPlain | app.py:69 | text without `", "` splits into itself alone |
| Text.SplitOfPieceThenDelim | app.py:69 | a delimiter-free piece followed by `", "` is split off as one piece |
| Text.SplitJoin | app.py:69 | splitting the `", "`-join of delimiter-free parts gives back the parts (the inverse direction of `JoinSplit`) |
| Text.Join | app.py:98 | `sep.join(parts)`: the parts with `sep` between neighbours. Pinned by `JoinAppend`, and by `JoinSplit` and `SplitJoin` as the inverse of `Split`; it carries no contract of its own |
| Text.JoinSpaceOfSplit | app.py:96-98 | space-joining the pieces of a cell equals the cell with each `", "` replaced by one space |
| Text.JoinAppend | app.py:98 | joining two non-empty part lists puts exactly one separator between their joins |
| Counting.Bump | app.py:51 | counting one more occurrence keeps the existing keys in order and appends a new key at the end; the total goes up by one; counts stay positive |
| Counting.BumpCountOf | app.py:51 | counting `k` adds one to the count of `k` and leaves every other count unchanged |
| Counting.Tally | app.py:51 | the counter has no repeated key, only positive counts, a key for exactly the values present, and counts that add up to the number of values |
| Counting.TallyCountOf | app.py:51 | every value's count is its number of occurrences |
| Counting.TallyEntries | app.py:51 | every entry of the counter holds the number of occurrences of its key |
| Counting.TallyFirstSeen | app.py:51 | the keys counted from a prefix of the input are a prefix of the keys: keys appear in first-seen order |
| Counting.InsertByCount | app.py:51 | insertion adds exactly the new entry (as a multiset) |
| Counting.InsertByCountOrdered | app.py:51 | insertion keeps the counts non-increasing |
| Counting.InsertByCountDistinct | app.py:51 | inserting an entry with a new key keeps keys distinct |
| Counting.SortByCount | app.py:51 | the sort returns a permutation of its input, with counts non-increasing |
| Counting.SortByCountDistinct | app.py:51 | sorting keeps keys distinct |
| Counting.InsertByCountStable | app.py:51 | insertion leaves the order of the other entries of each count unchanged, and puts the new entry first among entries of its count |
| Counting.SortByCountStable | app.py:51 | the sort is stable: the entries of each count keep their input order |
| Counting.ValueCounts | app.py:51 | `value_counts()` has no repeated value, counts non-increasing and adding up to the input length. The exact counts are in `ValueCountsSpec` |
| Counting.PermutedTally | app.py:51 | any reordering of the counter still holds each value's exact positive count, has keys for exactly the values present, and counts summing to the input length |
| Counting.ValueCountsSpec | app.py:51 | `value_counts` lists each distinct value once and no other value, with its exact positive count; counts are non-increasing and add up to the input length |
| Counting.ValueCountsTieOrder | app.py:51 | among entries with equal counts, `value_counts` keeps the counter's first-seen order (the tie-break chosen here) |
| Counting.Top | app.py:70 | `head(n)` returns a prefix of `value_counts` with at most `n` entries, and all of it when it has fewer than `n` |
| Counting.TopSpec | app.py:70 | `head(n)` returns a prefix of `value_counts` with at most `n` entries, sorted and exact. A value it leaves out is no more frequent than any value it keeps, and a value is left out only when `n` entries are kept |
| Counting.InsertByKey | app.py:59 | insertion by key adds exactly the new entry (as a multiset) |
| Counting.InsertByKeyOrdered | app.py:59 | inserting a new key keeps keys strictly ascending |
| Counting.SortByKey | app.py:59 | `sort_index` returns a permutation of its input |
| Counting.SortByKeyOrdered | app.py:59 | sorting a series whose keys are distinct makes its keys strictly ascending |
| Counting.SumOfPermutation | app.py:59 | reordering entries does not change the sum of their counts |
| Counting.SortedCountsSpec | app.py:59 | `value_counts().sort_index()` has strictly ascending keys, one per distinct value, each with its exact positive count; counts add up to the input length |
| Records.StripCell | app.py:20 | a stripped cell is missing exactly when the raw cell is missing. A present cell becomes `Trim` of its text, so it neither starts nor ends with whitespace |
| Records.StripCellIdempotent | app.py:20-23 | stripping a stripped cell changes nothing |
| Records.ParseDateCell | app.py:23-24 | a missing `date_added` gives no date. A cell whose text is already stripped reaches the parser unchanged |
| Records.Normalize | app.py:16-31 | `type` is the stripped raw type, and every other text column is the stripped raw cell. A normalised row is well formed: its text columns are stripped, and `year_added`/`month_added` are missing exactly when `date_added` is and otherwise equal its year and month. `year` equals `release_year`. Cells are missing exactly when they were missing in the row. The parser receives the stripped cell text |
| Records.LoadData | app.py:16-31 | one well-formed record per row, in row order; no row is dropped |
| Filtering.Selected | app.py:41-42 | the mask: `type` in the selection, and `release_year` present with `lo <= release_year <= hi`. A predicate with no contract of its own; `FilterViewExact` and `MissingYearNeverSelected` use it |
| Filtering.FilterView | app.py:40-43 | the view is no longer than the catalog, and every record in it is in the catalog and matches type, present year and `lo <= year <= hi` |
| Filtering.FilterViewExact | app.py:40-43 | the view is a subsequence of the catalog. Each record occurs in it as often as in the catalog when it matches, and not at all otherwise |
| Filtering.FilterViewAppend | app.py:40-43 | the mask is applied record by record: filtering a concatenation concatenates the filtered parts |
| Filtering.EmptySelectionEmptyView | app.py:41 | an empty type selection gives an empty view |
| Filtering.MissingYearNeverSelected | app.py:42 | a record without a release year is never in the view |
| Filtering.FilterViewIdempotent | app.py:40-43 | filtering the view again with the same criteria changes nothing |
| Filtering.ViewWellFormed | app.py:40-43 | the view contains only normalised (well-formed) records when the catalog does |
| Aggregation.Types | app.py:51 | the `type` column of the view: one entry per record, in view order, holding that record's type |
| Aggregation.TypeCounts | app.py:51 | the type distribution has no repeated type, counts non-increasing, adding up to the size of the view |
| Aggregation.TypeCountsSpec | app.py:51 | the type counts list each type seen in the view, and no other, once, with the positive number of view records of that type. Counts are non-increasing and add up to the size of the view |
| Aggregation.YearsAdded | app.py:59 | the non-missing `year_added` values: as many as the dated records, and each year as often as records of the view were added in it |
| Aggregation.YearsAddedSnoc | app.py:59 | a record added to the view contributes its `year_added` at the end, or nothing when it has none |
| Aggregation.YearSeries | app.py:59 | the year series has strictly ascending years, and its counts add up to the number of dated records |
| Aggregation.YearsAddedSpec | app.py:59 | the non-missing `year_added` values number exactly the dated records, and a year occurs among them exactly when some view record was added that year |
| Aggregation.YearSeriesSpec | app.py:59 | the year series has strictly ascending years and only years in which some view record was added (no zero entries). Each year's count is the positive number of view records added that year, and the counts add up to the number of view records with a `year_added` |
| Aggregation.Tokens | app.py:69-70 | `dropna().str.split(', ').explode()`: no resulting piece contains `", "` |
| Aggregation.TokensAppend | app.py:69-70 | the exploded pieces of a column are the pieces of its parts, in order |
| Aggregation.TokensShape | app.py:69-70 | no exploded piece contains `", "`, and there are no pieces exactly when every cell is missing |
| Aggregation.ColumnTokensSnoc | app.py:69-70 | a record added to the view contributes the split pieces of its cell, or nothing when the cell is missing |
| Aggregation.RankingCountsSnoc | app.py:69-70 | a record with k pieces adds its pieces' occurrences to the counts, k in all. A missing cell adds nothing |
| Aggregation.TopTen | app.py:69-88 | each ranking is a prefix of the `value_counts` of the column's pieces, with at most 10 entries |
| Aggregation.TopTenSpec | app.py:69-70 | every top-10 ranking (genres, countries, directors) is a prefix of `value_counts` with at most 10 entries and no repeated value, with counts non-increasing. Each count is the number of times the value occurs as a piece of a present cell. Values contain no `", "`. A value is left out only when 10 are kept, and it is no more frequent than any value kept |
| Aggregation.CastText | app.py:96-98 | the actor text is the present casts, in view order, each with its `", "` turned into a space, joined by single spaces |
| Aggregation.CastPhrasesJoin | app.py:96-98 | space-joining the exploded cast pieces equals space-joining the casts with their delimiters turned into spaces; there are pieces exactly when there are casts |
| Aggregation.CastTextEmpty | app.py:96-98 | a view with no cast, and in particular an empty view, gives the empty actor text |
| Aggregation.CastTextSnoc | app.py:96-98 | a record without a cast adds nothing to the actor text. A record with cast `c` adds `c` with each `", "` turned into a space, after one separating space unless it is the first cast |
| Aggregation.Dashboard | app.py:40-98 | one pass: the view is the filtered catalog, the row count is its size, the type counts add up to it, the year series adds up to its dated records, and each ranking has at most 10 entries |
| Aggregation.EmptyViewEmptySummaries | app.py:40-98 | an empty view gives empty summaries, not an error |
| Scenarios.ThreeTitles | app.py:40-70 | on a catalog of two movies and a TV show, selecting movies from 2010-2020 keeps the 2015 movie; the type counts are `Movie: 1`; its tied genres rank `Drama, Comedy` in first-seen order |
| Scenarios.UnreadableDate | app.py:23-28 | a `date_added` the parser cannot read leaves the date, `year_added` and `month_added` missing, and the record adds nothing to the year series |

## Left out

- Streamlit page layout, titles, widgets and `st.cache_data` memoisation
  (app.py:12, 15, 36-38, 45-47, 106-107): user interface and process-wide caching.
- The slider's bounds and default range and the multiselect's options
  (app.py:37-38). `types`, `lo` and `hi` are parameters.
- Reading the CSV file (app.py:17). The rows are an input. `release_year` is
  taken as the reader's numeric result (`Option<int>`). A `release_year` column
  that the reader leaves as text is not modelled; pandas would then compare
  text with the integer bounds at app.py:42.
- The date parser `pd.to_datetime(..., errors='coerce')` (app.py:24) is a
  function parameter from text to an optional date. A missing cell is taken as
  a missing date. pandas turns it into the text "nan", which its parser reads
  as missing. No range is assumed for the parsed month.
- `pd.to_numeric` (app.py:29) is the identity on the already numeric
  `release_year` column, so `year` equals `release_year`.
- A missing `type` cell is not modelled: `type` is a plain string in every row.
- The columns `show_id`, `rating`, `duration` and `description` are stripped
  like the other text columns but feed only the preview table; they are not
  in the record.
- `filtered_df.shape` is reduced to its row count. The preview
  `filtered_df.head()` (app.py:47) is not modelled.
- All chart and word-cloud rendering (app.py:52-55, 60-65, 71-74, 80-83,
  89-92, 99-103): presentation and floating point. The word cloud's own word
  counting is part of that.
- pandas' own tie order in `value_counts`: undocumented; the model fixes
  first-seen order instead.
- `year_added` and `month_added` are floats in pandas, because the column
  holds NaT. The model uses integers.
- Aggregation.Dashboard: states only the headline properties of each summary.
  The full contracts are the `*Spec` lemmas it calls.
