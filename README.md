# Breast-cancer target expression dashboard: filtering and counting model

The dashboard loads a differential-expression table (rows carrying a target
id, a study, a contrast, a log2 fold change and a breast RNA value) and a
target-location table. On every interaction it:

- builds the two select-box option lists from the unfiltered table;
- filters the expression table by contrast, study, a sign-dependent fold-change
  threshold and a minimum RNA value;
- computes four KPI numbers: targets, targets with DE data, studies and contrasts;
- selects the location rows of the targets left in the filtered table;
- narrows those rows by a case-insensitive text search.

This project models that pipeline as pure functions over sequences of
records and proves what each step promises. The Streamlit script rebinds the
same frame name step by step, but each step builds a new frame from a
boolean mask and nothing is updated in place.

Modules:

- `Wrappers` (`wrappers.dfy`): `Option` for a missing cell.
- `Seqs` (`seqs.dfy`): `Where`, the stable mask selection, and `IsSubsequence`.
- `Text` (`text.dfy`): ASCII lower- and upper-casing, substring containment and the code-point order `sorted` uses on strings.
- `Records` (`records.dfy`): the two row types, the "All" sentinel and the filter settings.
- `Filters` (`filters.dfy`): the four filters, the chain, and the default RNA minimum.
- `Aggregate` (`aggregate.dfy`): `unique` and `nunique`, and the four counts.
- `Locations` (`locations.dfy`): the id-membership selection and the search.
- `OptionLists` (`option_lists.dfy`): the select-box choices.
- `Dashboard` (`dashboard.dfy`): one full recomputation and two worked examples.

Semantics followed, taken from the code:

- A missing cell is `None`. Every comparison with it is false, as a pandas comparison with NaN is. So an active contrast, study, fold-change or RNA filter drops such a row.
- The id, study and contrast columns are nullable: pandas reads an empty CSV cell as NaN in any column. The script drops missing contrast and study values when it builds the option lists, and `nunique` skips missing values in all three counted columns.
- `unique()` on the id column (line 88) keeps a missing id as a value. `isin` matches a missing id with a missing id. So `IdSet` is a set of `Option<string>` that can hold `None`. The "Targets" count comes from `nunique`, which skips the missing id. The lemma `IdSetAndTargets` states how the two differ.
- The option lists are built from the unfiltered table. A column value that is literally "All" would appear a second time in the list, and selecting it would switch that filter off. The model keeps both behaviours.
- A fold-change threshold of exactly zero applies no fold-change filter.

## Model

| member | source | states |
|---|---|---|
| `Filters.MinRna` | bioinfo_app.py:60 | The default RNA minimum is missing exactly when every RNA value is missing. Otherwise it is an RNA value of some row and no present RNA value is smaller. |
| `Filters.StageIsSelection` | bioinfo_app.py:68-85 | Each of the four steps, whether its `if` skips it or not, is the stable selection of the rows that pass that filter's test. |
| `Filters.StagesAreSelection` | bioinfo_app.py:68-85 | Applying any sequence of filter steps in turn selects exactly the rows that pass every step in the sequence, in input order. |
| `Filters.ApplyFiltersIsSelection` | bioinfo_app.py:68-85 | The chain as the script writes it equals one selection by the conjunction of the four active filters. |
| `Filters.FilteredRows` | bioinfo_app.py:68-85 | The filtered table is a subsequence of the input. A row is in it exactly when the row is in the input and passes every active filter. Each kept row keeps all of its duplicates, and a dropped row occurs zero times. |
| `Filters.FiltersCommute` | bioinfo_app.py:68-85 | Applying the four filters in any order, each at least once, gives the same table as the script's order. |
| `Filters.RegulationThresholdSign` | bioinfo_app.py:73-82 | A positive threshold keeps only rows with a fold change at or above it, and a negative one only rows with a fold change at or below it; a missing fold change fails both. At zero, membership depends only on the other three filters, so rows without a fold change survive. |
| `Filters.DefaultsKeepMeasuredRows` | bioinfo_app.py:60-85 | With both choices at "All", a zero threshold and the RNA minimum at its default, the result is exactly the rows that have an RNA value. With no missing RNA value, it is the whole table. |
| `Aggregate.DistinctValues` | bioinfo_app.py:95-98 | The values `nunique` counts are exactly the present values of the column in some row. There are no more of them than rows. |
| `Aggregate.IdSet` | bioinfo_app.py:88 | The id set holds exactly the ids, a missing one included, that occur in some row. It is no larger than the table. |
| `Aggregate.IdSetAndTargets` | bioinfo_app.py:88-95 | The id set and the "Targets" values agree on present ids. The id set also holds the missing id exactly when some row has no id. |
| `Aggregate.DeTargetsAtMostTargets` | bioinfo_app.py:94-99 | "Targets with DE data" never exceeds "Targets". |
| `Aggregate.CountBounds` | bioinfo_app.py:94-99 | Each count is at most the number of rows. Each count is zero exactly when no row (for DE: no row with a fold change) has a value in that column. An empty table gives four zeros. |
| `Aggregate.NullsNotCounted` | bioinfo_app.py:94-99 | Adding a row whose id, study and contrast are all missing changes none of the four counts. |
| `Locations.SelectedLocations` | bioinfo_app.py:180 | Selecting by the filtered table's id set gives a subsequence of the location table. A row is in it exactly when its id occurs in the filtered table. Each such row keeps all of its duplicates. |
| `Locations.SearchResult` | bioinfo_app.py:188-193 | An empty term returns the table unchanged. Otherwise the result is a subsequence holding exactly the rows whose lower-cased location text contains the lower-cased term at some offset, each matching row with all of its duplicates. |
| `Locations.LocationView` | bioinfo_app.py:180-193 | The id selection followed by the search is a subsequence of the location table. A row is in it exactly when its id is selected and it passes the search, and each such row keeps all of its duplicates. |
| `Locations.SearchCaseInsensitive` | bioinfo_app.py:190 | Two terms with the same lower-cased form give the same result. |
| `Locations.SearchIgnoresCase` | bioinfo_app.py:190 | A term, its upper-cased form and its lower-cased form give the same result. |
| `Text.ContainsAt` | bioinfo_app.py:190 | Substring containment holds exactly when the term occurs at some offset of the text. |
| `Text.LowerOfUpper` | bioinfo_app.py:190 | Lower-casing an upper-cased text gives the lower-cased original. |
| `Text.LexLessTransitive` | bioinfo_app.py:55 | The string order that `sorted` uses is transitive. |
| `Text.LexLessTotal` | bioinfo_app.py:55 | Any two different strings are ordered one way or the other. |
| `OptionLists.Insert` | bioinfo_app.py:55 | Inserting into a strictly increasing list keeps it strictly increasing. The result holds the inserted value and the old elements, and nothing else. |
| `OptionLists.SortedValues` | bioinfo_app.py:55 | The sorted values of a column are strictly increasing. They are exactly the distinct present values of that column. |
| `OptionLists.OptionList` | bioinfo_app.py:55-63 | An option list starts with "All". The rest is strictly increasing, so sorted and without repeats, and holds exactly the present values of the column, with no missing value. |
| `OptionLists.StrictlyIncreasingUnique` | bioinfo_app.py:55 | Two strictly increasing lists with the same elements are equal. |
| `OptionLists.OptionListsAreSortedUniqueValues` | bioinfo_app.py:55-63 | The option list equals "All" followed by any sorted, repeat-free list of the column's present values, which is what `sorted` of the unique non-null values gives. |
| `Dashboard.DefaultCriteria` | bioinfo_app.py:56-182 | The initial settings exist exactly when some RNA value is present. They are: both choices "All", a fold-change threshold of 0.0, the smallest present RNA value as minimum and an empty search term. With them, the filter keeps exactly the rows that have an RNA value. |
| `Dashboard.Refresh` | bioinfo_app.py:55-193 | Each option list is "All" followed by a strictly increasing list of exactly the present values of its column in the unfiltered table. The filtered table is the subsequence of rows passing every active filter, each with all of its duplicates. The counts are those of the filtered table, with "Targets with DE data" <= "Targets" <= the number of filtered rows. The id set holds the ids of the passing rows. The location result is a subsequence of the location table holding, with all duplicates, exactly the rows whose id is in that set and that pass the search. |
| `Dashboard.UpRegulatedExample` | bioinfo_app.py:68-99 | With an up-regulation threshold of 1.0, the G1 row (fold change 2.0) is kept and the G2 row (-3.0) is dropped. All four counts are 1. |
| `Dashboard.NucleusSearchExample` | bioinfo_app.py:180-193 | With only G1 selected, the term "nuc" finds exactly G1's "Nucleus" row. |

## Left out

- Page setup, CSS, sidebar widgets, KPI tile HTML and `display_dashboard` (lines 6-35, 101-142, 145, 167-176, 196-197). These are presentation only. The widget values become the `Criteria` argument.
- The Plotly scatter chart (lines 152-163) is a rendering call into a plotting library. `Log_RNA_Value_Breast` is only plotted, so the row type omits it.
- CSV loading (lines 38-45) is file I/O. The model takes the two tables as already-loaded sequences of rows. A load failure is not modelled.
- `str.contains` reads the search term as a regular expression. The model matches the term literally, which agrees for terms without regular-expression metacharacters.
- `str.lower()` applies Unicode case mapping. The model lower-cases ASCII letters only.
- `astype(str)` turns a missing location text into the text "nan". The model takes `locations_clean` as always present.
- Floating-point values are modelled as `real` with `None` for NaN. Infinities, rounding and NaN as a user-entered threshold are not modelled. Only `>=` and `<=` comparisons occur.
- Dashboard.DefaultCriteria: when every RNA value is missing, the script's default minimum is NaN, which drops every row. The model returns no default settings in that case.
- Columns whose values pandas parses as numbers (a numeric `study_id`, for example) are modelled as strings.
