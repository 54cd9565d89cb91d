# Cancer mortality dashboard: the data pipeline, modelled in Dafny

The dashboard shows cancer mortality rates per 100,000 people by country, year, sex, cancer type
and age bracket. This project models and proves its one piece of real logic, `load_data`. That
function takes two wide tables: a mortality table with one Deaths column per age bracket, and a
population table with one Pop column per age bracket. It turns them into a long fact table in six
steps:

1. melt each table, so that every age-bracket cell becomes its own row;
2. left-merge mortality rows with population rows on Country, Year, Sex and Age;
3. backfill missing Pop values within each (Country, Sex, Age) group, in row order;
4. drop every row that still has a missing cell;
5. group by (Country, Year, Cancer, Age, Sex) and sum Deaths and Pop;
6. add `Rate = Deaths / Pop * 100000`.

The project also models the page's filter chain. The chain narrows the fact table to one year,
one sex, a list of countries and one cancer type. It ends with the diagnostic that reports the
selected countries for which the narrowed table has no rows.

Modules, one per file:

- `Tables` (tables.dfy): an `Option` type for missing cells, and `Where`, the row filter that
  `dropna` and the subset filters are built on.
- `Records` (records.dfy): the row types, and the key order that `groupby` sorts by. Strings are
  compared by code point and Year numerically.
- `Reshape` (reshape.dfy): the melt. Its output is column-major, as pandas produces it: the rows of
  the first age column, then the rows of the second, and so on.
- `Merge` (merge.dfy): the left merge, with its general semantics. Each mortality row yields one
  row per matching population row, or one row with Pop missing when nothing matches.
- `Backfill` (backfill.dfy): the grouped backward fill, as a reference function.
- `Aggregate` (aggregate.dfy): group-and-sum, as sorted insertion.
- `Rate` (rate.dfy): the rate column.
- `Load` (load.dfy): the pipeline.
  - The merged frame is a class. Its Pop column is overwritten in place by a backward scan that
    remembers the next Pop of each group. Its incomplete rows are then dropped in place.
  - `LoadData` chains all six steps, and is proved equal to the composition of the reference
    functions.
- `Explore` (explore.dfy): the filter chain and the missing-countries diagnostic.

A row whose summed Pop is 0 is kept with its rate absent, as `load_data` keeps it. The source
divides without a guard, so floating point would give `inf` or `NaN` there; the model has no such
value.

`groupby(...).sum()` sorts its keys, and "Age 5-14" sorts before "Age <5" because '5' precedes '<'
in code-point order. `EndToEndExample` proves the fact rows in that sorted order.

## Model

| member | source | states |
|---|---|---|
| Reshape.Melt | streamlit_app.py:10-20 | For a table with R rows and K age columns, column k occupies positions Offset(k, R) to Offset(k, R) + R of the result, which has Offset(K, R) rows. Position Offset(k, R) + j carries the ids of wide row j, the k-th header as its Age and cell (j, k) as its value, including a missing cell. |
| Reshape.OffsetIsProduct | streamlit_app.py:10-20 | Offset(k, R) is k×R: the melt's column blocks are laid end to end. |
| Reshape.MeltLength | streamlit_app.py:10-20 | A table with R rows and K age columns melts into exactly K×R rows. |
| Reshape.MeltAges | streamlit_app.py:10-20 | Every melted row's Age is one of the table's age headers. |
| Reshape.MeltUnique | streamlit_app.py:10-20 | With distinct id tuples and distinct headers, no two melted rows share (ids, Age). |
| Merge.LeftMerge | streamlit_app.py:23 | The left merge has at least as many rows as the mortality table. |
| Merge.LeftMergeFromMortality | streamlit_app.py:23 | Every merged row carries the Country, Year, Cancer, Sex, Age and Deaths of some mortality row unchanged. |
| Merge.LeftMergeKeepsMortality | streamlit_app.py:23 | Every mortality row appears in the merge with Country, Year, Cancer, Sex, Age and Deaths unchanged: a left merge loses no row of its left table. |
| Merge.LeftMergeAligned | streamlit_app.py:23 | With unique population keys, merged row i is mortality row i joined with the Pop cell of its key. |
| Merge.LeftMergeUnique | streamlit_app.py:23 | With unique population keys: the row count equals the mortality row count and the order is kept. Pop is the cell of the population row with the same (Country, Year, Sex, Age), which may itself be missing, and is missing when no population row has that key. |
| Merge.LeftMergePop | streamlit_app.py:23 | With any population table, repeated keys included: every merged row's Pop is the cell of some population row with the same (Country, Year, Sex, Age), or is missing because no population row has that key. |
| Merge.MeltedPopulationUnique | streamlit_app.py:16-23 | A population table keyed by (Country, Year, Sex), with distinct age headers, melts into a table with unique join keys. |
| Backfill.Backfilled | streamlit_app.py:25-26 | The backfill keeps the row count and order. It changes no column other than Pop, and never changes a present Pop. |
| Backfill.NextPopSpec | streamlit_app.py:26 | The value looked up for row i is missing exactly when no row of the group at or after i has a Pop. Otherwise it is the Pop of the first such row. |
| Backfill.BackfillTakesNextPresent | streamlit_app.py:25-26 | A missing Pop becomes the Pop of the first later row of the same (Country, Sex, Age) group that has one. It stays missing when no later row of the group has one. |
| Backfill.BackfillIdempotent | streamlit_app.py:26 | Backfilling an already backfilled table changes nothing. |
| Backfill.BackfillExample | streamlit_app.py:26 | A group with Pop [missing, 50, missing], with a row of another group interleaved, becomes [50, 50, missing]. |
| Load.Frame.FillPop | streamlit_app.py:26 | The in-place backward scan leaves the frame's rows equal to the backfill of its old rows. |
| Load.Frame.DropIncomplete | streamlit_app.py:29 | `dropna(inplace=True)` leaves exactly the complete rows of the old frame, in their order. |
| Tables.Where | streamlit_app.py:29 | Every kept row satisfies the predicate and comes from the input. Every input row that satisfies it is kept. |
| Tables.WhereCount | streamlit_app.py:29 | A row satisfying the predicate is kept exactly as many times as it occurs. Any other row is not kept. |
| Tables.WhereAppend | streamlit_app.py:29 | Filtering distributes over concatenation, so kept rows keep their relative order. |
| Tables.WhereAll | streamlit_app.py:29 | Filtering rows that all satisfy the predicate keeps them all. |
| Load.Cleaned | streamlit_app.py:23-29 | After merge, backfill and drop, no row has a missing Deaths or Pop. |
| Records.StrLessTransitive | streamlit_app.py:32 | Code-point string order is transitive. |
| Records.StrLessTotal | streamlit_app.py:32 | Any two distinct strings are ordered one way or the other. |
| Records.KeyLessTransitive | streamlit_app.py:32 | The (Country, Year, Cancer, Age, Sex) key order is transitive. |
| Records.KeyLessTotal | streamlit_app.py:32 | Any two distinct keys are ordered. |
| Aggregate.Find | streamlit_app.py:32 | Looking up a key finds a group with that key, or nothing exactly when no group has it. |
| Aggregate.Insert | streamlit_app.py:32 | Adding one row keeps the grouped table sorted. It adds the row's cells to its key's sums and leaves every other key's group unchanged. |
| Aggregate.GroupSum | streamlit_app.py:32 | The grouped table is sorted by key. A key has a group exactly when some row has it, and the group holds the sums of Deaths and Pop over the rows with that key. |
| Aggregate.GroupSumRows | streamlit_app.py:31-32 | Each grouped row holds the sums over the rows with its key. No key occurs twice. Every input key has its grouped row, and every grouped key comes from the input. |
| Rate.RatePer100k | streamlit_app.py:35 | A rate exists exactly when Pop is positive. It is non-negative, and Rate × Pop = Deaths × 100,000. |
| Rate.WithRates | streamlit_app.py:34-35 | Adding the Rate column keeps every row's key, Deaths and Pop. Each rate exists exactly when Pop is positive, and agrees with the counts. |
| Load.LoadData | streamlit_app.py:8-37 | The pipeline (melt, merge, in-place backfill, in-place drop, group-sum, rate) returns `Load.FactTable`, the composition of the reference functions: `Load.Cleaned` (merge, backfill, drop) followed by `Load.Aggregated` (group-sum, then rate). |
| Load.FactTableInvariants | streamlit_app.py:31-35 | The fact table's keys are strictly increasing, hence unique. Deaths and Pop are the sums over the cleaned rows with each key, and every cleaned key has its fact row. Each rate exists exactly when Pop is positive, with Rate × Pop = Deaths × 100,000. |
| Load.TestlandKeyOrder | streamlit_app.py:32 | The group key with Age "Age 5-14" sorts before the same key with Age "Age <5". |
| Load.TestlandRates | streamlit_app.py:35 | 10 deaths in 100,000 give rate 10.0, and 0 deaths in 50,000 give 0.0. |
| Load.EndToEndExample | streamlit_app.py:8-37 | One Testland mortality row and one population row over "Age <5" and "Age 5-14" give two fact rows in key order. The first is (Age 5-14: 0 deaths, Pop 50000, rate 0.0); the second is (Age <5: 10 deaths, Pop 100000, rate 10.0). |
| Explore.SelectSubset | streamlit_app.py:54-103 | Narrowing `subset` by year, then sex, then country, then cancer gives the single combined selection applied to the table. |
| Explore.FilterChain | streamlit_app.py:54-103 | The four successive filters select the same rows, in the same order, as their conjunction. |
| Explore.SelectionMeaning | streamlit_app.py:54-103 | Every row of the subset has the chosen year, sex and cancer and a chosen country. Every matching row of the table is kept, as often as it occurs, and no other row is. |
| Explore.CountriesOf | streamlit_app.py:169 | The subset's countries are exactly the countries of its rows. |
| Explore.Diagnose | streamlit_app.py:169-175 | As computed: it reports nothing when the number of distinct subset countries equals the length of the selection list. Otherwise it reports no data when the subset has no country, and else the selected countries with no row. |
| Explore.DiagnoseMeaning | streamlit_app.py:169-175 | For a filtered subset and a selection without repeats: nothing is reported exactly when every selected country has a row. "No data" is reported exactly when the subset is empty and some country is selected. A list of missing countries is never empty. |

## Left out

- Fetching and parsing: the CSV files are fetched over HTTP and parsed by `pd.read_csv` (streamlit_app.py:10, 16). This is I/O. The model starts from the parsed wide tables.
- Caching: `@st.cache` (streamlit_app.py:7) only memoises the function.
- Widgets: the slider, radio, multiselect and select box (streamlit_app.py:52, 61, 76, 97) become parameters of `Explore.SelectSubset`. The values they offer are not modelled: the minimum and maximum year, the available countries and cancers, and the default cancer (streamlit_app.py:49-50, 75, 96-101).
- `st.write` output: the model keeps the diagnostic as a value, not its message text. The missing countries are joined in set iteration order, which is not specified.
- Charts: the Altair charts, their log colour scale, legend selection and layout (streamlit_app.py:108-167) are presentation only.
- Floating point: `Rate` is a real number, and a zero population gives no rate instead of `inf` or `NaN`. The row itself is kept, as the code keeps it.
- Pandas types: Deaths and Pop are natural numbers and a missing cell is `None`. Pandas would hold them as floats with `NaN`.
- Missing key columns: rows whose Country, Year, Sex or Age are themselves missing are not modelled. Pandas' merge matches `NaN` keys and `groupby` drops them; every key cell is present in the model.
- Load.Frame: the Rate column (streamlit_app.py:35) is added by the pure function `Rate.WithRates` on the grouped rows, not by an in-place method. The grouped table is a fresh frame (`reset_index`), and each Rate depends only on its own row.
- Explore.DiagnoseMeaning: requires a selection without repeats. The multiselect guarantees this. With a repeated country, the length comparison can report an empty list of missing countries; `Explore.Diagnose` models that as written.
- Explore.SelectSubset: the base table is a value, so leaving it unchanged is not a separate property.
