# ESG panel preparation and country selection, modelled in Dafny

This project models the data-preparation core of a small ESG-and-growth
study written with pandas.

`src/data_preparation.py` takes two World Bank style wide tables: ESG
indicators, and GDP / inflation / FDI indicators. It reshapes each one into a
long table with one row per (country, indicator, year), and labels every
indicator with a category using keyword rules. It then concatenates the two
long tables, sorts them, and left-merges a country classification table
(Region, Income Group). Finally it turns the Value column into numbers.

`src/country_selection.py` restricts the panel to a fixed list of 50
countries, and summarises it with two tables:

- a Region × Income Group count table with totals;
- a sorted, de-duplicated listing of the countries.

Tables are sequences of records and cells are values, so every operation is
a pure function. The pandas code has no loops and no shared state: each
function rebinds a local table step by step and returns it.

Modules:

- `Wrappers`: `Option` and `Result`.
- `Text`: the string operations the source relies on:
  - ASCII lower-casing;
  - substring search, the `in` test on strings;
  - code-point string order;
  - `int()` on a short string: surrounding whitespace, an optional sign, ASCII digits.
- `Ordering`: sort keys with missing values last, and the stable multi-column
  `sort_values`. The sort is an insertion sort, proved sorted, a permutation
  and stable.
- `Collections`: `drop_duplicates` (keeps first occurrences) and counting by label.
- `Categories`: `assign_category` and `assign_economic_category`.
- `Reshape`: `clean_esg_dataset` and `clean_gdp_dataset`:
  - `melt` in column-major order;
  - the Year conversion of the first four header characters, with its failure;
  - the category, the `dropna` on Indicator, and the Source label.
- `Panel`: `prepare_country_classification` and `merge_to_panel`.
- `CountrySelection`: `SELECTED_COUNTRY_NAMES`, `select_50_countries`,
  `make_region_income_table` and `get_selected_countries_metadata`.

Three pandas behaviours are modelled explicitly:

- A failing `astype(int)` raises an error. Here it is a `Failure` that carries
  the first four characters of the first year header that does not convert.
  This is the text `int()` was given. An empty table never fails, because
  `astype` then has nothing to convert.
- `crosstab` drops rows whose Region or Income Group is missing, both from
  the cells and from the totals. Its margins count the same data as its cells.
- `crosstab` with `margins=True` raises an error when a Region or Income
  Group label is itself "Total", the margin name. `MakeRegionIncomeTable`
  returns a `Failure` then, and the table otherwise. When no row has both
  labels, the table is empty with a Total of zero. This follows pandas 2,
  where the margins step returns the empty table unchanged.

## Model

| member | source | states |
|---|---|---|
| Text.ContainsIff | src/data_preparation.py:43 | the substring test holds exactly when the keyword occurs at some position of the name |
| Text.LowerIdempotent | src/data_preparation.py:40 | lower-casing a lower-cased or upper-cased name gives the lower-cased name |
| Categories.FirstMatchSpec | src/data_preparation.py:42-74 | a first-match rule list returns Other exactly when no keyword occurs, and otherwise the category of the first keyword that occurs |
| Categories.AssignCategoryIsFirstMatch | src/data_preparation.py:38-74 | `assign_category` is the first-match rule list co2, fossil, renewable, methane, nitrous, unemployment, gini, rights, corruption, political, gdp, expenditure, applied to the lower-cased name |
| Categories.AssignCategoryOther | src/data_preparation.py:40-74 | the result is Other exactly when none of the twelve keywords occurs in the lower-cased name |
| Categories.AssignCategoryFirstWins | src/data_preparation.py:43-72 | when keyword i occurs and no earlier keyword does, the result is keyword i's category |
| Categories.AssignCategoryPrecedence | src/data_preparation.py:43-72 | when any keyword occurs the result is not Other, and it comes no later in Environmental, Social, Governance, Economic order than that keyword's category (so a name with co2 and gdp is Environmental) |
| Categories.AssignCategoryCaseInsensitive | src/data_preparation.py:40 | upper- or lower-casing the name changes neither classifier's result |
| Categories.AssignEconomicCategorySpec | src/data_preparation.py:76-90 | the result is Economic or Other, and Economic exactly when gdp, inflation, foreign direct investment, research or r&d occurs in the lower-cased name |
| Reshape.YearColumnsFrom | src/data_preparation.py:103 | the melted columns are exactly the columns whose header contains "[", in table order |
| Text.ParseIntFourDigits | src/data_preparation.py:116 | `int()` of a four-digit, zero-padded number gives that number |
| Reshape.YearOfRoundTrip | src/data_preparation.py:115-116 | a header that starts with a four-digit year, such as "2005 [YR2005]", converts to that year |
| Text.ParseIntRejects | src/data_preparation.py:116 | `int()` rejects any text whose first character is not white space, a sign or a digit |
| Reshape.YearOfRejects | src/data_preparation.py:115-116 | no header whose first character is not white space, a sign or a digit converts. Examples are the bare World Bank headers "[YR2005]" and "YR2005" |
| Reshape.LongRows | src/data_preparation.py:115-125 | every row produced carries the cleaner's source and the category its classifier gives the row's indicator |
| Reshape.LongRowsMeltFails | src/data_preparation.py:104-116 | converting the melted Year column fails exactly when there are rows and some year header does not convert; the error carries the first four characters of the first such header |
| Reshape.LongRowsMelt | src/data_preparation.py:104-122 | when all year headers convert, the cleaned melt is, year column after year column, one row per input row that has a Series Name |
| Reshape.BlocksAt | src/data_preparation.py:104-109 | the melt is column-major: row b of year column a sits at a times the block size plus b and comes from input row b and column a |
| Reshape.CleanFails | src/data_preparation.py:115-116 | both cleaners fail exactly when the table has rows and some year column's first four header characters are not an integer; the error carries those four characters of the first such column |
| Reshape.CleanBlocks | src/data_preparation.py:100-125 | on success the cleaned table is the kept rows block by block, and every kept row has an indicator |
| Reshape.CleanCount | src/data_preparation.py:119-122 | the cleaned table has (input rows minus rows without Series Name) × (year columns) rows |
| Reshape.CleanRowAt | src/data_preparation.py:104-125 | each cleaned row carries its input row's Country Name, Country Code, Series Name as Indicator, the cell as Value, the year of its column's header, the indicator's category and the source |
| Reshape.CleanLabels | src/data_preparation.py:118-125 | ESG rows are labelled "ESG" and categorised by `assign_category`; economic rows are labelled "Economic" and are Economic or Other |
| Panel.PreparedLookup | src/data_preparation.py:170-179 | after the renaming, and with no Code repeated, looking up a Country Code finds the Economy, Region and Income group of the raw row with that Code, and nothing when no raw row has it |
| Panel.MergeWithPreparedClassification | src/data_preparation.py:170-218 | with no Code repeated, merging with the prepared table gives each long row exactly one panel row. That row has the Region and Income group of the raw row whose Code is its Country Code, or neither when no raw row has that Code |
| Panel.LendingCategoryIgnored | src/data_preparation.py:170-177 | the Lending category column has no influence on the cleaned classification table |
| Panel.Matches | src/data_preparation.py:214-218 | the classification rows joined to a code are exactly those with that code; none exactly when no row has it |
| Panel.SortedLongSpec | src/data_preparation.py:205-211 | before the join, the table holds exactly the ESG and economic rows, sorted by (Country Code, Year, Category), with equal keys kept in concatenation order |
| Panel.JoinOneRows | src/data_preparation.py:214-223 | the rows a long row gives keep its own columns and carry the Region and Income Group of a classification row with its code, or none |
| Panel.LeftJoinOrigin | src/data_preparation.py:214-226 | every merged row carries some left row's columns (its Country Name among them) and a classification of its code, or missing Region and Income Group when the code has none |
| Panel.LeftJoinCovers | src/data_preparation.py:214-218 | every left row appears in the merge, as membership: some merged row carries its columns |
| Panel.LeftJoinAppend | src/data_preparation.py:214-218 | merging a concatenation gives the merge of the first part followed by the merge of the second |
| Panel.LeftJoinLength | src/data_preparation.py:214-218 | the merge has, for each left row, one row per classification row with its code, or one row when there is none; so it never has fewer rows than the left table |
| Panel.LeftJoinAt | src/data_preparation.py:214-218 | left row k owns its own block of the merge. The block starts after the blocks of rows 0..k-1 and holds, in order, the rows that left row k gives. So two equal left rows each keep their own rows |
| Panel.TotalWidthSnoc | src/data_preparation.py:214-218 | the block of left row k+1 starts where the block of row k ends |
| Panel.LeftJoinSorted | src/data_preparation.py:209-218 | the left merge keeps the order of a table sorted by (Country Code, Year, Category) |
| Panel.MergeSorted | src/data_preparation.py:205-218 | the panel is sorted by (Country Code, Year, Category) |
| Panel.MergeRows | src/data_preparation.py:193-226 | as membership: every panel row comes from an ESG or economic long row, and every long row of both inputs appears in the panel |
| Panel.MergeKeepsRows | src/data_preparation.py:205-218 | the sorted table holds the ESG and economic rows with their multiplicities. The panel has as many rows as the merge widths of those rows add up to, so never fewer than both inputs together |
| Panel.MergeValues | src/data_preparation.py:205-226 | every panel row comes from a long row of either input. Its Value is missing exactly when that row's cell was missing, or was text the numeric parser rejects |
| Panel.MergeDotsMissing | src/data_preparation.py:225-226 | with a parser that rejects "..", every ".." cell of either input reaches the panel as a missing Value |
| Panel.MatchesUnique | src/data_preparation.py:214-218 | with one classification row per code, at most one row matches a code |
| Panel.Lookup | src/data_preparation.py:214-218 | the looked-up classification row has the code; none exactly when no row has the code |
| Panel.LeftJoinUnique | src/data_preparation.py:214-218 | with unique codes the left merge neither adds nor drops rows, position for position |
| Panel.MergeUnique | src/data_preparation.py:205-226 | with unique codes the panel has as many rows as both inputs together, and row k is sorted row k with its classification and numeric Value |
| CountrySelection.ListPositionOfEach | src/country_selection.py:41-67 | each listed name is found at its own position, so no name is listed twice |
| CountrySelection.SelectedCountryNamesDistinct | src/country_selection.py:41-67 | the list has 50 entries, all distinct, so it names 50 countries |
| CountrySelection.Select50Countries | src/country_selection.py:71-90 | selection fails exactly when an explicit empty list is given |
| CountrySelection.SelectDefault | src/country_selection.py:76-77 | without a list, the selection uses the 50 names |
| CountrySelection.KeepNamedSpec | src/country_selection.py:84 | the output holds exactly the input rows with a listed name, each as often as in the input, unchanged and in input order |
| CountrySelection.KeepNamedAppend | src/country_selection.py:84 | filtering a concatenation filters each part in turn |
| CountrySelection.KeepNamedIdempotent | src/country_selection.py:84 | filtering twice with the same list gives the same rows as filtering once |
| CountrySelection.Select50CountriesIdempotent | src/country_selection.py:71-90 | selecting from a selection with the same argument returns it unchanged |
| CountrySelection.KeepNamedNames | src/country_selection.py:84-87 | the output's distinct names are the listed names that occur in the input; a listed name no row carries contributes nothing |
| CountrySelection.SelectDefaultAtMost50 | src/country_selection.py:84-88 | with the default list the output names at most 50 distinct countries, all listed |
| CountrySelection.MakeRegionIncomeTableSpec | src/country_selection.py:127-132 | the table fails with the margin-name conflict exactly when a country with both labels has "Total" as its Region or Income Group, and is otherwise the crosstab. It has no row labels exactly when no country has both labels, and then it is the empty table with a Total of zero |
| CountrySelection.AxisSpec | src/country_selection.py:127-132 | a crosstab axis lists each occurring label once, in ascending order |
| CountrySelection.AxesSpec | src/country_selection.py:125-132 | the row labels are the regions of the countries with both Region and Income Group, each once and sorted; the column labels likewise for income groups |
| CountrySelection.CellIsCountryCount | src/country_selection.py:125-132 | each cell counts the distinct (name, region, income) rows with that Region and that Income Group |
| CountrySelection.RegionTotalsAreRowSums | src/country_selection.py:127-132 | each row's Total is the sum of its cells |
| CountrySelection.IncomeTotalsAreColumnSums | src/country_selection.py:127-132 | each column's Total is the sum of its cells |
| CountrySelection.GrandTotal | src/country_selection.py:125-132 | the grand Total is the sum of the Total column, the sum of the Total row, and the number of distinct (name, region, income) rows with both labels present |
| CountrySelection.GetSelectedCountriesMetadata | src/country_selection.py:149-155 | the listing's index labels are 1, 2, ... in order |
| CountrySelection.MetadataSpec | src/country_selection.py:149-154 | the listing holds each (name, code, region, income) combination of the table exactly once, sorted by Region, Income Group and Country Name with missing values last |
| Ordering.SortByPermutes | src/data_preparation.py:209-211 | `sort_values` returns a permutation of its input |
| Ordering.SortBySorted | src/data_preparation.py:209-211 | `sort_values` returns rows in ascending key order |
| Ordering.SortByStable | src/data_preparation.py:209-211 | rows with equal sort keys keep their input order |
| Collections.DistinctSpec | src/country_selection.py:125 | `drop_duplicates` leaves no duplicate and keeps every value that occurs |
| Collections.SumCountsIsLength | src/country_selection.py:127-132 | per-label counts over distinct labels covering every element add up to the number of elements |

## Left out

- File loading and saving, directory creation and console output. This covers `load_raw_data`, `build_merged_dataset`, `load_full_panel`, the save branch of `build_50_country_panel`, and the `print` in `select_50_countries`. These are I/O.
- src/FE_regression.py and main.py are not part of this model. The regression file is floating-point statistics and a statsmodels call; main.py only orchestrates.
- `pd.to_numeric` float parsing is not reimplemented. It is the parameter `parse: string -> Option<real>` of `Panel.MergeToPanel`.
- Lower-casing is ASCII only. Python's `str.lower` also folds non-ASCII letters.
- `int()` accepts only ASCII digits here. Python also accepts Unicode digits and `_` separators.
- Stripping covers ASCII whitespace plus the separator controls 28-31, not Unicode spaces.
- Country Name and Country Code are never missing (NaN) in the model. Series Name, Region and Income Group can be missing.
- Columns missing from an input (a pandas `KeyError`) are not modelled. Every table has the columns the source names.
- Multi-column `sort_values` is modelled as a stable sort, which is how pandas sorts on several columns. Category is sorted by its label text, as in the source's string column.
- The Value column after the merge is `Option<real>`. No arithmetic is done on it.
- CountrySelection.MakeRegionIncomeTable: only which inputs fail is modelled, following pandas' margin handling. The exception types and messages pandas raises are not modelled.
- CountrySelection.MakeRegionIncomeTableSpec: follows pandas 2, which returns an empty table when no row has both labels. pandas before 2.0 raises "No objects to concatenate" for that input instead. The source pins no pandas version.
