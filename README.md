# World Happiness dashboard: data-preparation core

This project models the data-preparation logic of the World Happiness
Report dashboard, a single Streamlit script (`app.py`). The dashboard reads an
uploaded CSV of countries with a happiness score and indicator columns. The
modelled logic then does the following:

- It classifies each country into a continent through a fixed, ordered lookup
  table. A country in no list, or a missing country, falls through to `"Other"`.
- It builds the sidebar's option lists. Countries are sorted and distinct.
  Regions are distinct and in order of first appearance. Both lists are headed
  by the wildcard `"All"`.
- It resolves the key-indicator choice, so that `"All"` means GDP per capita
  and `"None"` means no indicator.
- It narrows the table by the selected countries and then by the selected
  regions. An empty selection, or one that contains `"All"`, leaves its column
  unrestricted.
- It takes the groups of the per-region bar chart.
- It selects the rows that feed the linear regression and decides whether a
  fit is attempted (more than five complete rows) or the "not enough data"
  warning is shown.

A row is a `Record` (country, happiness score and the four regression
predictors, each an `Option`, where `None` stands for a missing cell) together
with its derived `region`. Strings are sequences of characters and are compared
by code point, as Python compares them. Numeric cells are `real` values that
are only carried around, never computed with.

Modules:

- `Wrappers`: the `Option` type.
- `Seqs`: boolean-mask selection, subsequences and first-appearance distinct
  values, which the code reaches through pandas.
- `Ordering`: string order and sorting, which the code reaches through
  Python's `sorted`.
- `Records`: rows and columns.
- `Continents`: the region classifier.
- `Filters`: the filter engine.
- `Sidebar`: the indicator alias and the option lists.
- `Aggregation`: the group keys.
- `Regression`: the input selection and the eligibility gate.

Two behaviours of the code are easy to misread:

- A missing country is classified as `"Other"`. In Python, `nan in countries`
  is false for every list, so the search falls through.
- Grouping the view by region yields one key for every region present in the
  view, even when all of that region's scores are missing. The mean of such a
  group is NaN, and the group is kept. pandas also sorts the keys by default,
  so the keys come out in ascending order.

## Model

| member | source | states |
|---|---|---|
| `Continents.SearchFacts` | app.py:41-45 | The linear search returns the name of the first table entry whose list contains the country. It returns `"Other"` when no entry does, and it only returns `"Other"` or the name of an entry that lists the country. |
| `Continents.ContinentMapDisjoint` | app.py:32-40 | No country appears in the member lists of two continents. |
| `Continents.GetContinent` | app.py:32-45 | The continent is always in the closed label set (six continents, Antarctica, Other) and is never `"Antarctica"`. It is `"Other"` exactly when no list contains the country, including when the country is missing. |
| `Continents.ClassifiesListed` | app.py:33-45 | A country listed under a continent is classified to that continent. |
| `Continents.ClassifiesExactly` | app.py:32-45 | A country is classified to a table continent if and only if that continent's list contains it. |
| `Continents.ClassificationExamples` | app.py:32-45 | Finland is in Europe. An unlisted name and a missing name are both `"Other"`. |
| `Continents.AddRegions` | app.py:47 | The Region column keeps every record unchanged and in place. It gives each record its country's continent, so every region label is in the closed set and none is `"Antarctica"`. |
| `Filters.FilterView` | app.py:78-82 | The filtered view equals the reference selection `Admitted`. It is an order-preserving subsequence of the table. It keeps every copy of a row that passes the country test (when that test is active) and the region test (when that test is active), and no other row. |
| `Filters.AdmittedFacts` | app.py:79-82 | The reference selection is an order-preserving subsequence of the table. A row is kept, with all its copies, exactly when both active tests pass. |
| `Filters.RestrictTwice` | app.py:78-82 | Running the two filter steps in turn, each skipped when its selection is empty or contains `"All"`, gives exactly the rows that pass both active tests. |
| `Filters.WildcardIdentity` | app.py:78-82 | With both selections empty or containing `"All"`, the view is the whole table with the same rows in the same order. |
| `Filters.UnrestrictedDimension` | app.py:79-82 | A selection that is empty or contains `"All"` imposes nothing, so only the other column's step applies. |
| `Filters.StepsCommute` | app.py:79-82 | Filtering by region first and then by country gives the same view as the code's order. |
| `Filters.Intersection` | app.py:79-82 | A row is in the view exactly when it is in both the country-only view and the region-only view. |
| `Sidebar.ResolveIndicator` | app.py:63-68 | `"All"` resolves to `"GDP_per_Capita"`. The resolved indicator is absent only for `"None"`. Any choice other than `"All"` and `"None"` passes through unchanged. Every entry of the indicator box resolves either to nothing or to one of the seven data columns. |
| `Sidebar.IndicatorCoverage` | app.py:63-68 | Every indicator column is offered and resolves to itself. `"All"` resolves to the same column as `"GDP_per_Capita"`. |
| `Sidebar.DropMissingElements` | app.py:70 | Dropping missing names keeps exactly the names that are present. |
| `Sidebar.CountryOptions` | app.py:70-71 | The country list starts with `"All"`. After that head it is strictly ascending, so it has no repeats, and it holds exactly the distinct non-missing countries of the table. |
| `Sidebar.RegionOptions` | app.py:74-75 | The region list starts with `"All"`. After that head it holds each region of the table exactly once, in order of first appearance. |
| `Seqs.SelectCounts` | app.py:80 | A boolean-mask selection keeps every copy of a value that passes the mask and no copy of a value that fails it. |
| `Seqs.SelectIsSubseq` | app.py:80 | A boolean-mask selection keeps the original order. |
| `Seqs.UniqueElements` | app.py:74 | `unique()` returns the values of the column, each exactly once. |
| `Seqs.UniqueOrder` | app.py:74 | `unique()` orders values by the position of their first occurrence. |
| `Ordering.SortFacts` | app.py:70 | Sorting a list without repeats rearranges it into strictly ascending code-point order, with the same elements. |
| `Aggregation.GroupKeys` | app.py:180 | The group keys are strictly ascending and are exactly the regions present in the view. |
| `Aggregation.SingleRegionGroups` | app.py:180 | Grouping a filtered view restricted to one region (other than `"All"`) yields exactly that key when some row survives. An empty view yields no key, but the code never groups an empty view (app.py:145). |
| `Regression.TrainingRowsFacts` | app.py:195-196 | The regression rows are an order-preserving subsequence of the view. They keep every row that has all four predictors and no other row, and their number equals an independent count of complete rows. |
| `Regression.ModelingStep` | app.py:195-199 | A fit happens exactly when at least six rows have all four predictors. The design matrix holds those rows' predictors, and the targets are the scores of the same rows, one per row. |
| `Regression.SmallViewsNeverFit` | app.py:199 | A view of fewer than six rows always takes the "not enough data" branch, whatever the rows contain. |

## Left out

- The page configuration, HTML and CSS, tabs, widgets and footer are not modelled, because they are UI. This covers `app.py:9-30`, `84-140` and `228-233`.
- The file upload and `pd.read_csv` are not modelled, because they are I/O. The model starts from the parsed records.
- The colour-palette table and all Plotly charts are not modelled, because they only pass data to the rendering library.
- `LinearRegression.fit`/`predict`, `r2_score` and the RMSE are not modelled. They are floating-point numerics inside the library. Only the row selection and the gate in front of them are modelled.
- `ModelingStep`: the targets are carried as `Option` values, because the code does not check that a selected row has a score. What the library does with a missing target is not modelled.
- `GroupKeys`: only the keys of `groupby("Region")` are modelled. The per-group mean is floating-point arithmetic with NaN semantics.
- The empty-view test of the Overview tab (`app.py:145` and `190-191`) is not modelled. When the filtered view is empty, the code shows a warning and skips both the charts and the groupby at `app.py:180`. `GroupKeys` is defined for every view, including the empty one that the code never groups.
- The model assumes the CSV has the Country, Happiness_Score and four predictor columns. A missing column raises `KeyError` (`app.py:47`, `180`, `196-197`), which is not modelled.
- The CSV export and download button (`app.py:220-226`) are not modelled. They are library serialisation whose quoting rules the code does not show.
- The columns the core never reads (Generosity, Family, Life_Expectancy, Year) are not carried in a `Record`.
- Country values are always strings or missing. Python's behaviour when sorting a column of mixed types is not modelled.
- Rows are identified by position. The pandas index alignment in `df.loc[X.index, ...]` is modelled as pairing each design row with the score of the same row, which holds for the default range index that `read_csv` produces.
