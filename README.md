# Skyscraper dashboard data pipeline in Dafny

This project models the data pipeline behind a skyscraper dashboard. The pipeline loads a table of
skyscraper records and drops rows with a non-positive completion year or latitude. It then filters
the rows by selected cities, a height threshold and a completion-year threshold. From the loaded
dataset it derives the city list offered for selection, the ranges of the height and year sliders
(over the selected cities' rows, before any height or year filter), and the five tallest buildings
overall, whatever the query. From the filtered view it derives per-city counts (for a pie chart),
per-city height lists and means (for a bar chart), and the five tallest and five shortest buildings
of a city.

A record is the datatype `Records.Record` (id, name, city, latitude, completion year, height).
Heights and latitudes are exact `real`s. A table is a `seq<Record>` in row order. Every pandas
boolean mask `df[mask]` is modelled by one function, `Records.Select`, which keeps the matching rows
in row order. `Records.SelectIsSubsequence` shows that `Select` gives exactly the in-order
subsequence of the matching positions.

Modules, one per pipeline stage:

- `Sequences`: duplicate-freedom, first index, sums.
- `Records`: the record type, `Select`, and column extraction.
- `Loader`: the cleaning pass (`read_data`).
- `Query`: the query filter (`filter_data`).
- `Aggregator`: `all_cities`, `count_cities`, `skyscraper_heights` and `skyscraper_averages`, plus
  an insertion-ordered dictionary `OrderedDict` standing for the Python dict.
- `PieChart`: the explode vector of `generate_pie_chart`.
- `Ranker`: sort-by-height followed by `head(5)`, as in `compare_graphs` and the all-time list.
- `Dashboard`: the slider ranges computed in `main`, lemmas about the whole pipeline, and a
  worked example: two rows in city A (500 ft and 300 ft) and one in city B (700 ft).

The loops of `all_cities`, `skyscraper_heights` (two passes), `skyscraper_averages`, `np.max` and
`list.index` are methods with loop invariants. Each method is proved equal to a specification
function, or proved to meet the property directly.

Modelling choices:

- The height slider is labelled "Max Height" and the year slider "Minimum Year Completed", yet
  `filter_data` uses both as strict lower bounds (`>`). The model keeps the strict bounds, so a row
  exactly at a bound is dropped, and a row must be taller than the height slider's value.
- pandas' default sort is not stable, so the ranking contracts fix no order among rows of equal
  height.
- `np.mean` of an empty list gives NaN rather than raising an error. `Aggregator.MeanOf` returns
  the constructor `NaN` for an empty list, and `Aggregator.GroupMeansDefined` shows that groups
  built from rows are never empty.

## Model

| member | source | states |
|---|---|---|
| `Records.Select` | FinalProject.py:22-23 | `df[mask]`: the rows that pass the mask, in row order (by `SelectMembers` and `SelectIsSubsequence`); its own contract: never more rows than the table |
| `Records.Positions` | FinalProject.py:30-32 | the positions it lists are increasing and hold exactly the rows that pass the mask |
| `Records.SelectIsSubsequence` | FinalProject.py:30-32 | a boolean mask keeps the rows at those positions in order: entry k of the selection is the row at the k-th matching position |
| `Records.SelectMembers` | FinalProject.py:30-32 | a row is in the selection if and only if it is in the table and passes the mask |
| `Records.SelectOfSelect` | FinalProject.py:22-23 | applying two masks one after the other equals applying their conjunction once |
| `Loader.ReadData` | FinalProject.py:18-24 | a row is kept if and only if it is in the table with completion year > 0 and latitude > 0; the two successive masks equal the single mask `Clean` |
| `Loader.ReadDataInOrder` | FinalProject.py:22-23 | the loaded dataset has one entry per clean row of the table, in table order |
| `Query.FilterData` | FinalProject.py:28-34 | a row is in the view if and only if its city is selected, height > threshold and year > minimum year, so rows exactly at a bound are excluded; an empty selection gives an empty view |
| `Query.FilterDataInOrder` | FinalProject.py:30-32 | the view is the in-order subsequence of the dataset's matching rows |
| `Aggregator.Distinct` | FinalProject.py:39-42 | the result has no duplicates and holds exactly the values of the input |
| `Aggregator.DistinctFirstSeenOrder` | FinalProject.py:39-42 | the distinct values are ordered by the position of their first occurrence |
| `Aggregator.AllCities` | FinalProject.py:37-44 | the loop's list equals `Distinct` of the city column: no duplicates, and it holds exactly the cities with at least one row |
| `Aggregator.CityRows` | FinalProject.py:166 | the city's rows in row order: every entry is a row of the data with that city, and there are never more of them than rows (that every row of the city is kept follows from `SelectMembers`) |
| `Aggregator.CountCity` | FinalProject.py:52 | a city's count is at most the row count, and it is 0 exactly when no row has that city |
| `Aggregator.CountCities` | FinalProject.py:50-52 | one count per requested city, in the requested order, entry i being the count of `cities[i]` |
| `Aggregator.CountCitiesSumSelected` | FinalProject.py:52 | for duplicate-free cities, the counts add up to the number of rows whose city is among them |
| `Aggregator.CountCitiesSum` | FinalProject.py:52 | for duplicate-free cities that cover every city of the view, the counts add up to the view's row count |
| `Aggregator.OrderedDict.Put` | FinalProject.py:59-65 | dict assignment keeps the dict well formed; a new key goes last, an existing key keeps its place, and only that key's value changes |
| `Aggregator.HeightsByCity` | FinalProject.py:55-67 | the specification of the grouping: keys are the distinct cities, each mapped to its heights in row order; the dict is well formed |
| `Aggregator.SkyscraperHeights` | FinalProject.py:55-67 | the two loops (initialise each city with an empty list, then append each row's height) build exactly `HeightsByCity` |
| `Aggregator.HeightsByCityGroups` | FinalProject.py:59-65 | each key's list has as many entries as the city has rows, so no list is empty |
| `Aggregator.HeightsByCityOrder` | FinalProject.py:59-61 | the keys are ordered by the first occurrence of each city in the view |
| `Aggregator.GroupSizes` | FinalProject.py:59-65 | one list length per key, in key order |
| `Aggregator.HeightsByCitySizes` | FinalProject.py:63-65 | the lengths of the lists add up to the number of rows |
| `Aggregator.MeanOf` | FinalProject.py:73 | the mean is NaN exactly for an empty list, and a one-element list has that element as its mean |
| `Aggregator.MeanWithinBounds` | FinalProject.py:73 | the mean of a non-empty list lies between any lower and upper bound of its elements |
| `Aggregator.SkyscraperAverages` | FinalProject.py:70-75 | the result has the input's keys in the same order, and each value is the mean of that key's list |
| `Aggregator.GroupMeansDefined` | FinalProject.py:269 | averaging a grouping built from rows gives a number, never NaN, for every city |
| `PieChart.Maximum` | FinalProject.py:88 | `np.max`: the result occurs in the counts and no count exceeds it |
| `PieChart.IndexOf` | FinalProject.py:88 | `list.index`: the first position holding the value, which is `Sequences.FirstIndex` |
| `PieChart.Explodes` | FinalProject.py:86-89 | one entry per count; 0.25 exactly at the first position of the largest count and 0 elsewhere; some entry is 0.25 when there are counts, and at most one entry is non-zero |
| `Ranker.Insert` | FinalProject.py:174-175 | inserting into a sorted sequence keeps it sorted and adds exactly the one row |
| `Ranker.SortValues` | FinalProject.py:174-179 | the result is sorted by height in the requested direction and is a permutation of the input |
| `Ranker.HeadOfSorted` | FinalProject.py:174-179 | the first k rows of a sorted permutation are sorted, are drawn from the rows, and no other row may precede any of them |
| `Ranker.SortHead` | FinalProject.py:174-179 | `head(n)` after the sort: min(n, rows) rows drawn from the input, sorted, and no omitted row may come before a kept one |
| `Ranker.Tallest` | FinalProject.py:174-175 | `IsTallest`: min(n, rows) rows drawn from the input as a sub-multiset, heights non-increasing, and no omitted row is taller than any kept row |
| `Ranker.Shortest` | FinalProject.py:178-179 | `IsShortest`: min(n, rows) rows drawn from the input as a sub-multiset, heights non-decreasing, and no omitted row is shorter than any kept row |
| `Ranker.CompareGraphs` | FinalProject.py:164-179 | "no data" exactly when the city has no rows; otherwise the first list is the city's five tallest rows (`IsTallest` over the city's rows) and the second its five shortest (`IsShortest`), each min(5, city's count) rows, all of that city and from the data |
| `Ranker.AllTimeTallest` | FinalProject.py:282-283 | `IsTallest` over the loaded dataset with n = 5: min(5, dataset size) rows drawn from it as a sub-multiset, tallest first, no left-out row taller; every listed row is in the table, completed and with a positive latitude |
| `Dashboard.MaxReal` | FinalProject.py:227 | the column maximum occurs in the column and bounds every entry |
| `Dashboard.MinInt` | FinalProject.py:228 | the column minimum occurs in the column and bounds every entry |
| `Dashboard.MaxInt` | FinalProject.py:229 | the column maximum occurs in the column and bounds every entry |
| `Dashboard.SliderRangeFor` | FinalProject.py:222-233 | with no rows in the selected cities, the ranges are 600 / 1900 / 2024; otherwise the maximum height, minimum year and maximum year are each attained by a selected row and bound every selected row |
| `Dashboard.SliderYearsOrdered` | FinalProject.py:228-233 | on the loaded dataset the year range is never empty and starts after year 0 |
| `Dashboard.PieCountsCoverView` | FinalProject.py:250-257 | with a duplicate-free city selection, the pie chart's counts add up to the size of the filtered view |
| `Dashboard.NonEmptyViewHasWedge` | FinalProject.py:253-271 | a non-empty view implies a non-empty selection (so `cities[0]` exists), and the emphasised wedge has a non-zero count |
| `Dashboard.ExampleQuery` | FinalProject.py:28-34 | in the three-row example, every row passes the query for A and B above 100 ft after 1980 |
| `Dashboard.ExampleCityRows` | FinalProject.py:52 | in the example, A's rows are the first two and B's the third |
| `Dashboard.ExampleCounts` | FinalProject.py:50-52 | in the example, the counts for [A, B] are [2, 1] |
| `Dashboard.ExampleKeys` | FinalProject.py:39-42 | in the example, the distinct cities in first-seen order are A then B |
| `Dashboard.ExampleHeights` | FinalProject.py:59-65 | in the example, A's heights are 500 then 300, and B's height is 700 |
| `Dashboard.ExampleGroups` | FinalProject.py:55-75 | in the example, the grouping lists A then B, with means 400 and 700 |
| `Dashboard.ExampleTallest` | FinalProject.py:174-175 | in the example, the single tallest row is B's 700 ft tower |

## Left out

- The dashboard widgets, page configuration and messages (sidebar, multiselect, sliders, warnings) are not modelled. They are UI calls into an external library. The values picked on the sliders and the city selection reach the model as plain parameters.
- Chart and map rendering is not modelled: `generate_bar_chart`, the drawing in `generate_pie_chart` and `compare_graphs`, and all of `generate_map`, including its `dropna` and the centring on mean coordinates. This is plotting through external libraries.
- CSV reading and `set_index("id")` are not modelled. This is file I/O. The loaded table is an input sequence, and nothing assumes that ids are unique.
- The longitude column is left out, because only the map uses it.
- Floating point is not modelled. Heights, latitudes and means are exact reals, so `np.mean` rounding and NaN arithmetic are not captured. NaN appears only as the result for an empty list.
- Dashboard.SliderRangeFor: keeps the maximum height as a real. `main` truncates it with `int(...)` for the slider.
- Repeated loading is not modelled. `filter_data`, `all_cities` and `main` each re-read the file, which does not change behaviour. `FilterData` and `AllCities` take the loaded dataset as a parameter. `AllTimeTallest` applies `ReadData`, because line 282 reloads just before its sort.
- Column projection is not modelled. `compare_graphs` and line 283 keep only a few columns before sorting. The model ranks whole records.
- Ranker.SortValues: fixes one order among rows of equal height (insertion order). Its contract and those of `Tallest` and `Shortest` state nothing about ties, because pandas' default sort is not stable.
- PieChart.Explodes: returns an empty vector for empty counts. In that case `generate_pie_chart` shows a warning and returns before building any vector.
