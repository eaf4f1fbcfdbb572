# Mobile sales dashboard: the data-shaping core

This project models the computations behind the five analysis views of the
mobile-sales dashboard (`main.py`) and proves what they deliver. Rendering,
plotting and file loading are not modelled. The views are:

- **Memory and Storage Popularity**: a hard-coded sample table of ten phones.
  The rows are grouped by (Memory, Storage) pair, the pair counts are pivoted
  into a Memory x Storage grid with 0 for absent pairs, and Storage values are
  counted per Memory option.
- **Sales Volume by Price Range**: `Selling Price` is coerced to a number.
  The view warns about missing prices and drops them. The prices are cut into
  the six labelled ranges `0-10k` ... `50k+` with edges
  `[0, 10000, 20000, 30000, 40000, 50000, max + 1]` (right-closed, first
  interval closed at 0). The view reports the number of listings and the mean
  price per range.
- **Average Rating of Highest Sales**: `Selling Price` and `Rating` are
  coerced, and rows missing either are dropped. The view takes the largest
  price, selects every row whose price equals it exactly and averages their
  ratings. It also shows the mean rating per selling price.
- **Average Discount by Brand**: the mean `Discount` per brand, sorted in
  descending order, and the brand at the head of that order.
- **Average Discount Percentage by Brand**: the mean discount percentage per
  brand, and the unweighted mean of those brand means.

## How the model stands in for pandas

- A loaded table is a sequence of `Listing` rows. Each raw cell is `Blank` or
  `Text`, and the brand is `Option<string>`.
- `pd.to_numeric(errors='coerce')` is a parameter `parse: string -> Option<real>`.
- NaN is `None`. Numbers are exact `real`s.
- `groupby` drops rows whose key is missing. `mean` skips missing values and
  is missing for a group with no values.
- The categorical `Price Range` column lists all six categories when grouped,
  including empty ones with size 0 and a missing mean. This is the default
  (`observed=False`) of the pandas versions this code was written for.
- `pd.cut` fails with "bins must increase monotonically" (`NonMonotonicBins`)
  when an edge is smaller than the one before it. It also fails that way on an
  empty price column, whose maximum is NaN. This follows the pandas releases
  whose `cut` checks the edges with `Index.is_monotonic_increasing`, which a
  NaN edge fails. Older releases checked `np.diff(bins) < 0`, which a NaN
  edge passes; there an empty column gives six zero volumes instead.
- `pd.cut` fails with "Bin edges must be unique" (`DuplicateBinEdges`) when
  max + 1 equals 50000.
- A price outside `[0, max + 1]` gets no label.
- `sort_values(ascending=False)` puts missing means last.
- `iloc[0]` on an empty table raises an error. It is modelled as a missing
  top entry.

Modules:

- `Options`: Option and Result.
- `Columns`: present values, counting, distinct values.
- `Stats`: sum, mean, max, min.
- `Ingest`: listings, coercion, the drop-missing filter.
- `Grouping`: size, count and mean by key.
- One module per view: `PriceRanges`, `Popularity`, `HighestSales`, `Discounts`.

## Model

| member | source | states |
|---|---|---|
| Ingest.DropMissing | main.py:33-35 | The warning is raised exactly when some coerced value is missing, which is exactly when rows are dropped. The number kept is the total minus the missing ones. Every valid value survives, at a position that preserves row order. |
| Columns.PresentKeepsOrder | main.py:35 | Two valid values keep their relative order after the drop. |
| Columns.PresentOrigin | main.py:35 | Every value left after the drop came from a valid cell of the input. |
| Columns.PresentShrinksIffMissing | main.py:33-35 | The column shrinks exactly when some cell is missing. |
| Ingest.PriceRatingRows | main.py:61-63 | The two-column drop keeps as many rows as there are listings with both values present, and every kept (price, rating) row comes from a listing whose price and rating read as exactly those numbers. |
| Ingest.PriceRatingRowsExact | main.py:61-63 | After the two-column drop, a listing with a valid price and a valid rating is kept, in order, as that (price, rating) pair. |
| PriceRanges.CheckBins | main.py:37-39 | The edges pass pd.cut's checks exactly when max + 1 > 50000. They are rejected as duplicate exactly when max + 1 = 50000. Every other case, including the empty column, is rejected as non-monotonic. |
| PriceRanges.EdgesShape | main.py:37 | The first six edges are fixed, strictly increasing and within [0, 50000]. The last edge is above the largest price. |
| PriceRanges.CheckBinsExact | main.py:37 | The edges pass exactly when they are strictly increasing. |
| PriceRanges.EdgeOrder | main.py:37 | The edges are non-decreasing iff max + 1 >= 50000, and strictly increasing iff max + 1 > 50000. |
| PriceRanges.Cut | main.py:39 | Given valid edges, a price gets a label exactly when it lies in [0, max + 1], and then it lies in that label's interval. |
| PriceRanges.CutExact | main.py:38-39 | A price gets label r if and only if it lies in r's interval. |
| PriceRanges.InRangeUnique | main.py:37-39 | The six intervals do not overlap. |
| PriceRanges.MaxPriceRange | main.py:37 | The largest price always gets a label. That label is `50k+` when it exceeds 50000 and `40k-50k` when it lies in (49999, 50000]. |
| PriceRanges.LabelsDistinct | main.py:38 | The labels of the six categories are the strings passed to the cut, in category order, and no two categories share a label. |
| PriceRanges.AllRangesComplete | main.py:38 | The six categories are all the labels there are. |
| PriceRanges.LabelledPrices | main.py:39 | The cut adds a label column and keeps every price. |
| PriceRanges.PriceRangeTables | main.py:37-41 | The cut fails exactly when no price survived or max + 1 <= 50000. |
| PriceRanges.SalesVolumeByPriceRange | main.py:31-41 | The warning fires exactly when some listing's price is missing. The count of surviving prices is the number of listings minus the missing prices. Every listing whose price reads as a number reaches the cut with that price, after the surviving prices of the listings before it. The tables are computed from exactly those prices. |
| PriceRanges.SizeIsCountInRange | main.py:41 | The size of group r is the number of prices in r's interval. |
| PriceRanges.VolumeCountsInterval | main.py:41 | The sales-volume table lists the six labels in label order. Each label holds the number of surviving prices in its interval. |
| PriceRanges.VolumeConserved | main.py:41 | When no price is negative, the sales volumes add up to the number of surviving prices. |
| PriceRanges.GroupValuesInRange | main.py:52 | Every price grouped under r lies in r's interval. |
| PriceRanges.AveragePriceInRange | main.py:52 | A present average selling price of a range lies inside that range's interval. |
| Popularity.Pivot | main.py:13 | The pivot's row and column labels have no repeats. |
| Popularity.PairCountsExact | main.py:12 | Each observed (Memory, Storage) pair appears once, with the number of rows that carry it. Pairs that never occur are absent. |
| Popularity.GridComplete | main.py:13 | The grid has a cell exactly for each observed Memory option combined with each observed Storage option. Each cell holds the number of rows with that pair, so a pair with no rows holds 0. |
| Popularity.CountsConserved | main.py:6-22 | The pair counts add up to the number of rows, and so do the per-Memory counts. |
| Popularity.PerMemoryExact | main.py:22 | Each observed Memory option appears once, with its number of rows. The counts add up to the number of rows. |
| Popularity.SamplePairCounts | main.py:8-12 | On the sample, (4GB, 64GB) and (8GB, 256GB) occur 3 times each. |
| Popularity.SampleGridZero | main.py:8-13 | On the sample, the grid cells (4GB, 256GB), (6GB, 64GB) and (8GB, 64GB) exist and hold 0. |
| Popularity.SampleMemoryCounts | main.py:8-22 | On the sample, 4GB, 6GB and 8GB have 4, 2 and 4 rows, 10 in all. |
| Popularity.SampleColumns | main.py:8-11 | The sample rows are the Memory and Storage columns side by side. |
| HighestSales.WithPrice | main.py:66 | The mask keeps exactly the rows at the given price, each as often as it occurs. |
| HighestSales.HighestPriceSummary | main.py:65-67 | The highest price exists exactly when rows survived, is some row's price and is at least every price. The selection is the mask at that price: exactly the rows at that price, each as often as it occurs. The average rating is the mean of the selected ratings, and exists exactly when rows survived. |
| HighestSales.AverageRatingBounds | main.py:67 | For a non-empty table the selection is non-empty, and the reported rating lies between the smallest and largest selected rating. |
| HighestSales.TwoHighestRows | main.py:65-67 | For prices 100, 500, 500 with ratings 3, 4, 5, the highest price is 500, the last two rows are selected and the rating is 4.5. |
| HighestSales.PriceKeyedGroups | main.py:79 | The ratings grouped under price p are those of the rows at price p. |
| HighestSales.HighestOverListings | main.py:59-67 | Over the listings: a highest price exists exactly when some listing has both a price and a rating that read as numbers. It is then the price of such a listing, and no such listing has a higher price. |
| HighestSales.RatingByPriceExact | main.py:79 | The per-price table lists each surviving price once, with the mean rating of its rows. Its entry at the highest price is the rating the summary reports. |
| Grouping.SizeOverLookup | main.py:41 | Sizing over a list of categories gives one entry per category, in category order, holding that category's size. |
| Grouping.CountOverLookup | main.py:22 | Counting over a list of keys gives each key its number of present values. |
| Grouping.MeanOverLookup | main.py:52 | Averaging over a list of categories gives each category the mean of its present values. |
| Grouping.KeysExact | main.py:12 | A key is listed exactly when some row carries it, and each key only once. |
| Grouping.SizeByExact | main.py:12 | groupby().size() lists each occurring key once, with its row count. |
| Grouping.CountByExact | main.py:22 | groupby()[col].count() lists each occurring key once, with its number of present values. |
| Grouping.MeanByExact | main.py:79 | groupby()[col].mean() lists each occurring key once, with the mean of its present values. |
| Grouping.SizeByConserves | main.py:12 | Group sizes add up to the number of rows that have a key. |
| Grouping.SizeOverConserves | main.py:41 | Over categories that cover every key, sizes add up to the number of keyed rows. |
| Grouping.ValuesFull | main.py:22 | When no value is missing, a group's value count equals its size. |
| Grouping.ValueOrigin | main.py:52 | Every value in a group comes from a row with that key. |
| Grouping.MeanByBounds | main.py:91 | A present group mean lies between the smallest and largest value of that group. |
| Stats.MaxOf | main.py:65 | The maximum is one of the values and at least every value. |
| Stats.MinOf | main.py:67 | The minimum is one of the values and at most every value. |
| Stats.MeanBounds | main.py:67 | The mean exists exactly for a non-empty column and lies between its minimum and maximum. |
| Stats.MeanWithin | main.py:52 | Values within [lo, hi] have a mean within [lo, hi]. |
| Stats.MeanAbove | main.py:52 | Values all above lo have a mean above lo. |
| Columns.Distinct | main.py:12 | The distinct keys contain no repeats, and they hold exactly the values of the column. |
| Columns.CountPositive | main.py:12 | A value is counted a positive number of times exactly when it occurs. |
| Columns.CountsAddUp | main.py:12 | Over repeat-free keys that cover a column, the per-key counts add up to the column's length. |
| Discounts.SortDescendingCorrect | main.py:92 | The sort gives a descending order with missing means last, and is a permutation of the brand table. |
| Discounts.InsertSorted | main.py:92 | Inserting one entry into a descending table keeps it descending and adds exactly that entry. |
| Discounts.Top | main.py:92-94 | The top entry exists exactly when the brand table is non-empty. It is one of the table's entries and its mean precedes every brand's mean. |
| Discounts.AverageDiscountByBrand | main.py:86-94 | The brand table has a first row after the sort exactly when it is non-empty. That row is one of the table's rows, and no brand's mean beats its mean. |
| Discounts.TopBrandIsGreatest | main.py:91-94 | The top brand occurs in the data, and its reported discount is its own mean. That mean is at least every other brand's mean, and a missing mean ranks last. |
| Discounts.TopExists | main.py:93-94 | A top brand exists exactly when some listing has a brand. |
| Columns.SecondsAt | main.py:119 | The column taken from a table of pairs holds each row's second entry, in row order, as the brand-mean column does. |
| Columns.FirstsAt | main.py:65 | The column taken from a table of pairs holds each row's first entry, in row order, as the price column does. |
| Discounts.OverallMean | main.py:119 | The unweighted mean of the brand means exists exactly when some brand has a mean. It lies between the smallest and the largest present brand mean. |
| Discounts.OverallExists | main.py:113-119 | The discount-percentage view has an overall figure exactly when some listing with a brand has a discount percentage that reads as a number. |
| Grouping.ValuesHas | main.py:118 | A row with key k and a present value makes group k non-empty and k one of the keys. |
| Discounts.OverallBetweenBrandMeans | main.py:119 | The overall figure exists exactly when some brand mean exists. It then lies between two present brand means, one at or below it and one at or above it. |
| Discounts.OverallWithinValues | main.py:115-119 | If every branded discount percentage lies in [lo, hi], so does the overall figure. |

## Left out

- Page layout, the sidebar menu, and the `st.write`, `st.dataframe` and `st.warning` rendering. These are presentation. The warning is modelled as a flag.
- All matplotlib and seaborn plotting. These are foreign rendering calls.
- Reading `df.csv`. The loaded table is an input of the model.
- How `pd.to_numeric` parses a string. It is the `parse` parameter.
- IEEE floating point and NaN propagation. Exact reals and `Option` stand in for them, so the exact equality selection at main.py:66 needs no rounding discussion.
- The fixed conclusion texts and the `:.2f` formatting of reported numbers. They are formatting only.
- `about_author`. It is static text.
- Discounts.AverageDiscountPercentageByBrand: main.py:115 reads the column by a lowercase name, `'discount percentage'`, that the data does not have, so the view raises a missing-column error before computing anything. The model reads the discount-percentage field as if the name matched.
- Grouping.Keys: pandas lists group keys in sorted order, but the model lists them in order of last appearance. Every grouping property is therefore stated per key (lookup, membership, totals), never by position.
- Discounts.SortDescending: pandas' default sort is not stable. Among brands with equal means the model's order may differ. Only the order of means and the permutation are stated.
- PriceRanges.VolumeConserved: requires that no price is negative. A negative price gets no label in pd.cut and is not counted, so the volumes then add up to the number of non-negative prices.
