# StockDatabase: asset filtering and date alignment

This project models the core of `StockDatabase` from a small portfolio-optimization
tool. Before the optimizer runs, `StockDatabase` turns a dictionary of stocks
(ticker → stock with a date → price dictionary) into a fixed snapshot:

1. **Filter**: drop every stock with fewer than `MINIMUM_AMOUNT_DATA` observations
   (`FilterStocks`).
2. **Order**: fix the canonical ticker order as the sorted keys of the surviving
   dictionary (`SortSet` under `LexLess`, Python's string order).
3. **Align**: build a date → (ticker → price) dictionary (`BuildDateDict`, whose
   per-stock inner loop is `AddStockPrices`), delete every date reported by fewer
   tickers than there are stocks (`DropIncompleteDates`), sort the remaining dates
   (`SortDates`) and lay the prices out as rows = dates × columns = tickers
   (`PriceArray`), all in `FilteredPrices`.
4. **Returns**: the covariance and correlation steps divide each row of the panel
   by the one before it (`PriceRatios`).

The class `StockDatabase.StockDatabase` mirrors the Python constructor. It
computes the filtered dictionary, then the ticker order, then the panel, and stores
them. Nothing changes them after construction, so the fields are `const`. Its
`Valid()` invariant states the snapshot's contract: every stock meets the
threshold, `tickers` is the canonical order of the stock keys, and `priceArray` is
the aligned panel. `dates` is a ghost field. It records the date
of each panel row, which the Python code keeps only in a local `OrderedDict`.
`FilteredPrices` returns those row dates beside the panel so that its contract can
name them.

Modelling choices:

- Dates are `int` day ordinals and prices are `real`. A stock is a datatype value,
  because the database never changes a stock.
- The threshold `Config.MINIMUM_AMOUNT_DATA` is a constructor parameter instead of
  a global setting.
- Python dictionaries are Dafny `map`s. Each loop over a dictionary takes its keys
  in an unspecified order (`:|`). The results are shown not to depend on that order:
  `AscendingUnique` and `DatabaseDeterministic` prove that the ticker order, the row
  dates and the panel are determined by the input alone.
- The date dictionary files each price under `stock.ticker`, as the source does
  (StockDatabase.py:51). The alignment methods require `KeyedByTicker`, meaning
  that every stock is stored under its own ticker. The caller in `main.py` builds
  the dictionary that way.
- The source raises no error for an empty universe or an empty alignment, and the
  model raises none either. `EmptyUniverse` states what actually happens: with no
  surviving stock, the ticker order and the panel are both empty.
- Python's `sorted` is modelled as an insertion sort of a finite set
  (`Ordering.SortSet`). Its contract is the part of `sorted` this code relies on:
  the result is ascending, has no duplicates, and holds exactly the keys.

## Model

| member | source | states |
|---|---|---|
| `Ordering.LexLessIsStrictTotalOrder` | StockDatabase.py:19 | `LexLess`, Python's `<` on `str` (code point by code point, a proper prefix first), which `sorted` uses on the tickers, is irreflexive, transitive and total, so sorting the tickers is well defined |
| `Ordering.Insert` | StockDatabase.py:19 | inserting a new key into an ascending sequence keeps it ascending and adds exactly that key |
| `Ordering.SortSet` | StockDatabase.py:19 | `sorted(keys)` returns the keys strictly ascending, each exactly once, and no other value |
| `Ordering.AscendingUnique` | StockDatabase.py:19 | two strictly ascending sequences with the same elements are equal, so the canonical order does not depend on dictionary iteration order |
| `StockDatabase.FilterStocks` | StockDatabase.py:24-35 | the kept stocks are a sub-map of the input, each stock unchanged; a stock is kept iff it has at least `minimumAmountData` observations, so exactly the threshold is kept and threshold−1 is dropped |
| `StockDatabase.AddStockPrices` | StockDatabase.py:48-51 | after one stock's pass, every date of the stock has an entry whose ticker map gains that stock's price under `stock.ticker`; other dates are untouched |
| `StockDatabase.BuildDateDict` | StockDatabase.py:45-51 | the date dictionary has an entry exactly for the dates some stock reports, its ticker keys are exactly the stocks reporting that date, and each value is that stock's price on that date |
| `StockDatabase.DropIncompleteDates` | StockDatabase.py:53-56 | a date survives iff its ticker map has at least `tickerCount` keys, and surviving entries are unchanged |
| `StockDatabase.CoverageCount` | StockDatabase.py:55 | a date has at least as many reporting tickers as there are stocks iff every stock reports it |
| `StockDatabase.CompleteDates` | StockDatabase.py:46-56 | the count test keeps exactly the dates every stock reports (none when there are no stocks), each with every stock's price |
| `StockDatabase.FullyCoveredDates` | StockDatabase.py:45-56 | the filtered date dictionary holds exactly the fully covered dates, each with all stocks' prices |
| `StockDatabase.SortDates` | StockDatabase.py:58-60 | the surviving dates in strictly ascending order, each once |
| `StockDatabase.FilteredPrices` | StockDatabase.py:37-71 | the panel, laid out by `PriceArray` (the comprehension at StockDatabase.py:65-69), is aligned: its rows are exactly the dates every stock reports, in strictly ascending order; a date missing from any one stock is absent from every row; each row has `len(tickers)` cells, and cell [i][j] is the price stock `tickers[j]` reports on the i-th date |
| `StockDatabase.EmptyUniverse` | StockDatabase.py:19-20 | with no surviving stock, `tickers` is empty and the panel has no rows, and no error is raised |
| `StockDatabase.DatabaseDeterministic` | StockDatabase.py:16-20 | any two snapshots of the same stocks have the same ticker order, the same row dates and the same panel |
| `StockDatabase.SnapshotDeterministic` | StockDatabase.py:16-22 | two valid databases holding the same stocks have the same ticker order, row dates and panel |
| `StockDatabase.StockDatabase.constructor` | StockDatabase.py:16-20 | the stored dictionary is the threshold filter of the input, and the snapshot is valid: every stock meets the threshold, `tickers` is the canonical order of its keys, and `priceArray` is the aligned panel in that column order |
| `StockDatabase.RowRatio` | StockDatabase.py:81 | the entry-wise ratio of two rows is the factor that takes the earlier row to the later one, and it is positive when both rows are positive |
| `StockDatabase.PriceRatios` | StockDatabase.py:79-81 | for a panel of R rows the ratio matrix has R−1 rows (none when R = 0) of the panel's width, and row i scaled entry-wise by ratio row i gives panel row i+1, that is, entry [i][j] = panel[i+1][j] / panel[i][j] |
| `StockDatabase.PositiveRatios` | StockDatabase.py:79-81 | a panel of positive prices has only positive ratios |
| `StockDatabase.PanelFeedsRatios` | StockDatabase.py:79-81 | the aligned panel is rectangular and has no zero price when no stock reports a zero price, so the ratio step is defined on it, and its ratios are positive when all reported prices are |
| `StockDatabase.CompoundRatios` | StockDatabase.py:79-81 | the ratios lose nothing but the first row: compounding them from the panel's first row rebuilds the whole panel |

## Left out

- The covariance and correlation matrices (`np.cov(..., ddof=0)` at StockDatabase.py:82 and `np.corrcoef` at StockDatabase.py:93), and the fields `covar_array` and `correl_array` that store them. They are floating-point numerics delegated to NumPy. The model stops at the ratio matrix they are computed from. The same ratio expression appears again at StockDatabase.py:90-92, and `PriceRatios` models both copies.
- StockDatabase.StockDatabase.constructor: does not compute or store the two statistic matrices, for the reason above.
- StockDatabase.PriceRatios: requires every price to be non-zero. NumPy would instead produce `inf` or `nan` and carry on. IEEE special values are not modelled.
- StockDatabase.CompoundRatios: holds only in exact `real` arithmetic, as does `RowRatio`'s `Scale(prev, ratio) == next`. The float64 division at StockDatabase.py:81 rounds, so in the program compounding the ratios does not rebuild the panel exactly. Rounding is not modelled.
- The `np.float64` conversion at StockDatabase.py:69, and NumPy array shapes. An empty panel is a `(0,)` array in NumPy and an empty sequence here.
- StockDatabase.FilteredPrices: requires every stock to be stored under its own ticker (`KeyedByTicker`). If a dictionary key differed from the stock's `ticker`, the Python code could count a date as fully covered while one key has no price, or fail with a `KeyError`. That case is not modelled.
- Deleting from `date_dict` while iterating over `date_dict.keys()` (StockDatabase.py:54-56) works only under Python 2, where `keys()` is a copy. Python 3 raises `RuntimeError` there. The model iterates over a snapshot of the keys, as Python 2 does, and removes exactly the under-covered dates.
- Python's dictionary iteration order. Loops visit keys in an unspecified order, and the results are proved not to depend on it.
- `main.py`: argument parsing, CSV input and output through `DataIO`, printing, the global `Config.TODAY`, and the `Portfolio` / `PortfolioFactory` optimizer. `Stock.py`, `Config.py`, `DataIO.py` and the optimizer are not part of this model. Of a `Stock`, the model keeps only the ticker, the date → price dictionary and the expense ratio.
