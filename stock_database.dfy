/** The stock database: filters the assets that have too little history, fixes the
    canonical ticker order and builds the date-aligned price panel that the portfolio
    optimizer indexes by position. */
module StockDatabase {
  import opened Ordering

  /** A calendar date, as a day ordinal; only its order matters here. */
  type Date = int

  type Price = real

  /** A stock as this core sees it: its ticker, its date-to-price observations and the
      expense ratio attached when it was read. The database never changes a stock. */
  datatype Stock = Stock(ticker: string, orderedDateDict: map<Date, Price>, expenseRatio: real)

  /** Every stock is filed under its own ticker, as the caller builds the dictionary. */
  predicate KeyedByTicker(stocks: map<string, Stock>)
  {
    forall t :: t in stocks ==> stocks[t].ticker == t
  }

  predicate DateBefore(a: Date, b: Date)
  {
    a < b
  }

  // ---------------------------------------------------------------------------
  // Filter: drop stocks with fewer than the minimum number of observations.
  // ---------------------------------------------------------------------------

  /** `kept` is `stocks` restricted to the stocks with at least `minimum` observations,
      each of them unchanged. */
  ghost predicate IsFilteredBy(stocks: map<string, Stock>, kept: map<string, Stock>, minimum: int)
  {
    && kept.Keys <= stocks.Keys
    && (forall t :: t in kept ==> kept[t] == stocks[t])
    && (forall t :: t in stocks ==> (t in kept <==> |stocks[t].orderedDateDict| >= minimum))
  }

  method FilterStocks(stocks: map<string, Stock>, minimumAmountData: int)
    returns (kept: map<string, Stock>)
    ensures IsFilteredBy(stocks, kept, minimumAmountData)
  {
    kept := map[];
    var pending := stocks.Keys;
    while pending != {}
      invariant pending <= stocks.Keys
      invariant kept.Keys <= stocks.Keys - pending
      invariant forall t :: t in kept ==> kept[t] == stocks[t]
      invariant forall t :: t in stocks && t !in pending ==>
                  (t in kept <==> |stocks[t].orderedDateDict| >= minimumAmountData)
      decreases pending
    {
      var t :| t in pending;
      if |stocks[t].orderedDateDict| >= minimumAmountData {
        kept := kept[t := stocks[t]];
      }
      pending := pending - {t};
    }
  }

  // ---------------------------------------------------------------------------
  // Order: the canonical ticker order.
  // ---------------------------------------------------------------------------

  /** `tickers` lists the keys of `stocks` in Python's string order, each once. */
  ghost predicate IsCanonicalOrder(stocks: map<string, Stock>, tickers: seq<string>)
  {
    && StrictlyAscending(tickers, LexLess)
    && (forall t :: t in tickers <==> t in stocks)
  }

  // ---------------------------------------------------------------------------
  // Align: keep the dates every stock reports and lay the prices out as a panel.
  // ---------------------------------------------------------------------------

  /** The tickers among `ts` whose stock reports a price on `d`. */
  ghost function CoveringAmong(stocks: map<string, Stock>, ts: set<string>, d: Date): set<string>
  {
    set t | t in ts && t in stocks && d in stocks[t].orderedDateDict
  }

  /** Every stock reports a price on `d`. */
  ghost predicate CoveredByAll(stocks: map<string, Stock>, d: Date)
  {
    forall t :: t in stocks ==> d in stocks[t].orderedDateDict
  }

  /** The prices recorded so far for `d`; none if the date has not been seen. */
  function PricesOn(dateDict: map<Date, map<string, Price>>, d: Date): map<string, Price>
  {
    if d in dateDict then dateDict[d] else map[]
  }

  /** Record every price of `stock` under its date and its ticker, opening an entry
      for each date not seen before. */
  method AddStockPrices(dateDict: map<Date, map<string, Price>>, stock: Stock)
    returns (updated: map<Date, map<string, Price>>)
    ensures forall d :: d in updated <==> d in dateDict || d in stock.orderedDateDict
    ensures forall d :: d in updated && d !in stock.orderedDateDict ==> updated[d] == dateDict[d]
    ensures forall d :: d in stock.orderedDateDict ==>
              updated[d] == PricesOn(dateDict, d)[stock.ticker := stock.orderedDateDict[d]]
  {
    updated := dateDict;
    var remaining := stock.orderedDateDict.Keys;
    while remaining != {}
      invariant remaining <= stock.orderedDateDict.Keys
      invariant forall d :: d in updated <==> d in dateDict || (d in stock.orderedDateDict && d !in remaining)
      invariant forall d :: d in updated && (d !in stock.orderedDateDict || d in remaining) ==>
                  updated[d] == dateDict[d]
      invariant forall d :: d in stock.orderedDateDict && d !in remaining ==>
                  updated[d] == PricesOn(dateDict, d)[stock.ticker := stock.orderedDateDict[d]]
      decreases remaining
    {
      ghost var next := SomeElement(remaining);
      var d :| d in remaining;
      if d !in updated {
        updated := updated[d := map[]];
      }
      updated := updated[d := updated[d][stock.ticker := stock.orderedDateDict[d]]];
      remaining := remaining - {d};
    }
  }

  /** `dateDict` maps each date some stock reports to the tickers reporting it and
      their prices on that date. */
  ghost predicate IsDateDict(stocks: map<string, Stock>, dateDict: map<Date, map<string, Price>>)
  {
    && (forall d :: d in dateDict <==> CoveringAmong(stocks, stocks.Keys, d) != {})
    && (forall d :: d in dateDict ==> dateDict[d].Keys == CoveringAmong(stocks, stocks.Keys, d))
    && (forall d, t :: d in dateDict && t in dateDict[d] ==>
          t in stocks && d in stocks[t].orderedDateDict && dateDict[d][t] == stocks[t].orderedDateDict[d])
  }

  /** The date-to-(ticker-to-price) dictionary: one entry per date some stock reports,
      holding exactly the stocks that report it and their prices. */
  method BuildDateDict(stocks: map<string, Stock>) returns (dateDict: map<Date, map<string, Price>>)
    requires KeyedByTicker(stocks)
    ensures IsDateDict(stocks, dateDict)
  {
    dateDict := map[];
    var pending := stocks.Keys;
    while pending != {}
      invariant pending <= stocks.Keys
      invariant forall d :: d in dateDict <==> CoveringAmong(stocks, stocks.Keys - pending, d) != {}
      invariant forall d :: d in dateDict ==> dateDict[d].Keys == CoveringAmong(stocks, stocks.Keys - pending, d)
      invariant forall d, t :: d in dateDict && t in dateDict[d] ==>
                  t in stocks && d in stocks[t].orderedDateDict && dateDict[d][t] == stocks[t].orderedDateDict[d]
      decreases pending
    {
      var t :| t in pending;
      ghost var done := stocks.Keys - pending;
      ghost var before := dateDict;
      var stock := stocks[t];
      dateDict := AddStockPrices(dateDict, stock);
      pending := pending - {t};
      assert stocks.Keys - pending == done + {t};
      forall d ensures CoveringAmong(stocks, done + {t}, d) ==
                       CoveringAmong(stocks, done, d) + (if d in stock.orderedDateDict then {t} else {})
      {
      }
      forall d | d in stock.orderedDateDict
        ensures dateDict[d].Keys == PricesOn(before, d).Keys + {t}
      {
      }
    }
  }

  /** Delete every date that fewer than `tickerCount` stocks report. */
  method DropIncompleteDates(dateDict: map<Date, map<string, Price>>, tickerCount: int)
    returns (full: map<Date, map<string, Price>>)
    ensures forall d :: d in full <==> d in dateDict && |dateDict[d].Keys| >= tickerCount
    ensures forall d :: d in full ==> full[d] == dateDict[d]
  {
    full := dateDict;
    var pending := dateDict.Keys;
    while pending != {}
      invariant pending <= dateDict.Keys
      invariant forall d :: d in full <==> d in dateDict && (d in pending || |dateDict[d].Keys| >= tickerCount)
      invariant forall d :: d in full ==> full[d] == dateDict[d]
      decreases pending
    {
      ghost var next := SomeElement(pending);
      var d :| d in pending;
      if |full[d].Keys| < tickerCount {
        full := full - {d};
      }
      pending := pending - {d};
    }
  }

  /** Some element of a non-empty set: shows the verifier that a loop over the dates
      of a dictionary has a next date to visit. */
  lemma SomeElement<T>(s: set<T>) returns (x: T)
    requires s != {}
    ensures x in s
  {
    x :| x in s;
  }

  /** A subset is no larger than its superset, and equally large only when equal. */
  lemma {:induction false} SubsetCardinality<T>(a: set<T>, b: set<T>)
    requires a <= b
    ensures |a| <= |b|
    ensures |a| == |b| ==> a == b
    decreases b
  {
    if b - a != {} {
      var x :| x in b - a;
      SubsetCardinality(a, b - {x});
    } else {
      assert b <= a;
    }
  }

  /** A date is reported by as many stocks as there are exactly when every stock
      reports it. */
  lemma CoverageCount(stocks: map<string, Stock>, d: Date)
    ensures |CoveringAmong(stocks, stocks.Keys, d)| >= |stocks.Keys| <==> CoveredByAll(stocks, d)
    ensures CoveredByAll(stocks, d) ==> CoveringAmong(stocks, stocks.Keys, d) == stocks.Keys
  {
    var covering := CoveringAmong(stocks, stocks.Keys, d);
    SubsetCardinality(covering, stocks.Keys);
    if CoveredByAll(stocks, d) {
      assert covering == stocks.Keys;
    }
  }

  /** Keeping the dates of a date dictionary that as many tickers as there are stocks
      report keeps exactly the dates every stock reports, each with every stock's price. */
  lemma CompleteDates(stocks: map<string, Stock>, dateDict: map<Date, map<string, Price>>,
                      full: map<Date, map<string, Price>>)
    requires IsDateDict(stocks, dateDict)
    requires forall d :: d in full <==> d in dateDict && |dateDict[d].Keys| >= |stocks.Keys|
    requires forall d :: d in full ==> full[d] == dateDict[d]
    ensures forall d :: d in full <==> stocks != map[] && CoveredByAll(stocks, d)
    ensures forall d :: d in full ==> full[d].Keys == stocks.Keys
    ensures forall d, t :: d in full && t in full[d] ==>
              t in stocks && d in stocks[t].orderedDateDict && full[d][t] == stocks[t].orderedDateDict[d]
  {
    forall d ensures d in full <==> stocks != map[] && CoveredByAll(stocks, d) {
      CoverageCount(stocks, d);
      if stocks != map[] && CoveredByAll(stocks, d) {
        var t :| t in stocks;
        assert t in CoveringAmong(stocks, stocks.Keys, d);
      }
    }
    forall d | d in full ensures full[d].Keys == stocks.Keys {
      CoverageCount(stocks, d);
    }
  }

  /** `dates` and `prices` form the aligned panel of `stocks` in the column order
      `tickers`: the rows are exactly the dates every stock reports, ascending, and
      each cell is the price its column's stock reports on its row's date. */
  ghost predicate IsAlignedPanel(stocks: map<string, Stock>, tickers: seq<string>,
                                 dates: seq<Date>, prices: seq<seq<Price>>)
  {
    && StrictlyAscending(dates, DateBefore)
    && (forall d :: d in dates <==> stocks != map[] && CoveredByAll(stocks, d))
    && |prices| == |dates|
    && (forall i :: 0 <= i < |dates| ==> |prices[i]| == |tickers|)
    && (forall i, j :: 0 <= i < |dates| && 0 <= j < |tickers| ==>
          && tickers[j] in stocks
          && dates[i] in stocks[tickers[j]].orderedDateDict
          && prices[i][j] == stocks[tickers[j]].orderedDateDict[dates[i]])
  }

  /** The date dictionary with every date that not all stocks report removed. */
  method FullyCoveredDates(stocks: map<string, Stock>) returns (full: map<Date, map<string, Price>>)
    requires KeyedByTicker(stocks)
    ensures forall d :: d in full <==> stocks != map[] && CoveredByAll(stocks, d)
    ensures forall d :: d in full ==> full[d].Keys == stocks.Keys
    ensures forall d, t :: d in full && t in full[d] ==>
              t in stocks && d in stocks[t].orderedDateDict && full[d][t] == stocks[t].orderedDateDict[d]
  {
    var dateDict := BuildDateDict(stocks);
    full := DropIncompleteDates(dateDict, |stocks.Keys|);
    CompleteDates(stocks, dateDict, full);
  }

  /** The dates in ascending order, each once: `sorted` on the date keys. */
  method SortDates(dates: set<Date>) returns (ordered: seq<Date>)
    ensures StrictlyAscending(ordered, DateBefore)
    ensures forall d :: d in ordered <==> d in dates
  {
    assert IsStrictTotalOrder(DateBefore);
    ordered := SortSet(dates, DateBefore);
  }

  /** Rows follow `dates`, columns follow `tickers`; each cell is that date's price
      for that ticker. */
  function PriceArray(full: map<Date, map<string, Price>>, dates: seq<Date>, tickers: seq<string>)
    : seq<seq<Price>>
    requires forall i :: 0 <= i < |dates| ==> dates[i] in full
    requires forall i, j :: 0 <= i < |dates| && 0 <= j < |tickers| ==> tickers[j] in full[dates[i]]
  {
    seq(|dates|, i requires 0 <= i < |dates| =>
      seq(|tickers|, j requires 0 <= j < |tickers| => full[dates[i]][tickers[j]]))
  }

  /** The price panel: rows are the dates every stock reports, in ascending order;
      columns follow `tickers`. `dates` gives each row's date. */
  method FilteredPrices(stocks: map<string, Stock>, tickers: seq<string>)
    returns (dates: seq<Date>, priceArray: seq<seq<Price>>)
    requires KeyedByTicker(stocks)
    requires forall t :: t in tickers <==> t in stocks
    ensures IsAlignedPanel(stocks, tickers, dates, priceArray)
  {
    var full := FullyCoveredDates(stocks);
    var orderedDates := SortDates(full.Keys);
    forall i | 0 <= i < |orderedDates| ensures orderedDates[i] in full {
      assert orderedDates[i] in orderedDates;
      assert orderedDates[i] in full.Keys;
    }
    forall i, j | 0 <= i < |orderedDates| && 0 <= j < |tickers|
      ensures tickers[j] in full[orderedDates[i]]
    {
      var d := orderedDates[i];
      assert d in full && tickers[j] in tickers;
      assert full[d].Keys == stocks.Keys;
    }
    priceArray := PriceArray(full, orderedDates, tickers);
    dates := orderedDates;
  }

  /** With no stock left after filtering there is nothing to order and no date to
      align on: the ticker order and the panel are empty, and no error is raised. */
  lemma EmptyUniverse(tickers: seq<string>, dates: seq<Date>, prices: seq<seq<Price>>)
    requires IsCanonicalOrder(map[], tickers) && IsAlignedPanel(map[], tickers, dates, prices)
    ensures tickers == [] && dates == [] && prices == []
  {
    HeadIsMember(tickers);
    HeadIsMember(dates);
  }

  // ---------------------------------------------------------------------------
  // Returns: the single-period price ratios the statistics are computed from.
  // ---------------------------------------------------------------------------

  /** Every row has as many entries as the first. */
  predicate IsRectangular(m: seq<seq<real>>)
  {
    forall i :: 0 <= i < |m| ==> |m[i]| == |m[0]|
  }

  predicate NoZeroPrice(m: seq<seq<real>>)
  {
    forall i, j :: 0 <= i < |m| && 0 <= j < |m[i]| ==> m[i][j] != 0.0
  }

  predicate AllPositive(m: seq<seq<real>>)
  {
    forall i, j :: 0 <= i < |m| && 0 <= j < |m[i]| ==> m[i][j] > 0.0
  }

  /** Entry-wise `row * factors`. */
  function Scale(row: seq<real>, factors: seq<real>): seq<real>
    requires |factors| == |row|
  {
    seq(|row|, j requires 0 <= j < |row| => row[j] * factors[j])
  }

  /** Entry-wise `next / prev`: the factors that take `prev` to `next`. */
  function RowRatio(next: seq<real>, prev: seq<real>): (ratio: seq<real>)
    requires |next| == |prev|
    requires forall j :: 0 <= j < |prev| ==> prev[j] != 0.0
    ensures |ratio| == |prev|
    ensures Scale(prev, ratio) == next
    ensures (forall j :: 0 <= j < |prev| ==> prev[j] > 0.0 && next[j] > 0.0) ==>
              forall j :: 0 <= j < |ratio| ==> ratio[j] > 0.0
  {
    var ratio := seq(|prev|, j requires 0 <= j < |prev| => next[j] / prev[j]);
    forall j | 0 <= j < |prev| ensures Scale(prev, ratio)[j] == next[j] {
      assert ratio[j] == next[j] / prev[j];
    }
    ratio
  }

  /** `prices[1:] / prices[:-1]`: one row per consecutive pair of dates, holding each
      stock's price on the later date divided by its price on the earlier one. */
  function PriceRatios(prices: seq<seq<real>>): (ratios: seq<seq<real>>)
    requires IsRectangular(prices) && NoZeroPrice(prices)
    ensures |ratios| == if |prices| == 0 then 0 else |prices| - 1
    ensures forall i :: 0 <= i < |ratios| ==> |ratios[i]| == |prices[i]| == |prices[i + 1]|
    ensures forall i :: 0 <= i < |ratios| ==> Scale(prices[i], ratios[i]) == prices[i + 1]
  {
    if |prices| == 0 then []
    else
      var ratios := seq(|prices| - 1, i requires 0 <= i < |prices| - 1 => RowRatio(prices[i + 1], prices[i]));
      assert forall i :: 0 <= i < |ratios| ==> ratios[i] == RowRatio(prices[i + 1], prices[i]);
      ratios
  }

  /** Positive prices give positive ratios. */
  lemma PositiveRatios(prices: seq<seq<real>>)
    requires IsRectangular(prices) && AllPositive(prices)
    ensures AllPositive(PriceRatios(prices))
  {
  }

  /** The aligned panel is a valid input to the ratio step whenever no stock reports
      a zero price, and its ratios are positive when every reported price is. */
  lemma PanelFeedsRatios(stocks: map<string, Stock>, tickers: seq<string>,
                         dates: seq<Date>, prices: seq<seq<Price>>)
    requires IsAlignedPanel(stocks, tickers, dates, prices)
    requires forall t, d :: t in stocks && d in stocks[t].orderedDateDict ==> stocks[t].orderedDateDict[d] != 0.0
    ensures IsRectangular(prices) && NoZeroPrice(prices)
    ensures (forall t, d :: t in stocks && d in stocks[t].orderedDateDict ==> stocks[t].orderedDateDict[d] > 0.0) ==>
              AllPositive(PriceRatios(prices))
  {
    forall i, j | 0 <= i < |prices| && 0 <= j < |prices[i]| ensures prices[i][j] != 0.0 {
      var t, d := tickers[j], dates[i];
      assert t in stocks && d in stocks[t].orderedDateDict && prices[i][j] == stocks[t].orderedDateDict[d];
    }
    if forall t, d :: t in stocks && d in stocks[t].orderedDateDict ==> stocks[t].orderedDateDict[d] > 0.0 {
      forall i, j | 0 <= i < |prices| && 0 <= j < |prices[i]| ensures prices[i][j] > 0.0 {
        var t, d := tickers[j], dates[i];
      assert t in stocks && d in stocks[t].orderedDateDict && prices[i][j] == stocks[t].orderedDateDict[d];
      }
    }
  }

  /** Prices rebuilt from a first row and the ratios: each row is the previous one
      multiplied entry-wise by the next row of ratios. */
  function Compound(first: seq<real>, ratios: seq<seq<real>>): (prices: seq<seq<real>>)
    requires forall i :: 0 <= i < |ratios| ==> |ratios[i]| == |first|
    ensures |prices| == |ratios| + 1
    decreases |ratios|
  {
    if ratios == [] then [first]
    else [first] + Compound(Scale(first, ratios[0]), ratios[1..])
  }

  /** The ratios lose nothing but the starting prices: compounding them from the
      first row gives back the whole panel. */
  lemma {:induction false} CompoundRatios(prices: seq<seq<real>>)
    requires |prices| > 0 && IsRectangular(prices) && NoZeroPrice(prices)
    ensures Compound(prices[0], PriceRatios(prices)) == prices
  {
    var ratios := PriceRatios(prices);
    if |prices| > 1 {
      assert ratios[1..] == PriceRatios(prices[1..]);
      CompoundRatios(prices[1..]);
      assert prices == [prices[0]] + prices[1..];
    }
  }

  // ---------------------------------------------------------------------------
  // The database.
  // ---------------------------------------------------------------------------

  /** Two snapshots built from the same stocks agree: the ticker order, the row dates
      and the panel are determined by the stocks alone. */
  lemma DatabaseDeterministic(stocks: map<string, Stock>,
                              tickers1: seq<string>, dates1: seq<Date>, prices1: seq<seq<Price>>,
                              tickers2: seq<string>, dates2: seq<Date>, prices2: seq<seq<Price>>)
    requires IsCanonicalOrder(stocks, tickers1) && IsAlignedPanel(stocks, tickers1, dates1, prices1)
    requires IsCanonicalOrder(stocks, tickers2) && IsAlignedPanel(stocks, tickers2, dates2, prices2)
    ensures tickers1 == tickers2 && dates1 == dates2 && prices1 == prices2
  {
    LexLessIsStrictTotalOrder();
    AscendingUnique(tickers1, tickers2, LexLess);
    assert IsStrictTotalOrder(DateBefore);
    assert forall d :: d in dates1 <==> d in dates2;
    AscendingUnique(dates1, dates2, DateBefore);
    forall i | 0 <= i < |prices1| ensures prices1[i] == prices2[i] {
      forall j | 0 <= j < |tickers1| ensures prices1[i][j] == prices2[i][j] {
        assert prices1[i][j] == stocks[tickers1[j]].orderedDateDict[dates1[i]];
      }
    }
  }

  /** The snapshot is fixed once built: two databases holding the same filtered
      stocks have the same ticker order, row dates and panel. */
  lemma SnapshotDeterministic(db1: StockDatabase, db2: StockDatabase)
    requires db1.Valid() && db2.Valid() && db1.stockDict == db2.stockDict
    ensures db1.tickers == db2.tickers && db1.dates == db2.dates && db1.priceArray == db2.priceArray
  {
    DatabaseDeterministic(db1.stockDict, db1.tickers, db1.dates, db1.priceArray,
                          db2.tickers, db2.dates, db2.priceArray);
  }

  class StockDatabase {
    /** The threshold the stocks were filtered by. */
    ghost const minimumAmountData: int
    const stockDict: map<string, Stock>
    const tickers: seq<string>
    const priceArray: seq<seq<Price>>
    /** The date of each row of `priceArray`. */
    ghost const dates: seq<Date>

    ghost predicate Valid()
    {
      && KeyedByTicker(stockDict)
      && (forall t :: t in stockDict ==> |stockDict[t].orderedDateDict| >= minimumAmountData)
      && IsCanonicalOrder(stockDict, tickers)
      && IsAlignedPanel(stockDict, tickers, dates, priceArray)
    }

    constructor (stocks: map<string, Stock>, minimumAmountData: int)
      requires KeyedByTicker(stocks)
      ensures Valid()
      ensures this.minimumAmountData == minimumAmountData
      ensures IsFilteredBy(stocks, stockDict, minimumAmountData)
    {
      var kept := FilterStocks(stocks, minimumAmountData);
      LexLessIsStrictTotalOrder();
      var order := SortSet(kept.Keys, LexLess);
      var rowDates, panel := FilteredPrices(kept, order);
      this.minimumAmountData := minimumAmountData;
      stockDict := kept;
      tickers := order;
      dates := rowDates;
      priceArray := panel;
    }
  }
}
