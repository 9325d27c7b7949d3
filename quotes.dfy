/** The per-symbol quote the dashboard derives from the closing prices of the
    short (two-day) series, and the table row built from it (app.py lines
    71-81). Prices are exact reals. */
module Quotes {

  /** The marker put in front of the Change cell. */
  datatype Arrow = Up | Down | Flat

  const UpGlyph: char := '\U{1F53A}'
  const DownGlyph: char := '\U{1F53B}'

  /** The arrow follows the sign of the change; no change gives no arrow. */
  function ArrowOf(change: real): (a: Arrow)
    ensures a == Up <==> change > 0.0
    ensures a == Down <==> change < 0.0
    ensures a == Flat <==> change == 0.0
  {
    if change > 0.0 then Up else if change < 0.0 then Down else Flat
  }

  /** The arrow as text: one glyph, or nothing for no change. */
  function Glyph(a: Arrow): (g: string)
    ensures |g| <= 1
    ensures g == [] <==> a == Flat
    ensures (UpGlyph in g <==> a == Up) && (DownGlyph in g <==> a == Down)
  {
    match a
    case Up => [UpGlyph]
    case Down => [DownGlyph]
    case Flat => []
  }

  /** `(change / previous) * 100`, and 0 when the previous price is 0. */
  function PercentChange(change: real, previous: real): (pct: real)
    ensures previous != 0.0 ==> pct * previous == change * 100.0
    ensures previous == 0.0 ==> pct == 0.0
  {
    if previous != 0.0 then
      var q := change / previous;
      assert q * previous == change;
      q * 100.0
    else 0.0
  }

  datatype Quote = Quote(price: real, previous: real, change: real, pctChange: real, arrow: Arrow)

  lemma PercentSign(change: real, previous: real)
    requires previous > 0.0
    ensures PercentChange(change, previous) > 0.0 <==> change > 0.0
    ensures PercentChange(change, previous) < 0.0 <==> change < 0.0
  {
    var pct := PercentChange(change, previous);
    assert pct * previous == change * 100.0;
    if pct > 0.0 { assert pct * previous > 0.0; }
    if pct < 0.0 { assert pct * previous < 0.0; }
    if pct == 0.0 { assert pct * previous == 0.0; }
  }

  /** The quote of a non-empty close series: the price is the last close;
      the previous price is the close before it, or the last close again
      when there is only one; the change is their difference; the percent
      change is relative to the previous price and 0 when that is 0. */
  function Derive(closes: seq<real>): (q: Quote)
    requires |closes| > 0
    ensures q.price == closes[|closes| - 1]
    ensures |closes| >= 2 ==> q.previous == closes[|closes| - 2]
    ensures |closes| == 1 ==> q.previous == q.price && q.change == 0.0
                              && q.pctChange == 0.0 && q.arrow == Flat
    ensures q.price == q.previous + q.change
    ensures q.previous != 0.0 ==> q.price * 100.0 == q.previous * (100.0 + q.pctChange)
    ensures q.previous == 0.0 ==> q.pctChange == 0.0
    ensures (q.arrow == Up <==> q.price > q.previous) && (q.arrow == Down <==> q.price < q.previous)
    ensures q.previous > 0.0 ==> (q.pctChange > 0.0 <==> q.arrow == Up)
                                 && (q.pctChange < 0.0 <==> q.arrow == Down)
  {
    var last := closes[|closes| - 1];
    var prev := if |closes| > 1 then closes[|closes| - 2] else last;
    var change := last - prev;
    var pct := PercentChange(change, prev);
    if prev > 0.0 then PercentSign(change, prev); Quote(last, prev, change, pct, ArrowOf(change))
    else Quote(last, prev, change, pct, ArrowOf(change))
  }

  /** One line of the price table: the "Stock", "Price", "Change" and
      "Percent Change" columns. */
  datatype Row = Row(stock: string, price: real, change: string, pctChange: real)

  /** The Change cell `f"{arrow} {change:.2f}"`: the arrow glyph (possibly
      none), a space, then the rendered amount. When the amount holds no
      glyph, the cell holds a glyph exactly when the arrow is that glyph's. */
  function ChangeCell(a: Arrow, amount: string): (cell: string)
    ensures a == Flat ==> cell == [' '] + amount
    ensures a == Up ==> cell == [UpGlyph, ' '] + amount
    ensures a == Down ==> cell == [DownGlyph, ' '] + amount
    ensures UpGlyph !in amount ==> (UpGlyph in cell <==> a == Up)
    ensures DownGlyph !in amount ==> (DownGlyph in cell <==> a == Down)
  {
    Glyph(a) + [' '] + amount
  }

  /** The row of a symbol, one field per table column; `fmt` renders the
      change with two decimals, which is not modelled here. */
  function MakeRow(symbol: string, q: Quote, fmt: real -> string): Row {
    Row(symbol, q.price, ChangeCell(q.arrow, fmt(q.change)), q.pctChange)
  }
}
