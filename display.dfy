/** What the page shows after a refresh (app.py lines 86-100 and 143-144):
    the invalid-symbol warning, and either the price table, whose Change
    column is coloured by `color_change`, or the "no valid stock data"
    warning. */
module Display {
  import opened Quotes
  import opened Aggregation
  import Symbols

  datatype Color = Green | Red | White

  function ColorName(c: Color): string {
    match c
    case Green => "green"
    case Red => "red"
    case White => "white"
  }

  /** The colour a Change cell's arrow stands for. */
  function ArrowColor(a: Arrow): Color {
    match a
    case Up => Green
    case Down => Red
    case Flat => White
  }

  /** `color_change`: green when the text holds the up glyph, otherwise red
      when it holds the down glyph, otherwise white, as a CSS declaration. */
  function ColorChange(val: string): (css: string)
    ensures css == "color: green" <==> UpGlyph in val
    ensures css == "color: red" <==> UpGlyph !in val && DownGlyph in val
    ensures css == "color: white" <==> UpGlyph !in val && DownGlyph !in val
  {
    var c := if UpGlyph in val then Green else if DownGlyph in val then Red else White;
    var css := "color: " + ColorName(c);
    assert css[7] == ColorName(c)[0];
    assert "color: green"[7] == 'g' && "color: red"[7] == 'r' && "color: white"[7] == 'w';
    css
  }

  /** A renderer's output never contains either arrow glyph; Python's
      two-decimal rendering of a number has this property. */
  ghost predicate GlyphFree(fmt: real -> string) {
    forall x :: UpGlyph !in fmt(x) && DownGlyph !in fmt(x)
  }

  /** The colour of a Change cell is the colour of its arrow, because the
      rendered amount after the arrow holds no glyph. */
  lemma ChangeCellColor(a: Arrow, amount: string)
    requires UpGlyph !in amount && DownGlyph !in amount
    ensures ColorChange(ChangeCell(a, amount)) == "color: " + ColorName(ArrowColor(a))
  {
    var cell := ChangeCell(a, amount);
    assert UpGlyph in cell <==> UpGlyph in Glyph(a);
    assert DownGlyph in cell <==> DownGlyph in Glyph(a);
  }

  /** A table row is green exactly when the last close is above the previous
      one, red exactly when it is below, and white when they are equal. */
  lemma RowColor(symbol: string, short: seq<real>, long: seq<real>, fmt: real -> string)
    requires short != [] && GlyphFree(fmt)
    ensures Assess(symbol, Fetched(short, long), fmt).Accepted?
    ensures var row := Assess(symbol, Fetched(short, long), fmt).row;
            var q := Derive(short);
            && (ColorChange(row.change) == "color: green" <==> q.price > q.previous)
            && (ColorChange(row.change) == "color: red" <==> q.price < q.previous)
            && (ColorChange(row.change) == "color: white" <==> q.price == q.previous)
  {
    var q := Derive(short);
    ChangeCellColor(q.arrow, fmt(q.change));
  }

  // ---------------------------------------------------------------------
  // The page after a refresh

  datatype Warning = NoWarning | InvalidWarning(symbols: seq<string>)

  datatype Body = PriceTable(rows: seq<Row>, history: map<string, seq<real>>) | NoValidData

  datatype Screen = Screen(warning: Warning, body: Body)

  /** The warning lists the invalid symbols when there are any; the table is
      drawn when there is a row, else the "no valid data" warning. */
  function Render(s: Snapshot): (sc: Screen)
    ensures sc.warning.InvalidWarning? <==> s.invalid != []
    ensures sc.warning.InvalidWarning? ==> sc.warning.symbols == s.invalid
    ensures sc.body.NoValidData? <==> s.rows == []
    ensures sc.body.PriceTable? ==> sc.body.rows == s.rows && sc.body.history == s.history
  {
    Screen(if s.invalid != [] then InvalidWarning(s.invalid) else NoWarning,
           if s.rows != [] then PriceTable(s.rows, s.history) else NoValidData)
  }

  /** The "no valid data" branch is taken exactly when every request was
      rejected, whatever their number; the invalid warning is shown exactly
      when at least one request was rejected. */
  lemma RefreshScreen(symbols: seq<string>, responses: seq<Fetch>, fmt: real -> string)
    requires |symbols| == |responses|
    ensures var outs := Outcomes(symbols, responses, fmt);
            var sc := Render(Aggregate(symbols, responses, fmt));
            && (sc.body.NoValidData? <==> forall i :: 0 <= i < |outs| ==> outs[i].Rejected?)
            && (sc.warning.InvalidWarning? <==> exists i :: 0 <= i < |outs| && outs[i].Rejected?)
  {
    var outs := Outcomes(symbols, responses, fmt);
    CollectRows(symbols, outs);
    CollectInvalid(symbols, outs);
    NoRowsIff(outs);
    SomeInvalidIff(symbols, outs);
  }

  /** The page of one refresh, starting from the sidebar text: the warning
      lists the rejected symbols in request order, if any, and the table
      holds the accepted rows in request order, if any. */
  function Dashboard(input: string, responses: seq<Fetch>, fmt: real -> string): (sc: Screen)
    requires |responses| == |Symbols.ParseSymbols(input)|
    ensures var symbols := Symbols.ParseSymbols(input);
            var outs := Outcomes(symbols, responses, fmt);
            && sc.warning == (if RejectedSymbols(symbols, outs) == [] then NoWarning
                              else InvalidWarning(RejectedSymbols(symbols, outs)))
            && sc.body == (if AcceptedRows(outs) == [] then NoValidData
                           else PriceTable(AcceptedRows(outs), Aggregate(symbols, responses, fmt).history))
  {
    var symbols := Symbols.ParseSymbols(input);
    var outs := Outcomes(symbols, responses, fmt);
    CollectRows(symbols, outs);
    CollectInvalid(symbols, outs);
    Render(Aggregate(symbols, responses, fmt))
  }

  /** Since the sidebar text always names at least one symbol, a page with
      no table always carries the invalid-symbol warning. */
  lemma NoDataIsExplained(input: string, responses: seq<Fetch>, fmt: real -> string)
    requires |responses| == |Symbols.ParseSymbols(input)|
    ensures Dashboard(input, responses, fmt).body.NoValidData?
            ==> Dashboard(input, responses, fmt).warning.InvalidWarning?
  {
    var symbols := Symbols.ParseSymbols(input);
    var outs := Outcomes(symbols, responses, fmt);
    RefreshScreen(symbols, responses, fmt);
    assert |outs| > 0;
    if forall i :: 0 <= i < |outs| ==> outs[i].Rejected? {
      assert outs[0].Rejected?;
    }
  }
}
