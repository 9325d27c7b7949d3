/** One refresh of the dashboard (app.py lines 59-84): every requested symbol
    is looked up, and goes either to the price table (with its 30-day closes
    stored under its name) or to the list of invalid symbols.

    The market-data provider is an input: `responses[i]` is what the two
    `history` calls answered for the i-th requested symbol. */
module Aggregation {
  import opened Quotes

  /** What the provider gave for one symbol: an exception somewhere in the
      `Ticker`/`history` calls, or the close prices of the two-day and of
      the 30-day series. */
  datatype Fetch = Raised | Fetched(short: seq<real>, long: seq<real>)

  /** What the loop body decides for one symbol. */
  datatype Outcome = Accepted(row: Row, closes: seq<real>) | Rejected

  /** A symbol is rejected when a fetch raised or the two-day series is
      empty; otherwise its row is built from the two-day closes and its
      history is the 30-day closes. */
  function Assess(symbol: string, f: Fetch, fmt: real -> string): (o: Outcome)
    ensures o.Rejected? <==> (f.Raised? || f.short == [])
    ensures o.Accepted? ==> o.row.stock == symbol && o.closes == f.long
                            && o.row.price == f.short[|f.short| - 1]
    ensures o.Accepted? ==> var q := Derive(f.short);
                            && o.row.pctChange == q.pctChange
                            && o.row.change == ChangeCell(q.arrow, fmt(q.change))
  {
    match f
    case Raised => Rejected
    case Fetched(short, long) =>
      if short == [] then Rejected else Accepted(MakeRow(symbol, Derive(short), fmt), long)
  }

  function Outcomes(symbols: seq<string>, responses: seq<Fetch>, fmt: real -> string): seq<Outcome>
    requires |symbols| == |responses|
  {
    seq(|symbols|, i requires 0 <= i < |symbols| => Assess(symbols[i], responses[i], fmt))
  }

  /** The three results of a refresh: `data_list`, `historical_data` and
      `invalid_symbols`. */
  datatype Snapshot = Snapshot(rows: seq<Row>, history: map<string, seq<real>>, invalid: seq<string>)

  /** One iteration of the loop: append to the invalid list, or append the
      row and (over)write the symbol's history. */
  function Record(s: Snapshot, symbol: string, o: Outcome): (t: Snapshot)
    ensures |t.rows| + |t.invalid| == |s.rows| + |s.invalid| + 1
    ensures o.Rejected? ==> t == Snapshot(s.rows, s.history, s.invalid + [symbol])
    ensures o.Accepted? ==> t == Snapshot(s.rows + [o.row], s.history[symbol := o.closes], s.invalid)
  {
    match o
    case Rejected => s.(invalid := s.invalid + [symbol])
    case Accepted(row, closes) => s.(rows := s.rows + [row], history := s.history[symbol := closes])
  }

  /** The loop, as the state after processing the symbols in order. Only
      requested symbols get a history entry or an invalid-list entry. */
  function Collect(symbols: seq<string>, outs: seq<Outcome>): (r: Snapshot)
    requires |symbols| == |outs|
    ensures forall x :: x in r.history ==> x in symbols
    ensures forall x :: x in r.invalid ==> x in symbols
    decreases |symbols|
  {
    if symbols == [] then Snapshot([], map[], [])
    else
      var n := |symbols| - 1;
      Record(Collect(symbols[..n], outs[..n]), symbols[n], outs[n])
  }

  function Aggregate(symbols: seq<string>, responses: seq<Fetch>, fmt: real -> string): Snapshot
    requires |symbols| == |responses|
  {
    Collect(symbols, Outcomes(symbols, responses, fmt))
  }

  /** The refresh loop itself. */
  method Refresh(symbols: seq<string>, responses: seq<Fetch>, fmt: real -> string)
    returns (rows: seq<Row>, history: map<string, seq<real>>, invalid: seq<string>)
    requires |responses| == |symbols|
    ensures Snapshot(rows, history, invalid) == Aggregate(symbols, responses, fmt)
    ensures |rows| + |invalid| == |symbols|
    ensures rows == AcceptedRows(Outcomes(symbols, responses, fmt))
    ensures invalid == RejectedSymbols(symbols, Outcomes(symbols, responses, fmt))
  {
    ghost var outs := Outcomes(symbols, responses, fmt);
    rows, history, invalid := [], map[], [];
    for i := 0 to |symbols|
      invariant Snapshot(rows, history, invalid) == Collect(symbols[..i], outs[..i])
    {
      var symbol := symbols[i];
      match responses[i] {
        case Raised =>
          invalid := invalid + [symbol];
        case Fetched(short, long) =>
          if short == [] {
            invalid := invalid + [symbol];
          } else {
            var quote := Derive(short);
            rows := rows + [MakeRow(symbol, quote, fmt)];
            history := history[symbol := long];
          }
      }
      assert symbols[..i + 1][..i] == symbols[..i];
      assert outs[..i + 1][..i] == outs[..i];
    }
    assert symbols[..|symbols|] == symbols;
    assert outs[..|symbols|] == outs;
    CollectPartition(symbols, outs);
    CollectRows(symbols, outs);
    CollectInvalid(symbols, outs);
  }

  // ---------------------------------------------------------------------
  // Reference definitions, read front to back

  /** The rows of the accepted symbols, in request order. */
  function AcceptedRows(outs: seq<Outcome>): seq<Row> {
    if outs == [] then []
    else (if outs[0].Accepted? then [outs[0].row] else []) + AcceptedRows(outs[1..])
  }

  /** The rejected symbols, in request order, duplicates kept. */
  function RejectedSymbols(symbols: seq<string>, outs: seq<Outcome>): seq<string>
    requires |symbols| == |outs|
  {
    if symbols == [] then []
    else (if outs[0].Rejected? then [symbols[0]] else []) + RejectedSymbols(symbols[1..], outs[1..])
  }

  lemma {:induction false} AcceptedRowsSnoc(outs: seq<Outcome>, o: Outcome)
    ensures AcceptedRows(outs + [o]) == AcceptedRows(outs) + (if o.Accepted? then [o.row] else [])
    decreases |outs|
  {
    if outs != [] {
      assert (outs + [o])[1..] == outs[1..] + [o];
      AcceptedRowsSnoc(outs[1..], o);
    }
  }

  lemma {:induction false} RejectedSymbolsSnoc(symbols: seq<string>, outs: seq<Outcome>, x: string, o: Outcome)
    requires |symbols| == |outs|
    ensures RejectedSymbols(symbols + [x], outs + [o])
            == RejectedSymbols(symbols, outs) + (if o.Rejected? then [x] else [])
    decreases |symbols|
  {
    if symbols != [] {
      assert (symbols + [x])[1..] == symbols[1..] + [x];
      assert (outs + [o])[1..] == outs[1..] + [o];
      RejectedSymbolsSnoc(symbols[1..], outs[1..], x, o);
    }
  }

  // ---------------------------------------------------------------------
  // What a refresh produces

  /** The table holds the rows of the accepted symbols, in request order,
      duplicates kept. */
  lemma {:induction false} CollectRows(symbols: seq<string>, outs: seq<Outcome>)
    requires |symbols| == |outs|
    ensures Collect(symbols, outs).rows == AcceptedRows(outs)
    decreases |symbols|
  {
    if symbols != [] {
      var n := |symbols| - 1;
      CollectRows(symbols[..n], outs[..n]);
      AcceptedRowsSnoc(outs[..n], outs[n]);
      assert outs[..n] + [outs[n]] == outs;
    }
  }

  /** The invalid list holds the rejected symbols, in request order,
      duplicates kept. */
  lemma {:induction false} CollectInvalid(symbols: seq<string>, outs: seq<Outcome>)
    requires |symbols| == |outs|
    ensures Collect(symbols, outs).invalid == RejectedSymbols(symbols, outs)
    decreases |symbols|
  {
    if symbols != [] {
      var n := |symbols| - 1;
      CollectInvalid(symbols[..n], outs[..n]);
      RejectedSymbolsSnoc(symbols[..n], outs[..n], symbols[n], outs[n]);
      assert symbols[..n] + [symbols[n]] == symbols;
      assert outs[..n] + [outs[n]] == outs;
    }
  }

  /** Every requested symbol lands in exactly one of the two lists. */
  lemma {:induction false} CollectPartition(symbols: seq<string>, outs: seq<Outcome>)
    requires |symbols| == |outs|
    ensures |Collect(symbols, outs).rows| + |Collect(symbols, outs).invalid| == |symbols|
    decreases |symbols|
  {
    if symbols != [] {
      var n := |symbols| - 1;
      CollectPartition(symbols[..n], outs[..n]);
    }
  }

  /** The history is keyed by exactly the symbols that got a row. */
  lemma {:induction false} CollectHistoryKeys(symbols: seq<string>, outs: seq<Outcome>)
    requires |symbols| == |outs|
    ensures Collect(symbols, outs).history.Keys
            == set i | 0 <= i < |symbols| && outs[i].Accepted? :: symbols[i]
    decreases |symbols|
  {
    if symbols != [] {
      var n := |symbols| - 1;
      CollectHistoryKeys(symbols[..n], outs[..n]);
      var before := set i | 0 <= i < n && outs[..n][i].Accepted? :: symbols[..n][i];
      var after := set i | 0 <= i < |symbols| && outs[i].Accepted? :: symbols[i];
      assert before == set i | 0 <= i < n && outs[i].Accepted? :: symbols[i];
      if outs[n].Accepted? {
        assert after == before + {symbols[n]};
      } else {
        assert after == before;
      }
    }
  }

  /** The history of a symbol is the 30-day series of its last accepted
      occurrence: a later duplicate overwrites an earlier one. */
  lemma {:induction false} CollectHistoryLatest(symbols: seq<string>, outs: seq<Outcome>, i: nat)
    requires |symbols| == |outs|
    requires i < |symbols| && outs[i].Accepted?
    requires forall j :: i < j < |symbols| && outs[j].Accepted? ==> symbols[j] != symbols[i]
    ensures symbols[i] in Collect(symbols, outs).history
    ensures Collect(symbols, outs).history[symbols[i]] == outs[i].closes
    decreases |symbols|
  {
    var n := |symbols| - 1;
    if i < n {
      CollectHistoryLatest(symbols[..n], outs[..n], i);
    }
  }

  /** A symbol that was rejected every time it was requested has no history. */
  lemma NoHistoryWithoutRow(symbols: seq<string>, outs: seq<Outcome>, x: string)
    requires |symbols| == |outs|
    requires forall i :: 0 <= i < |symbols| && symbols[i] == x ==> outs[i].Rejected?
    ensures x !in Collect(symbols, outs).history
  {
    CollectHistoryKeys(symbols, outs);
  }

  /** The table is empty exactly when every requested symbol was rejected. */
  lemma {:induction false} NoRowsIff(outs: seq<Outcome>)
    ensures AcceptedRows(outs) == [] <==> forall i :: 0 <= i < |outs| ==> outs[i].Rejected?
    decreases |outs|
  {
    if outs != [] {
      NoRowsIff(outs[1..]);
      assert forall i :: 1 <= i < |outs| ==> outs[i] == outs[1..][i - 1];
    }
  }

  /** The invalid list is non-empty exactly when some request was rejected. */
  lemma {:induction false} SomeInvalidIff(symbols: seq<string>, outs: seq<Outcome>)
    requires |symbols| == |outs|
    ensures RejectedSymbols(symbols, outs) != [] <==> exists i :: 0 <= i < |outs| && outs[i].Rejected?
    decreases |symbols|
  {
    if symbols != [] {
      SomeInvalidIff(symbols[1..], outs[1..]);
      if exists i :: 0 <= i < |outs| && outs[i].Rejected? {
        var i :| 0 <= i < |outs| && outs[i].Rejected?;
        if i > 0 { assert outs[1..][i - 1].Rejected?; }
      }
      assert forall i :: 1 <= i < |outs| ==> outs[i] == outs[1..][i - 1];
    }
  }

  /** A two-day series of a single close gives a flat row with no change. */
  lemma SingleCloseIsFlat(symbol: string, close: real, long: seq<real>, fmt: real -> string)
    ensures Assess(symbol, Fetched([close], long), fmt)
            == Accepted(Row(symbol, close, ChangeCell(Flat, fmt(0.0)), 0.0), long)
  {
  }

  /** Two requests, the second of an unknown ticker: one row, rising by 2%
      (the change is relative to the previous close), and one invalid symbol. */
  lemma KnownAndUnknownTicker(long: seq<real>, fmt: real -> string)
    ensures Aggregate(["AAPL", "ZZZZINVALID"], [Fetched([100.0, 102.0], long), Fetched([], [])], fmt)
            == Snapshot([Row("AAPL", 102.0, ChangeCell(Up, fmt(2.0)), 2.0)], map["AAPL" := long], ["ZZZZINVALID"])
  {
    var symbols, responses := ["AAPL", "ZZZZINVALID"], [Fetched([100.0, 102.0], long), Fetched([], [])];
    var outs := Outcomes(symbols, responses, fmt);
    assert Derive([100.0, 102.0]) == Quote(102.0, 100.0, 2.0, 2.0, Up);
    assert outs[0] == Accepted(Row("AAPL", 102.0, ChangeCell(Up, fmt(2.0)), 2.0), long);
    assert outs[1] == Rejected;
    assert symbols[..1][..0] == [] && outs[..1][..0] == [];
    assert symbols[..1] == ["AAPL"] && outs[..1] == [outs[0]];
    var first := Collect(["AAPL"], [outs[0]]);
    assert ["AAPL"][..0] == [] && [outs[0]][..0] == [];
    assert first == Record(Collect([], []), "AAPL", outs[0]);
    assert [] + [outs[0].row] == [outs[0].row];
    assert first == Snapshot([outs[0].row], map["AAPL" := long], []);
    assert Collect(symbols, outs) == Record(first, "ZZZZINVALID", Rejected);
  }
}
