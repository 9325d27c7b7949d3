# Stock dashboard refresh, modelled in Dafny

The dashboard is a Streamlit page. On every refresh it does four things:

- It reads a comma-separated list of ticker symbols from the sidebar.
- It asks the market-data provider for each symbol's two-day and 30-day close prices.
- It builds one table row per symbol that answered: price, change with an up/down arrow, and percent change. The symbol's 30-day closes go into a history map under its name.
- It collects the symbols that did not answer into an "invalid" list, then shows a warning, the table, or a "no valid stock data" message.

This project models that refresh logic. Each part follows the form of the code:

- `Symbols` (symbols.dfy): the comprehension that parses the sidebar text, written as functions. It splits on `,`, applies Python's `strip()` and upper-cases each piece. Stripping is defined for any character class `ws`, as Python's `strip(chars)` is; `s.strip()` is `Strip(s, IsSpace)`, where `IsSpace` is the set of code points `str.isspace` accepts.
- `Quotes` (quotes.dfy): the per-symbol arithmetic, written as functions. It covers last and previous close, change, guarded percent change, the arrow, and the row with its Change cell.
- `Aggregation` (aggregation.dfy): the refresh loop, written as the method `Refresh`. Its `for` loop appends to `rows` and `invalid` and writes into the `history` map, with one branch per case in the source. It is proved against `Collect`, a left fold that states what the loop leaves behind. Lemmas relate that fold to reference definitions that read the requests front to back.
- `Display` (display.dfy): `color_change`, and the choice between the warning, the table and the "no valid data" message.

The provider is an input. `responses[i]` is the answer to the i-th request: either `Raised`, meaning an exception anywhere in the `Ticker`/`history` calls, or `Fetched(short, long)`, the close prices of the two series. A duplicate symbol is requested twice, so it can get two different answers. Prices are exact `real`s. The two-decimal rendering of the change is a parameter `fmt: real -> string`.

Behaviour the model follows from the code:

- A failure of the 30-day fetch raises inside the same `try` block as the two-day fetch, before the row is appended. The symbol is then rejected and gets no row (app.py:64-67, 83-84).
- No moving averages are computed anywhere in the code.
- The percent change is relative to the previous close: closes 100 then 102 give +2% (app.py:74; lemma `Aggregation.KnownAndUnknownTicker`).
- The invalid symbols form a list, in request order and with duplicates kept, not a set.
- A duplicate symbol that answers twice gets two rows. Its history is the series from its last accepted request.

## Model

| member | source | states |
|---|---|---|
| `Symbols.IsSpace` | app.py:43 | the whitespace class of `strip()`: space, tab and line breaks are in it; letters, digits and the ticker punctuation `,` `.` `-` `^` `=` are not |
| `Symbols.Split` | app.py:43 | `split(",")` yields one piece per comma plus one (so never zero pieces), no piece holds a comma, and joining the pieces with commas gives back the input |
| `Symbols.SplitJoin` | app.py:43 | splitting a join of comma-free pieces returns exactly those pieces (the inverse direction) |
| `Symbols.TrimStart` | app.py:43 | the result is a suffix of the input, everything cut off is in the class, and it does not start with a character of the class |
| `Symbols.TrimEnd` | app.py:43 | the result is a prefix of the input, everything cut off is in the class, and it does not end with a character of the class |
| `Symbols.Leading` | app.py:43 | the number of leading class characters: all characters before it are in the class, and the one at it (if any) is not |
| `Symbols.Strip` | app.py:43 | stripping returns the part of the input that starts after its leading class characters. Neither end of it is in the class, and only class characters follow it |
| `Symbols.StripExact` | app.py:43 | for any class-only `w1`, `w2` and trimmed `t`, stripping `w1 + t + w2` gives exactly `t` (an independent characterisation of `strip`) |
| `Symbols.StripSplits` | app.py:43 | the input is its leading class characters, then the stripped text, then the rest |
| `Symbols.StripCuts` | app.py:43 | both the part cut off before and the part cut off after the stripped text consist of class characters only |
| `Symbols.StripAddsNothing` | app.py:43 | a character absent from the input is absent from its stripped text |
| `Symbols.StripIdempotent` | app.py:43 | stripping twice is the same as stripping once |
| `Symbols.UpperChar` | app.py:43 | a letter a-z maps to its capital, every other character is unchanged, and whitespace status is kept |
| `Symbols.Upper` | app.py:43 | `upper()` keeps the length, maps each character by `UpperChar`, and leaves no letter a-z |
| `Symbols.UpperIdempotent` | app.py:43 | upper-casing twice is the same as once |
| `Symbols.StripUpperCommute` | app.py:43 | stripping whitespace then upper-casing equals upper-casing then stripping whitespace |
| `Symbols.NormalizeSymbol` | app.py:43 | `s.strip().upper()` is trimmed and free of lower-case letters, and adds no comma |
| `Symbols.NormalizeFixes` | app.py:43 | an already normalized symbol is left unchanged |
| `Symbols.ParseSymbols` | app.py:43 | the symbol list has one entry per comma plus one, in input order. Entry i is piece i stripped and upper-cased, so every entry is normalized and comma-free |
| `Symbols.ParseJoin` | app.py:43 | typing normalized, comma-free symbols separated by commas parses back to exactly those symbols (round trip) |
| `Quotes.ArrowOf` | app.py:75 | up iff the change is positive, down iff negative, no arrow iff zero |
| `Quotes.Glyph` | app.py:75 | the arrow text is empty iff there is no change, holds the up glyph iff the arrow is up, and the down glyph iff it is down |
| `Quotes.PercentChange` | app.py:74 | with a non-zero previous price, percent times previous equals change times 100; with a zero previous price, it is exactly 0 |
| `Quotes.PercentSign` | app.py:74 | with a positive previous price, the percent change has the sign of the change |
| `Quotes.Derive` | app.py:71-75 | price is the last close, and previous is the close before it. With one close, previous equals price, change and percent are 0, and there is no arrow. Price = previous + change, and price·100 = previous·(100 + percent) when previous ≠ 0. The arrow is up or down exactly when price is above or below previous |
| `Quotes.ChangeCell` | app.py:79 | the Change cell is the arrow glyph (none for no change), a space, then the rendered amount. For a glyph-free amount, the cell holds a glyph exactly when the arrow is that glyph's |
| `Aggregation.Assess` | app.py:64-82 | a symbol is rejected iff a fetch raised or its two-day series is empty. Otherwise it gets the row of app.py:76-81: the row names it, shows the last two-day close, and its history is the 30-day series. Its percent change is the guarded percent change of the last two closes, and its Change cell is the arrow and the rendered change of that quote |
| `Aggregation.Record` | app.py:64-84 | one loop iteration adds exactly one entry to the two lists. A rejected symbol is appended to the invalid list and nothing else changes. An accepted one appends its row and (over)writes its history, and the invalid list is unchanged |
| `Aggregation.Collect` | app.py:63-84 | the loop as a fold over the requests in order. Every history key and every invalid-list entry is a requested symbol |
| `Aggregation.Refresh` | app.py:59-84 | the loop's three results are the fold `Aggregate` of the requests. Rows plus invalid symbols number the requests, the rows are the accepted ones in order, and the invalid list is the rejected symbols in order |
| `Aggregation.CollectRows` | app.py:63-81 | the table is the rows of the accepted requests, in request order, duplicates kept |
| `Aggregation.CollectInvalid` | app.py:63-84 | the invalid list is the symbols of the rejected requests, in request order, duplicates kept |
| `Aggregation.CollectPartition` | app.py:63-84 | the row count plus the invalid count equals the number of requested symbols |
| `Aggregation.CollectHistoryKeys` | app.py:76-82 | the history map's keys are exactly the symbols that got a row |
| `Aggregation.CollectHistoryLatest` | app.py:82 | a symbol's history is the 30-day series of its last accepted request; a later duplicate overwrites an earlier one |
| `Aggregation.NoHistoryWithoutRow` | app.py:68-70 | a symbol rejected on every request has no history entry |
| `Aggregation.NoRowsIff` | app.py:89-91 | the table is empty iff every request was rejected |
| `Aggregation.SomeInvalidIff` | app.py:86-87 | the invalid list is non-empty iff some request was rejected |
| `Aggregation.SingleCloseIsFlat` | app.py:72-75 | a one-close two-day series gives a row with change 0, percent 0 and no arrow |
| `Aggregation.KnownAndUnknownTicker` | app.py:63-84 | AAPL with closes 100, 102 gives one row: price 102, up 2, +2%, with its history. An empty answer sends ZZZZINVALID to the invalid list |
| `Display.ColorChange` | app.py:93-100 | `color_change` is green iff the text holds the up glyph. It is red iff it holds the down glyph but not the up one, and white iff it holds neither |
| `Display.ChangeCellColor` | app.py:93-100 | a Change cell whose amount holds no glyph is coloured by its arrow: up green, down red, none white |
| `Display.RowColor` | app.py:93-100 | an accepted row's Change cell is green iff the last close is above the previous, red iff below, and white iff equal |
| `Display.Render` | app.py:86-91 | the warning is shown iff the invalid list is non-empty, and it lists exactly that list. The "no valid data" message is shown iff there are no rows; otherwise the table shows the rows and the history |
| `Display.Dashboard` | app.py:43-144 | the page of one refresh from the sidebar text. The warning lists the rejected symbols in request order, if there are any. The table holds the accepted rows in request order, if there are any; otherwise the "no valid data" message is shown |
| `Display.RefreshScreen` | app.py:86-91 | the "no valid stock data" message is shown iff every request was rejected, whatever their number. The invalid-symbol warning is shown iff some request was rejected |
| `Display.NoDataIsExplained` | app.py:143-144 | since the sidebar text always names at least one symbol, the "no valid data" page always also carries the invalid-symbol warning |

## Left out

- The yfinance calls (app.py:65-67) are a network client. They are replaced by the `responses` input, one answer per request.
- `Aggregation.Refresh`: if the history write at app.py:82 raised after the row was appended, the symbol would be in both lists. The model assumes that write never raises, so `Fetch` has no such outcome.
- `Symbols.UpperChar`: maps only the letters a-z to capitals. Other Unicode case mappings of `str.upper()` are not modelled. Ticker symbols are ASCII.
- `Symbols.Upper`: models `str.upper()` only on the letters a-z, so it always keeps the length. Some Unicode case mappings change the length, and they are not modelled.
- The two-decimal rendering `{change:.2f}` and `{:.2f}%`, and float rounding. Prices are exact reals, the rendering of the change is the parameter `fmt`, and NaN and infinities are not modelled.
- `Aggregation.Collect`: `historical_data` is a dict, and the charts iterate it in insertion order (app.py:131, 137). A duplicate's overwrite keeps its first position. The model's `map` has no order, so this order is not modelled. Only the charts, which are left out, depend on it.
- The CSV export (app.py:110-119). It is pandas serialisation of the same rows.
- Page configuration, CSS, sidebar widgets, the auto-refresh timer, the background gradient on the percent column, and all charts (app.py:1-42, 45-56, 102-108, 121-138). These are presentation only.
- The wording of the two warnings. The model records only which warning is shown and the invalid symbols it lists.
- The "last updated" timestamp (app.py:141). It reads the clock.
- dashboard.py is not part of this model. It is a single provider download and a chart, with no logic of its own.
