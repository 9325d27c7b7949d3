/** Parsing of the sidebar's comma-separated symbol list (app.py line 43):
    the text is split on ',', and every piece is stripped of surrounding
    whitespace and upper-cased. */
module Symbols {

  /** The code points Python's `str.isspace` accepts, which are the ones
      `str.strip()` removes when called without arguments. The space, tab
      and line breaks are among them; the letters, digits and the
      punctuation of ticker symbols (`,` `.` `-` `^` `=`) are not. */
  predicate IsSpace(c: char): (b: bool)
    ensures c == ' ' || c == '\t' || c == '\n' || c == '\r' ==> b
    ensures ('0' <= c <= '9' || 'A' <= c <= 'Z' || 'a' <= c <= 'z') ==> !b
    ensures c == ',' || c == '.' || c == '-' || c == '^' || c == '=' ==> !b
  {
    || ('\t' <= c <= '\r')
    || ('\U{1C}' <= c <= ' ')
    || c == '\U{85}' || c == '\U{A0}' || c == '\U{1680}'
    || ('\U{2000}' <= c <= '\U{200A}')
    || c == '\U{2028}' || c == '\U{2029}' || c == '\U{202F}'
    || c == '\U{205F}' || c == '\U{3000}'
  }

  /** Every character of `s` is in the class `ws`. */
  predicate AllIn(s: string, ws: char -> bool) {
    forall i :: 0 <= i < |s| ==> ws(s[i])
  }

  /** Neither end of `s` is in the class `ws`: what stripping `ws` leaves behind. */
  predicate Trimmed(s: string, ws: char -> bool) {
    s == [] || (!ws(s[0]) && !ws(s[|s| - 1]))
  }

  predicate IsLower(c: char) {
    'a' <= c <= 'z'
  }

  /** A symbol as the dashboard looks it up: free of surrounding whitespace
      and of lower-case letters. */
  predicate Normalized(s: string) {
    Trimmed(s, IsSpace) && forall i :: 0 <= i < |s| ==> !IsLower(s[i])
  }

  // ---------------------------------------------------------------------
  // str.split(sep) and its inverse, str.join

  /** How many times `c` occurs in `s`. */
  function Occurrences(s: string, c: char): nat {
    if s == [] then 0 else (if s[0] == c then 1 else 0) + Occurrences(s[1..], c)
  }

  /** `sep.join(pieces)`. */
  function Join(pieces: seq<string>, sep: char): string {
    if pieces == [] then []
    else if |pieces| == 1 then pieces[0]
    else pieces[0] + [sep] + Join(pieces[1..], sep)
  }

  /** Prepending a character to the first piece prepends it to the join. */
  lemma JoinConsFirst(c: char, pieces: seq<string>, sep: char)
    requires pieces != []
    ensures Join([[c] + pieces[0]] + pieces[1..], sep) == [c] + Join(pieces, sep)
  {
    var q := [[c] + pieces[0]] + pieces[1..];
    assert q[1..] == pieces[1..];
  }

  /** `s.split(sep)`: one piece per separator plus one, empty pieces kept,
      and joining the pieces again gives back `s`. */
  function Split(s: string, sep: char): (pieces: seq<string>)
    ensures |pieces| == Occurrences(s, sep) + 1
    ensures forall i :: 0 <= i < |pieces| ==> sep !in pieces[i]
    ensures Join(pieces, sep) == s
    decreases |s|
  {
    if s == [] then [[]]
    else
      var rest := Split(s[1..], sep);
      assert s == [s[0]] + s[1..];
      if s[0] == sep then
        var r := [[]] + rest;
        assert r[1..] == rest;
        r
      else
        JoinConsFirst(s[0], rest, sep);
        var r := [[s[0]] + rest[0]] + rest[1..];
        assert forall i :: 1 <= i < |r| ==> r[i] == rest[i];
        r
  }

  lemma {:induction false} SplitWithoutSeparator(p: string, sep: char)
    requires sep !in p
    ensures Split(p, sep) == [p]
    decreases |p|
  {
    if p != [] {
      SplitWithoutSeparator(p[1..], sep);
    }
  }

  lemma {:induction false} SplitAtSeparator(p: string, t: string, sep: char)
    requires sep !in p
    ensures Split(p + [sep] + t, sep) == [p] + Split(t, sep)
    decreases |p|
  {
    var s := p + [sep] + t;
    if p == [] {
      assert s[1..] == t;
    } else {
      assert s[1..] == p[1..] + [sep] + t;
      SplitAtSeparator(p[1..], t, sep);
      assert [p[0]] + p[1..] == p;
    }
  }

  /** Splitting a join gives the pieces back, provided none of them holds
      the separator (there is always at least one piece). */
  lemma {:induction false} SplitJoin(pieces: seq<string>, sep: char)
    requires pieces != []
    requires forall i :: 0 <= i < |pieces| ==> sep !in pieces[i]
    ensures Split(Join(pieces, sep), sep) == pieces
    decreases |pieces|
  {
    if |pieces| == 1 {
      SplitWithoutSeparator(pieces[0], sep);
    } else {
      SplitJoin(pieces[1..], sep);
      SplitAtSeparator(pieces[0], Join(pieces[1..], sep), sep);
      assert [pieces[0]] + pieces[1..] == pieces;
    }
  }

  // ---------------------------------------------------------------------
  // str.strip(), for any class of characters to strip; `s.strip()` strips
  // the class IsSpace

  function TrimStart(s: string, ws: char -> bool): (r: string)
    ensures |r| <= |s| && r == s[|s| - |r|..]
    ensures forall i :: 0 <= i < |s| - |r| ==> ws(s[i])
    ensures r == [] || !ws(r[0])
    decreases |s|
  {
    if s != [] && ws(s[0]) then TrimStart(s[1..], ws) else s
  }

  function TrimEnd(s: string, ws: char -> bool): (r: string)
    ensures |r| <= |s| && r == s[..|r|]
    ensures forall i :: |r| <= i < |s| ==> ws(s[i])
    ensures r == [] || !ws(r[|r| - 1])
    decreases |s|
  {
    if s != [] && ws(s[|s| - 1]) then TrimEnd(s[..|s| - 1], ws) else s
  }

  /** How many characters of the class `ws` the text `s` starts with. */
  function Leading(s: string, ws: char -> bool): (n: nat)
    ensures n <= |s|
    ensures forall i :: 0 <= i < n ==> ws(s[i])
    ensures n == |s| || !ws(s[n])
  {
    |s| - |TrimStart(s, ws)|
  }

  /** `s.strip(ws)`: the part of `s` after its leading `ws` characters whose
      ends are not in `ws`, with only `ws` characters cut away after it. */
  function Strip(s: string, ws: char -> bool): (r: string)
    ensures Trimmed(r, ws)
    ensures Leading(s, ws) + |r| <= |s|
    ensures r == s[Leading(s, ws)..Leading(s, ws) + |r|]
    ensures forall i :: Leading(s, ws) + |r| <= i < |s| ==> ws(s[i])
  {
    TrimEnd(TrimStart(s, ws), ws)
  }

  lemma {:induction false} TrimStartSkips(w: string, u: string, ws: char -> bool)
    requires AllIn(w, ws)
    requires u == [] || !ws(u[0])
    ensures TrimStart(w + u, ws) == u
    decreases |w|
  {
    if w != [] {
      assert (w + u)[1..] == w[1..] + u;
      TrimStartSkips(w[1..], u, ws);
    }
  }

  lemma {:induction false} TrimEndSkips(u: string, w: string, ws: char -> bool)
    requires AllIn(w, ws)
    requires u == [] || !ws(u[|u| - 1])
    ensures TrimEnd(u + w, ws) == u
    decreases |w|
  {
    if w != [] {
      assert (u + w)[..|u + w| - 1] == u + w[..|w| - 1];
      TrimEndSkips(u, w[..|w| - 1], ws);
    }
  }

  /** The `ws` characters around a trimmed text are exactly what stripping removes. */
  lemma StripExact(w1: string, t: string, w2: string, ws: char -> bool)
    requires AllIn(w1, ws) && AllIn(w2, ws) && Trimmed(t, ws)
    ensures Strip(w1 + t + w2, ws) == t
  {
    if t == [] {
      assert w1 + t + w2 == (w1 + w2) + [];
      TrimStartSkips(w1 + w2, [], ws);
    } else {
      assert w1 + t + w2 == w1 + (t + w2);
      TrimStartSkips(w1, t + w2, ws);
      TrimEndSkips(t, w2, ws);
    }
  }

  lemma StripIdempotent(s: string, ws: char -> bool)
    ensures Strip(Strip(s, ws), ws) == Strip(s, ws)
  {
    StripExact([], Strip(s, ws), [], ws);
    assert [] + Strip(s, ws) + [] == Strip(s, ws);
  }

  lemma SliceKeepsOut(s: string, a: nat, b: nat, c: char)
    requires a <= b <= |s|
    ensures c !in s ==> c !in s[a..b]
  {
    if c in s[a..b] {
      var i :| 0 <= i < b - a && s[a..b][i] == c;
      assert s[a + i] == c;
    }
  }

  /** A text is its leading `ws` characters, its stripped part, and the
      rest. */
  lemma StripSplits(s: string, ws: char -> bool)
    ensures var a, t := Leading(s, ws), Strip(s, ws);
            s == s[..a] + t + s[a + |t|..]
  {
    var a, t := Leading(s, ws), Strip(s, ws);
    var b := a + |t|;
    assert b <= |s| && t == s[a..b];
    var u := s[..a] + t + s[b..];
    assert |u| == |s|;
    forall i | 0 <= i < |s| ensures u[i] == s[i] {
      if i < a { assert u[i] == s[..a][i]; }
      else if i < b { assert u[i] == t[i - a]; }
      else { assert u[i] == s[b..][i - b]; }
    }
    assert u == s;
  }

  /** What stripping cuts away on either side is all `ws` characters. */
  lemma StripCuts(s: string, ws: char -> bool)
    ensures var a, t := Leading(s, ws), Strip(s, ws);
            AllIn(s[..a], ws) && AllIn(s[a + |t|..], ws)
  {
    var a, t := Leading(s, ws), Strip(s, ws);
    var b := a + |t|;
    forall i | 0 <= i < |s| - b ensures ws(s[b..][i]) {
      assert s[b..][i] == s[b + i];
    }
  }

  lemma StripAddsNothing(s: string, c: char, ws: char -> bool)
    ensures c !in s ==> c !in Strip(s, ws)
  {
    var t, a := Strip(s, ws), Leading(s, ws);
    SliceKeepsOut(s, a, a + |t|, c);
  }

  // ---------------------------------------------------------------------
  // str.upper(), on the letters a-z

  function UpperChar(c: char): (u: char)
    ensures !IsLower(u)
    ensures IsLower(c) ==> 'A' <= u <= 'Z' && u as int - 'A' as int == c as int - 'a' as int
    ensures !IsLower(c) ==> u == c
    ensures IsSpace(u) <==> IsSpace(c)
  {
    if IsLower(c) then (c as int - 'a' as int + 'A' as int) as char else c
  }

  /** `s.upper()`: the same length, every letter a-z replaced by its capital. */
  function Upper(s: string): (r: string)
    ensures |r| == |s|
    ensures forall i :: 0 <= i < |s| ==> r[i] == UpperChar(s[i])
    ensures forall i :: 0 <= i < |r| ==> !IsLower(r[i])
  {
    seq(|s|, i requires 0 <= i < |s| => UpperChar(s[i]))
  }

  lemma UpperIdempotent(s: string)
    ensures Upper(Upper(s)) == Upper(s)
  {
  }

  lemma UpperAppend(a: string, b: string)
    ensures Upper(a + b) == Upper(a) + Upper(b)
  {
  }

  lemma UpperKeepsSpace(w: string)
    requires AllIn(w, IsSpace)
    ensures AllIn(Upper(w), IsSpace)
  {
    forall i | 0 <= i < |w| ensures IsSpace(Upper(w)[i]) {
      assert IsSpace(w[i]);
    }
  }

  lemma UpperKeepsTrimmed(t: string)
    requires Trimmed(t, IsSpace)
    ensures Trimmed(Upper(t), IsSpace)
  {
    if t != [] {
      assert Upper(t)[0] == UpperChar(t[0]);
      assert Upper(t)[|t| - 1] == UpperChar(t[|t| - 1]);
    }
  }

  lemma UpperAddsNoComma(s: string)
    ensures ',' !in s ==> ',' !in Upper(s)
  {
    var u := Upper(s);
    if ',' !in s {
      forall i | 0 <= i < |s| ensures u[i] != ',' {
        assert s[i] != ',';
      }
    }
  }

  /** Stripping whitespace and upper-casing commute, so the order the
      dashboard applies them in does not matter. */
  lemma StripUpperCommute(s: string)
    ensures Strip(Upper(s), IsSpace) == Upper(Strip(s, IsSpace))
  {
    var t := Strip(s, IsSpace);
    var a := Leading(s, IsSpace);
    var w1, w2 := s[..a], s[a + |t|..];
    StripSplits(s, IsSpace);
    StripCuts(s, IsSpace);
    UpperAppend(w1, t);
    UpperAppend(w1 + t, w2);
    UpperKeepsSpace(w1);
    UpperKeepsSpace(w2);
    UpperKeepsTrimmed(t);
    StripExact(Upper(w1), Upper(t), Upper(w2), IsSpace);
  }

  // ---------------------------------------------------------------------
  // The comprehension `[s.strip().upper() for s in stocks_input.split(",")]`

  function NormalizeSymbol(piece: string): (r: string)
    ensures Normalized(r)
    ensures ',' !in piece ==> ',' !in r
  {
    var t := Strip(piece, IsSpace);
    UpperKeepsTrimmed(t);
    StripAddsNothing(piece, ',', IsSpace);
    UpperAddsNoComma(t);
    Upper(t)
  }

  /** The symbols the dashboard requests: one per comma-separated piece, in
      input order, so there is always at least one (an empty input gives the
      single symbol ""). */
  function ParseSymbols(input: string): (symbols: seq<string>)
    ensures |symbols| == Occurrences(input, ',') + 1
    ensures forall i :: 0 <= i < |symbols| ==> symbols[i] == NormalizeSymbol(Split(input, ',')[i])
    ensures forall i :: 0 <= i < |symbols| ==> Normalized(symbols[i]) && ',' !in symbols[i]
  {
    var pieces := Split(input, ',');
    seq(|pieces|, i requires 0 <= i < |pieces| => NormalizeSymbol(pieces[i]))
  }

  lemma NormalizeFixes(s: string)
    requires Normalized(s)
    ensures NormalizeSymbol(s) == s
  {
    StripExact([], s, [], IsSpace);
    assert [] + s + [] == s;
    var u := Upper(s);
    forall i | 0 <= i < |s| ensures u[i] == s[i] {
      assert !IsLower(s[i]);
    }
  }

  /** Typing already-normalized symbols separated by commas gives exactly
      those symbols back. */
  lemma ParseJoin(symbols: seq<string>)
    requires symbols != []
    requires forall i :: 0 <= i < |symbols| ==> Normalized(symbols[i]) && ',' !in symbols[i]
    ensures ParseSymbols(Join(symbols, ',')) == symbols
  {
    SplitJoin(symbols, ',');
    var r := ParseSymbols(Join(symbols, ','));
    forall i | 0 <= i < |symbols| ensures r[i] == symbols[i] {
      NormalizeFixes(symbols[i]);
    }
  }
}
