/** The CSV tokenizer of `CsvSerializer.ParseCsv`: a single left-to-right scan
    with one character of lookahead that turns text into rows of fields.

    `Scan` is the reference definition (one `Step` at the head of the remaining
    text, then the rest); `ParseCsv` is the source's indexed loop, proved equal
    to it. The lemmas below say what the scan does with the inputs that matter:
    plain fields, quoted fields with either escape style, line breaks, trailing
    separators and a quote in the middle of a field. */
module CsvScanner {

  /** One parsed row: its fields in column order. */
  type Row = seq<string>

  /** The separator; `Deserialize` always uses the default of `ParseCsv`. */
  const Separator: char := ','

  predicate IsLineBreak(c: char) {
    c == '\r' || c == '\n'
  }

  /** The scan state between two characters: the rows emitted so far, the
      fields of the current row, the field being accumulated and whether a
      quoted field is open. */
  datatype Scanner = Scanner(rows: seq<Row>, line: Row, token: string, quotes: bool)

  const Start: Scanner := Scanner([], [], [], false)

  /** The effect of one iteration: how many characters it consumed and the
      state after it. */
  datatype Advance = Advance(consumed: nat, next: Scanner)

  /** Ending a row (a line break outside quotes, or the end of the text): the
      pending field is kept only if it is non-empty, and the row is emitted only
      if it has a field. */
  function EndRow(st: Scanner): (r: Scanner)
    ensures r.line == [] && r.token == [] && r.quotes == st.quotes
    ensures st.rows <= r.rows && |r.rows| <= |st.rows| + 1
    ensures |r.rows| == |st.rows| + 1 <==> st.line != [] || st.token != []
    ensures |r.rows| == |st.rows| + 1 ==>
              r.rows[|st.rows|] == st.line + (if st.token == [] then [] else [st.token])
  {
    var line := if |st.token| > 0 then st.line + [st.token] else st.line;
    Scanner(if |line| > 0 then st.rows + [line] else st.rows, [], [], st.quotes)
  }

  /** One iteration of the scan at the head of `s`. */
  function Step(s: string, st: Scanner): (a: Advance)
    requires |s| > 0
    ensures 1 <= a.consumed <= |s| && a.consumed <= 2
  {
    if st.quotes then
      if |s| > 1 && (s[0] == '\\' || s[0] == '"') && s[1] == '"' then
        Advance(2, st.(token := st.token + ['"']))
      else if |s| > 1 && s[0] == '\\' && s[1] == 'n' then
        Advance(2, st.(token := st.token + ['\n']))
      else if s[0] == '"' then
        Advance(if |s| > 1 && s[1] == Separator then 2 else 1,
                st.(line := st.line + [st.token], token := [], quotes := false))
      else
        Advance(1, st.(token := st.token + [s[0]]))
    else if IsLineBreak(s[0]) then
      Advance(1, EndRow(st))
    else if s[0] == Separator then
      Advance(1, st.(line := st.line + [st.token], token := []))
    else if s[0] == '"' then
      Advance(1, st.(quotes := true))
    else
      Advance(1, st.(token := st.token + [s[0]]))
  }

  predicate NonEmptyRows(rows: seq<Row>) {
    forall i :: 0 <= i < |rows| ==> |rows[i]| > 0
  }

  /** The rows obtained by scanning `s` from state `st` and then flushing.
      Rows already emitted are kept, in order, and no empty row is ever added. */
  function Scan(s: string, st: Scanner): (rows: seq<Row>)
    ensures st.rows <= rows
    ensures NonEmptyRows(st.rows) ==> NonEmptyRows(rows)
    decreases |s|
  {
    if s == [] then EndRow(st).rows
    else
      var a := Step(s, st);
      Scan(s[a.consumed..], a.next)
  }

  /** The rows of `text`. */
  function Parse(text: string): (rows: seq<Row>)
    ensures NonEmptyRows(rows)
  {
    Scan(text, Start)
  }

  /** `ParseCsv` (with its default separator): the source's loop on index `i`,
      which advances `i` a second time after a two-character escape and after
      a closing quote followed by the separator. */
  method ParseCsv(text: string) returns (lines: seq<Row>)
    ensures lines == Parse(text)
  {
    lines := [];
    var line: Row := [];
    var token: string := [];
    var quotes := false;
    var i := 0;
    while i < |text|
      invariant 0 <= i <= |text|
      invariant Scan(text[i..], Scanner(lines, line, token, quotes)) == Parse(text)
    {
      ghost var i0, a := i, Step(text[i..], Scanner(lines, line, token, quotes));
      assert text[i..][a.consumed..] == text[i + a.consumed..];
      assert Scan(text[i + a.consumed..], a.next) == Parse(text);
      if quotes {
        if (text[i] == '\\' && i + 1 < |text| && text[i + 1] == '"') ||
           (text[i] == '"' && i + 1 < |text| && text[i + 1] == '"') {
          token := token + ['"'];
          i := i + 1;
        } else if text[i] == '\\' && i + 1 < |text| && text[i + 1] == 'n' {
          token := token + ['\n'];
          i := i + 1;
        } else if text[i] == '"' {
          line := line + [token];
          token := [];
          quotes := false;
          if i + 1 < |text| && text[i + 1] == Separator {
            i := i + 1;
          }
        } else {
          token := token + [text[i]];
        }
      } else if text[i] == '\r' || text[i] == '\n' {
        if |token| > 0 {
          line := line + [token];
          token := [];
        }
        if |line| > 0 {
          lines := lines + [line];
          line := [];
        }
      } else if text[i] == Separator {
        line := line + [token];
        token := [];
      } else if text[i] == '"' {
        quotes := true;
      } else {
        token := token + [text[i]];
      }
      i := i + 1;
      assert i == i0 + a.consumed && Scanner(lines, line, token, quotes) == a.next;
    }
    if |token| > 0 {
      line := line + [token];
    }
    if |line| > 0 {
      lines := lines + [line];
    }
  }

  // ---------------------------------------------------------------------------
  // Plain fields: no separator, quote or line break.

  predicate PlainChar(c: char) {
    c != Separator && c != '"' && !IsLineBreak(c)
  }

  predicate PlainField(f: string) {
    forall i :: 0 <= i < |f| ==> PlainChar(f[i])
  }

  predicate PlainRow(r: Row) {
    forall i :: 0 <= i < |r| ==> PlainField(r[i])
  }

  /** A row written with separators and no quoting. */
  function JoinRow(r: Row): string {
    if r == [] then []
    else if |r| == 1 then r[0]
    else r[0] + [Separator] + JoinRow(r[1..])
  }

  /** Rows written one after the other, each followed by the line break `eol`. */
  function JoinRows(rows: seq<Row>, eol: string): string {
    if rows == [] then [] else JoinRow(rows[0]) + eol + JoinRows(rows[1..], eol)
  }

  /** What one character does outside quotes. */
  lemma ScanUnquoted(s: string, st: Scanner)
    requires |s| > 0 && !st.quotes
    ensures IsLineBreak(s[0]) ==> Scan(s, st) == Scan(s[1..], EndRow(st))
    ensures s[0] == Separator ==>
              Scan(s, st) == Scan(s[1..], st.(line := st.line + [st.token], token := []))
    ensures s[0] == '"' ==> Scan(s, st) == Scan(s[1..], st.(quotes := true))
    ensures PlainChar(s[0]) ==> Scan(s, st) == Scan(s[1..], st.(token := st.token + [s[0]]))
  {
  }

  /** What one character, or an escape pair, does inside quotes. */
  lemma ScanQuoted(s: string, st: Scanner)
    requires |s| > 0 && st.quotes
    ensures |s| > 1 && (s[0] == '\\' || s[0] == '"') && s[1] == '"' ==>
              Scan(s, st) == Scan(s[2..], st.(token := st.token + ['"']))
    ensures |s| > 1 && s[0] == '\\' && s[1] == 'n' ==>
              Scan(s, st) == Scan(s[2..], st.(token := st.token + ['\n']))
    ensures s[0] == '"' && (|s| == 1 || s[1] != '"') ==>
              Scan(s, st) ==
              Scan(if |s| > 1 && s[1] == Separator then s[2..] else s[1..],
                   st.(line := st.line + [st.token], token := [], quotes := false))
    ensures s[0] != '"' && s[0] != '\\' ==>
              Scan(s, st) == Scan(s[1..], st.(token := st.token + [s[0]]))
    ensures s[0] == '\\' && !(|s| > 1 && (s[1] == '"' || s[1] == 'n')) ==>
              Scan(s, st) == Scan(s[1..], st.(token := st.token + ['\\']))
  {
  }

  /** Outside quotes, plain characters only accumulate in the pending field. */
  lemma {:induction false} ScanPlainField(f: string, rest: string, st: Scanner)
    requires PlainField(f) && !st.quotes
    ensures Scan(f + rest, st) == Scan(rest, st.(token := st.token + f))
    decreases |f|
  {
    if f == [] {
      assert f + rest == rest;
      assert st.(token := st.token + f) == st;
    } else {
      assert (f + rest)[0] == f[0];
      assert (f + rest)[1..] == f[1..] + rest;
      assert PlainChar(f[0]);
      ScanUnquoted(f + rest, st);
      assert PlainField(f[1..]) by {
        forall i | 0 <= i < |f[1..]| ensures PlainChar(f[1..][i]) {
          assert f[1..][i] == f[i + 1];
        }
      }
      ScanPlainField(f[1..], rest, st.(token := st.token + [f[0]]));
      assert st.token + [f[0]] + f[1..] == st.token + f;
    }
  }

  /** A plain row followed by anything: every field but the last is appended
      at its separator, the last one is left pending. */
  lemma {:induction false} ScanPlainRow(r: Row, rest: string, st: Scanner)
    requires |r| > 0 && PlainRow(r)
    requires !st.quotes && st.token == []
    ensures Scan(JoinRow(r) + rest, st) ==
            Scan(rest, st.(line := st.line + r[..|r| - 1], token := r[|r| - 1]))
    decreases |r|
  {
    assert PlainField(r[0]);
    if |r| == 1 {
      calc {
        Scan(JoinRow(r) + rest, st);
        { assert JoinRow(r) == r[0]; }
        Scan(r[0] + rest, st);
        { ScanPlainField(r[0], rest, st); }
        Scan(rest, st.(token := st.token + r[0]));
        { assert st.token + r[0] == r[0]; assert st.line + r[..0] == st.line; }
        Scan(rest, st.(line := st.line + r[..|r| - 1], token := r[|r| - 1]));
      }
    } else {
      var tail := [Separator] + (JoinRow(r[1..]) + rest);
      var st1 := st.(token := r[0]);
      var st2 := st.(line := st.line + [r[0]], token := []);
      assert PlainRow(r[1..]) by {
        forall i | 0 <= i < |r[1..]| ensures PlainField(r[1..][i]) {
          assert r[1..][i] == r[i + 1];
        }
      }
      calc {
        Scan(JoinRow(r) + rest, st);
        { assert JoinRow(r) + rest == r[0] + tail; }
        Scan(r[0] + tail, st);
        { ScanPlainField(r[0], tail, st); assert st.token + r[0] == r[0]; }
        Scan(tail, st1);
        { assert tail[0] == Separator && tail[1..] == JoinRow(r[1..]) + rest;
          ScanUnquoted(tail, st1); }
        Scan(JoinRow(r[1..]) + rest, st2);
        { ScanPlainRow(r[1..], rest, st2); }
        Scan(rest, st2.(line := st2.line + r[1..][..|r[1..]| - 1], token := r[1..][|r[1..]| - 1]));
        { assert st.line + [r[0]] + r[1..][..|r[1..]| - 1] == st.line + r[..|r| - 1];
          assert r[1..][|r[1..]| - 1] == r[|r| - 1]; }
        Scan(rest, st.(line := st.line + r[..|r| - 1], token := r[|r| - 1]));
      }
    }
  }

  predicate AllLineBreaks(eol: string) {
    forall i :: 0 <= i < |eol| ==> IsLineBreak(eol[i])
  }

  /** Line breaks between rows, at the start of a row, change nothing: no empty
      row is emitted for them. */
  lemma {:induction false} ScanBlankLines(eol: string, rest: string, st: Scanner)
    requires AllLineBreaks(eol)
    requires st.line == [] && st.token == [] && !st.quotes
    ensures Scan(eol + rest, st) == Scan(rest, st)
    decreases |eol|
  {
    if eol != [] {
      assert (eol + rest)[0] == eol[0];
      assert (eol + rest)[1..] == eol[1..] + rest;
      assert IsLineBreak(eol[0]);
      ScanUnquoted(eol + rest, st);
      assert EndRow(st) == st;
      assert AllLineBreaks(eol[1..]) by {
        forall i | 0 <= i < |eol[1..]| ensures IsLineBreak(eol[1..][i]) {
          assert eol[1..][i] == eol[i + 1];
        }
      }
      ScanBlankLines(eol[1..], rest, st);
    } else {
      assert eol + rest == rest;
    }
  }

  /** Rows whose fields are plain and whose last field is non-empty, written
      with separators and any non-empty run of CR/LF after each row (so CRLF
      and blank lines included), parse back to exactly those rows, in order. */
  lemma {:induction false} PlainRoundTrip(rows: seq<Row>, eol: string)
    requires forall i :: 0 <= i < |rows| ==> |rows[i]| > 0 && PlainRow(rows[i])
    requires forall i :: 0 <= i < |rows| ==> rows[i][|rows[i]| - 1] != []
    requires |eol| > 0 && AllLineBreaks(eol)
    ensures Parse(JoinRows(rows, eol)) == rows
  {
    ScanPlainRows(rows, eol, []);
    assert [] + rows == rows;
  }

  lemma {:induction false} ScanPlainRows(rows: seq<Row>, eol: string, done: seq<Row>)
    requires forall i :: 0 <= i < |rows| ==> |rows[i]| > 0 && PlainRow(rows[i])
    requires forall i :: 0 <= i < |rows| ==> rows[i][|rows[i]| - 1] != []
    requires |eol| > 0 && AllLineBreaks(eol)
    ensures Scan(JoinRows(rows, eol), Scanner(done, [], [], false)) == done + rows
    decreases |rows|
  {
    var st := Scanner(done, [], [], false);
    if rows == [] {
      assert done + rows == done;
      assert EndRow(st) == st;
    } else {
      var r := rows[0];
      var more := JoinRows(rows[1..], eol);
      var tail := eol + more;
      var st1 := st.(line := r[..|r| - 1], token := r[|r| - 1]);
      var st2 := Scanner(done + [r], [], [], false);
      assert AllLineBreaks(eol[1..]) by {
        forall i | 0 <= i < |eol[1..]| ensures IsLineBreak(eol[1..][i]) {
          assert eol[1..][i] == eol[i + 1];
        }
      }
      calc {
        Scan(JoinRows(rows, eol), st);
        { assert JoinRows(rows, eol) == JoinRow(r) + tail; }
        Scan(JoinRow(r) + tail, st);
        { ScanPlainRow(r, tail, st); assert st.line + r[..|r| - 1] == r[..|r| - 1]; }
        Scan(tail, st1);
        { assert tail[0] == eol[0] && IsLineBreak(eol[0]);
          assert tail[1..] == eol[1..] + more;
          ScanUnquoted(tail, st1);
          assert r[..|r| - 1] + [r[|r| - 1]] == r;
          assert EndRow(st1) == st2; }
        Scan(eol[1..] + more, st2);
        { ScanBlankLines(eol[1..], more, st2); }
        Scan(more, st2);
        { ScanPlainRows(rows[1..], eol, done + [r]); }
        done + [r] + rows[1..];
        { assert done + [r] + rows[1..] == done + rows; }
        done + rows;
      }
    }
  }

  /** A separator at the end of the text adds no trailing empty field: the
      row `a,b,` is `["a", "b"]`, unlike section 2 of RFC 4180. */
  lemma {:induction false} TrailingSeparatorDropped(r: Row)
    requires |r| > 0 && PlainRow(r)
    ensures Parse(JoinRow(r) + [Separator]) == [r]
  {
    var st1 := Start.(line := r[..|r| - 1], token := r[|r| - 1]);
    var st2 := Scanner([], r, [], false);
    calc {
      Parse(JoinRow(r) + [Separator]);
      Scan(JoinRow(r) + [Separator], Start);
      { ScanPlainRow(r, [Separator], Start); assert [] + r[..|r| - 1] == r[..|r| - 1]; }
      Scan([Separator], st1);
      { ScanUnquoted([Separator], st1);
        assert [Separator][1..] == [];
        assert r[..|r| - 1] + [r[|r| - 1]] == r; }
      Scan([], st2);
      EndRow(st2).rows;
      [r];
    }
  }

  /** An empty unquoted field between separators is kept, an empty unquoted
      last field is dropped: `a,,b` gives `["a", "", "b"]`, `a,b,` gives
      `["a", "b"]`. */
  lemma SeparatorExamples()
    ensures Parse("a,,b") == [["a", "", "b"]]
    ensures Parse("a,b,") == [["a", "b"]]
  {
    EmptyFieldKept();
    TrailingEmptyFieldDropped();
  }

  lemma EmptyFieldKept()
    ensures Parse("a,,b") == [["a", "", "b"]]
  {
    var r := ["a", "", "b"];
    assert PlainRow(r) by {
      assert r[0] == "a" && r[1] == "" && r[2] == "b";
      assert PlainField("a") && PlainField("") && PlainField("b");
    }
    assert JoinRow(r) == "a,,b" by {
      assert r[1..] == ["", "b"] && r[1..][1..] == ["b"];
      assert JoinRow(["b"]) == "b";
      assert JoinRow(["", "b"]) == "" + [Separator] + "b";
    }
    calc {
      Parse("a,,b");
      { assert "a,,b" == JoinRow(r) + []; }
      Scan(JoinRow(r) + [], Start);
      { ScanPlainRow(r, [], Start);
        assert [] + r[..2] == ["a", ""]; }
      Scan([], Scanner([], ["a", ""], "b", false));
      EndRow(Scanner([], ["a", ""], "b", false)).rows;
      { assert ["a", ""] + ["b"] == ["a", "", "b"]; }
      [["a", "", "b"]];
    }
  }

  lemma TrailingEmptyFieldDropped()
    ensures Parse("a,b,") == [["a", "b"]]
  {
    var r2 := ["a", "b"];
    assert PlainRow(r2) by {
      assert r2[0] == "a" && r2[1] == "b";
      assert PlainField("a") && PlainField("b");
    }
    assert JoinRow(r2) + [Separator] == "a,b," by {
      assert r2[1..] == ["b"];
      assert JoinRow(["b"]) == "b";
    }
    TrailingSeparatorDropped(r2);
  }

  // ---------------------------------------------------------------------------
  // Quoted fields.

  /** The two ways a quoted field can write a quote: doubled, or with a
      backslash (which also writes a newline as the two characters `\n`). */
  datatype QuoteStyle = Doubled | Backslashed

  /** The body of a quoted field holding `f`. */
  function Escape(f: string, style: QuoteStyle): string {
    if f == [] then []
    else
      (if f[0] == '"' then (if style == Doubled then ['"', '"'] else ['\\', '"'])
       else if f[0] == '\n' && style == Backslashed then ['\\', 'n']
       else [f[0]])
      + Escape(f[1..], style)
  }

  /** Inside quotes, an escaped field body and its closing quote decode to the
      field itself: `""` and `\"` give one quote, `\n` a newline, and every
      other character, the separator, CR and LF included, is kept literally.
      The closing quote appends the field, even an empty one, and swallows one
      separator that follows it. */
  lemma {:induction false} ScanQuotedField(f: string, style: QuoteStyle, rest: string, st: Scanner)
    requires st.quotes && '\\' !in f
    requires rest == [] || rest[0] != '"'
    ensures Scan(Escape(f, style) + ['"'] + rest, st) ==
            Scan(if rest != [] && rest[0] == Separator then rest[1..] else rest,
                 st.(line := st.line + [st.token + f], token := [], quotes := false))
    decreases |f|
  {
    var s := Escape(f, style) + ['"'] + rest;
    if f == [] {
      ScanClosingQuote(rest, st);
      assert s == ['"'] + rest;
      assert st.token + f == st.token;
    } else {
      var c := f[0];
      var tail := Escape(f[1..], style) + ['"'] + rest;
      var st1 := st.(token := st.token + [c]);
      assert '\\' !in f[1..];
      calc {
        Scan(s, st);
        { ScanEscapedChar(f, style, rest, st); }
        Scan(tail, st1);
        { ScanQuotedField(f[1..], style, rest, st1); }
        Scan(if rest != [] && rest[0] == Separator then rest[1..] else rest,
             st1.(line := st1.line + [st1.token + f[1..]], token := [], quotes := false));
        { assert st.token + [c] + f[1..] == st.token + f; }
        Scan(if rest != [] && rest[0] == Separator then rest[1..] else rest,
             st.(line := st.line + [st.token + f], token := [], quotes := false));
      }
    }
  }

  /** The closing quote of a field not followed by another quote. */
  lemma ScanClosingQuote(rest: string, st: Scanner)
    requires st.quotes
    requires rest == [] || rest[0] != '"'
    ensures Scan(['"'] + rest, st) ==
            Scan(if rest != [] && rest[0] == Separator then rest[1..] else rest,
                 st.(line := st.line + [st.token], token := [], quotes := false))
  {
    var s := ['"'] + rest;
    assert s[0] == '"' && (|s| == 1 || s[1] != '"');
    assert s[1..] == rest;
    assert rest != [] ==> s[1] == rest[0] && s[2..] == rest[1..];
    ScanQuoted(s, st);
  }

  /** Inside quotes, the escaped first character of a backslash-free field
      decodes to that character. */
  lemma ScanEscapedChar(f: string, style: QuoteStyle, rest: string, st: Scanner)
    requires st.quotes && f != [] && f[0] != '\\'
    ensures Scan(Escape(f, style) + ['"'] + rest, st) ==
            Scan(Escape(f[1..], style) + ['"'] + rest, st.(token := st.token + [f[0]]))
  {
    var c := f[0];
    var s := Escape(f, style) + ['"'] + rest;
    var tail := Escape(f[1..], style) + ['"'] + rest;
    if c == '"' {
      assert s == (if style == Doubled then ['"', '"'] else ['\\', '"']) + tail;
      ScanEscapedPair(if style == Doubled then '"' else '\\', '"', tail, st);
    } else if c == '\n' && style == Backslashed {
      assert s == ['\\', 'n'] + tail;
      ScanEscapedPair('\\', 'n', tail, st);
    } else {
      assert s == [c] + tail;
      ScanLiteral(c, tail, st);
    }
  }

  /** Inside quotes, `""`, `\"` and `\n` decode to one character. */
  lemma ScanEscapedPair(a: char, b: char, tail: string, st: Scanner)
    requires st.quotes && (a == '"' || a == '\\') && (b == '"' || (a == '\\' && b == 'n'))
    ensures Scan([a, b] + tail, st) == Scan(tail, st.(token := st.token + [if b == 'n' then '\n' else '"']))
  {
    var s := [a, b] + tail;
    assert s[0] == a && s[1] == b && s[2..] == tail;
    ScanQuoted(s, st);
  }

  /** Inside quotes, any other character is kept as it is. */
  lemma ScanLiteral(c: char, tail: string, st: Scanner)
    requires st.quotes && c != '"' && c != '\\'
    ensures Scan([c] + tail, st) == Scan(tail, st.(token := st.token + [c]))
  {
    var s := [c] + tail;
    assert s[0] == c && s[1..] == tail;
    ScanQuoted(s, st);
  }

  /** A field written with quotes. */
  function QuoteField(f: string, style: QuoteStyle): string {
    ['"'] + Escape(f, style) + ['"']
  }

  /** A row written with every field quoted. */
  function EncodeRow(r: Row, style: QuoteStyle): string {
    if r == [] then []
    else if |r| == 1 then QuoteField(r[0], style)
    else QuoteField(r[0], style) + [Separator] + EncodeRow(r[1..], style)
  }

  /** Rows written with every field quoted, each row followed by LF. */
  function Encode(rows: seq<Row>, style: QuoteStyle): string {
    if rows == [] then [] else EncodeRow(rows[0], style) + ['\n'] + Encode(rows[1..], style)
  }

  predicate NoBackslash(r: Row) {
    forall i :: 0 <= i < |r| ==> '\\' !in r[i]
  }

  /** A quoted field at the start of a field, outside quotes: the field is
      appended to the row and one separator after it is swallowed. */
  lemma {:induction false} ScanQuoteField(f: string, style: QuoteStyle, after: string, st: Scanner)
    requires '\\' !in f && !st.quotes && st.token == []
    requires after == [] || after[0] != '"'
    ensures Scan(QuoteField(f, style) + after, st) ==
            Scan(if after != [] && after[0] == Separator then after[1..] else after,
                 st.(line := st.line + [f]))
  {
    var st1 := st.(quotes := true);
    var s := QuoteField(f, style) + after;
    calc {
      Scan(s, st);
      { assert s == ['"'] + (Escape(f, style) + ['"'] + after);
        assert s[0] == '"';
        assert s[1..] == Escape(f, style) + ['"'] + after;
        ScanUnquoted(s, st); }
      Scan(Escape(f, style) + ['"'] + after, st1);
      { ScanQuotedField(f, style, after, st1); assert st1.token + f == f; }
      Scan(if after != [] && after[0] == Separator then after[1..] else after,
           st.(line := st.line + [f]));
    }
  }

  lemma {:induction false} ScanEncodedRow(r: Row, style: QuoteStyle, rest: string, st: Scanner)
    requires |r| > 0 && NoBackslash(r)
    requires !st.quotes && st.token == []
    requires rest == [] || (rest[0] != Separator && rest[0] != '"')
    ensures Scan(EncodeRow(r, style) + rest, st) == Scan(rest, st.(line := st.line + r))
    decreases |r|
  {
    assert '\\' !in r[0];
    var st2 := st.(line := st.line + [r[0]]);
    if |r| == 1 {
      assert EncodeRow(r, style) + rest == QuoteField(r[0], style) + rest;
      ScanQuoteField(r[0], style, rest, st);
      assert st.line + [r[0]] == st.line + r;
    } else {
      var more := EncodeRow(r[1..], style) + rest;
      ScanFirstEncoded(r, style, rest, st);
      assert Scan(more, st2) == Scan(rest, st2.(line := st2.line + r[1..])) by {
        NoBackslashTail(r);
        ScanEncodedRow(r[1..], style, rest, st2);
      }
      assert st.line + [r[0]] + r[1..] == st.line + r;
    }
  }

  /** The first of several quoted fields and the separator after it. */
  lemma ScanFirstEncoded(r: Row, style: QuoteStyle, rest: string, st: Scanner)
    requires |r| > 1 && '\\' !in r[0]
    requires !st.quotes && st.token == []
    ensures Scan(EncodeRow(r, style) + rest, st) ==
            Scan(EncodeRow(r[1..], style) + rest, st.(line := st.line + [r[0]]))
  {
    var more := EncodeRow(r[1..], style) + rest;
    assert EncodeRow(r, style) + rest == QuoteField(r[0], style) + ([Separator] + more);
    ScanQuoteField(r[0], style, [Separator] + more, st);
    assert ([Separator] + more)[1..] == more;
  }

  lemma NoBackslashTail(r: Row)
    requires |r| > 0 && NoBackslash(r)
    ensures NoBackslash(r[1..])
  {
    forall i | 0 <= i < |r[1..]| ensures '\\' !in r[1..][i] {
      assert r[1..][i] == r[i + 1];
    }
  }

  lemma {:induction false} ScanEncoded(rows: seq<Row>, style: QuoteStyle, done: seq<Row>)
    requires forall i :: 0 <= i < |rows| ==> |rows[i]| > 0 && NoBackslash(rows[i])
    ensures Scan(Encode(rows, style), Scanner(done, [], [], false)) == done + rows
    decreases |rows|
  {
    var st := Scanner(done, [], [], false);
    if rows == [] {
      assert done + rows == done;
      assert EndRow(st) == st;
    } else {
      var r := rows[0];
      var more := Encode(rows[1..], style);
      var tail := ['\n'] + more;
      var st2 := Scanner(done + [r], [], [], false);
      calc {
        Scan(Encode(rows, style), st);
        { assert Encode(rows, style) == EncodeRow(r, style) + tail; }
        Scan(EncodeRow(r, style) + tail, st);
        { ScanEncodedRow(r, style, tail, st); assert [] + r == r; }
        Scan(tail, st.(line := r));
        { assert tail[0] == '\n' && tail[1..] == more;
          ScanUnquoted(tail, st.(line := r));
          assert EndRow(st.(line := r)) == st2; }
        Scan(more, st2);
        { ScanEncoded(rows[1..], style, done + [r]); }
        done + [r] + rows[1..];
        { assert done + [r] + rows[1..] == done + rows; }
        done + rows;
      }
    }
  }

  /** Writing rows with every field quoted and parsing the text gives the rows
      back, whatever the fields hold (separators, quotes, CR, LF, empty fields)
      as long as no field holds a backslash, which the scan reads as an escape,
      and no row is empty. */
  lemma {:induction false} EncodeRoundTrip(rows: seq<Row>, style: QuoteStyle)
    requires forall i :: 0 <= i < |rows| ==> |rows[i]| > 0 && NoBackslash(rows[i])
    ensures Parse(Encode(rows, style)) == rows
  {
    ScanEncoded(rows, style, []);
  }

  /** A quote outside quotes only opens quoted mode and keeps what the field
      already holds: `ab"c,d"` is the single field `abc,d`. */
  lemma {:induction false} QuoteInsideField(a: string, b: string)
    requires PlainField(a) && '"' !in b && '\\' !in b
    ensures Parse(a + ['"'] + b + ['"']) == [[a + b]]
  {
    var tail := ['"'] + (b + ['"']);
    var st1 := Start.(token := a);
    var st2 := st1.(quotes := true);
    calc {
      Parse(a + ['"'] + b + ['"']);
      { assert a + ['"'] + b + ['"'] == a + tail; }
      Scan(a + tail, Start);
      { ScanPlainField(a, tail, Start); assert [] + a == a; }
      Scan(tail, st1);
      { assert tail[0] == '"' && tail[1..] == b + ['"'];
        ScanUnquoted(tail, st1); }
      Scan(b + ['"'], st2);
      { EscapeWithoutQuote(b);
        assert b + ['"'] == Escape(b, Doubled) + ['"'] + [];
        ScanQuotedField(b, Doubled, [], st2);
        assert [] + [a + b] == [a + b]; }
      Scan([], Scanner([], [a + b], [], false));
      EndRow(Scanner([], [a + b], [], false)).rows;
      [[a + b]];
    }
  }

  lemma {:induction false} EscapeWithoutQuote(b: string)
    requires '"' !in b && '\\' !in b
    ensures Escape(b, Doubled) == b
  {
    if b != [] {
      assert b == [b[0]] + b[1..];
      assert '"' !in b[1..] && '\\' !in b[1..];
      EscapeWithoutQuote(b[1..]);
    }
  }

  /** A plain first field, a separator and an opening quote. */
  lemma OpenQuoteAfterPlain(a: string, u: string)
    requires PlainField(a)
    ensures Scan(a + ([Separator] + (['"'] + u)), Start) == Scan(u, Scanner([], [a], [], true))
  {
    var tail := [Separator] + (['"'] + u);
    var st1 := Start.(token := a);
    var st2 := Scanner([], [a], [], false);
    calc {
      Scan(a + tail, Start);
      { ScanPlainField(a, tail, Start); assert [] + a == a; }
      Scan(tail, st1);
      { assert tail[0] == Separator && tail[1..] == ['"'] + u;
        ScanUnquoted(tail, st1);
        assert [] + [a] == [a]; }
      Scan(['"'] + u, st2);
      { var t := ['"'] + u;
        assert t[0] == '"' && t[1..] == u;
        ScanUnquoted(t, st2); }
      Scan(u, st2.(quotes := true));
    }
  }

  /** A plain field, a quoted field that may hold separators and line breaks,
      and a plain field: the quoted one comes out whole. */
  lemma {:induction false} QuotedMiddle(a: string, b: string, c: string)
    requires PlainField(a) && PlainField(c) && c != []
    requires '"' !in b && '\\' !in b
    ensures Parse(a + [Separator, '"'] + b + ['"', Separator] + c) == [[a, b, c]]
  {
    var u := b + (['"'] + ([Separator] + c));
    var st3 := Scanner([], [a], [], true);
    var st4 := Scanner([], [a, b], [], false);
    calc {
      Parse(a + [Separator, '"'] + b + ['"', Separator] + c);
      { assert a + [Separator, '"'] + b + ['"', Separator] + c == a + ([Separator] + (['"'] + u)); }
      Scan(a + ([Separator] + (['"'] + u)), Start);
      { OpenQuoteAfterPlain(a, u); }
      Scan(u, st3);
      { EscapeWithoutQuote(b);
        assert b + (['"'] + ([Separator] + c)) == Escape(b, Doubled) + ['"'] + ([Separator] + c);
        ScanQuotedField(b, Doubled, [Separator] + c, st3);
        assert ([Separator] + c)[1..] == c;
        assert [] + b == b;
        assert [a] + [b] == [a, b]; }
      Scan(c, st4);
      { assert c == c + [];
        ScanPlainField(c, [], st4);
        assert [] + c == c; }
      Scan([], st4.(token := c));
      EndRow(st4.(token := c)).rows;
      { assert [a, b] + [c] == [a, b, c]; }
      [[a, b, c]];
    }
  }

  /** The example of the tokenizer's contract: a quoted separator stays in
      its field. */
  lemma QuotedSeparatorExample()
    ensures Parse("a,\"b,c\",d") == [["a", "b,c", "d"]]
  {
    assert PlainField("a") && PlainField("d");
    QuotedMiddle("a", "b,c", "d");
    assert "a" + [Separator, '"'] + "b,c" + ['"', Separator] + "d" == "a,\"b,c\",d";
  }

  /** A quote in the middle of a field opens quoted mode without starting a
      new field. */
  lemma QuoteInsideFieldExample()
    ensures Parse("ab\"c,d\"") == [["abc,d"]]
  {
    var a, b := "ab", "c,d";
    assert PlainField(a);
    QuoteInsideField(a, b);
    assert a + b == "abc,d";
    assert a + ['"'] + b + ['"'] == "ab\"c,d\"";
  }
}
