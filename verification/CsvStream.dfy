/** dyna:docparse: the CSV reader that unescapes quoted fields inside its own copy of
    the text, and its agreement with the table parser. */
module CsvStream {
  import opened Common
  import opened CsvFormat

  // ---- what it reads -------------------------------------------------------------------------------------

  /** A field; bytes between a closing quote and the next comma or line end are
      dropped. */
  function StreamField(s: string): (f: Field)
    ensures |f.rest| <= |s| && (s != [] && !Ends(s[0]) ==> |f.rest| < |s|)
    ensures f.rest != [] ==> Ends(f.rest[0])
  {
    var f := FieldOf(s);
    if f.closed then Field(f.text, f.rest[StopAt(f.rest)..], true) else f
  }

  /** The fields of the current record and what follows them. */
  function RecordOf(s: string, started: bool): (r: (Row, string))
    ensures |r.1| <= |s| && (r.1 != [] ==> EndsRow(r.1[0]))
    decreases |s|, if started then 0 else 1
  {
    if s == [] || EndsRow(s[0]) then ([], s)
    else
      var f := StreamField(if started && s[0] == ',' then s[1..] else s);
      var r := RecordOf(f.rest, true);
      ([f.text] + r.0, r.1)
  }

  /** The text from the next line end on. */
  function ToLineEnd(s: string): (t: string)
    ensures t == [] || EndsRow(t[0])
  {
    if s == [] || EndsRow(s[0]) then s else ToLineEnd(s[1..])
  }

  /** The records with at least one field. */
  function StreamRows(s: string): Table
    decreases |s|
  {
    var r := RecordOf(s, false);
    (if r.0 == [] then [] else [r.0])
    + if r.1 == [] || AfterRow(r.1) == [] then [] else StreamRows(AfterRow(r.1))
  }

  // ---- field by field --------------------------------------------------------------------------------------

  /** The text after the comma or line end g starts with. */
  ghost function Beyond(g: string): (t: string)
    requires g != []
    ensures |t| < |g|
  {
    if g[0] == ',' then g[1..] else AfterRow(g)
  }

  /** The records from a field on, row being the fields already read of the first one. */
  ghost function StreamFrom(s: string, row: Row): (t: Table)
    ensures |t| > 0 && |t[0]| > |row|
    decreases |s|
  {
    var f := StreamField(s);
    if f.rest == [] then [row + [f.text]]
    else if f.rest[0] == ',' then StreamFrom(f.rest[1..], row + [f.text])
    else [row + [f.text]] + StreamRows(AfterRow(f.rest))
  }

  lemma {:induction false} FromRecord(s: string, row: Row, f: Field, fields: Row, rest: string)
    requires f == StreamField(s) && RecordOf(f.rest, true) == (fields, rest)
    ensures StreamFrom(s, row) == [row + [f.text] + fields] + if rest == [] then [] else StreamRows(AfterRow(rest))
    decreases |s|
  {
    hide StreamField, StreamRows, AfterRow;
    StreamSize(s);
    if f.rest == [] || EndsRow(f.rest[0]) {
      assert row + [f.text] + fields == row + [f.text];
    } else {
      var t := f.rest[1..];
      var g := StreamField(t);
      var more := RecordOf(g.rest, true).0;
      FromRecord(t, row + [f.text], g, more, rest);
      Assoc(row + [f.text], [g.text], more);
    }
  }

  /** Reading starts with a blank line or with a field. */
  lemma RowsStart(s: string)
    ensures s == [] ==> StreamRows(s) == []
    ensures BlankStart(s) ==> StreamRows(s) == StreamRows(AfterRow(s))
    ensures s != [] && !BlankStart(s) ==> StreamRows(s) == StreamFrom(s, [])
  {
    hide StreamField, StreamRows;
    StreamStep(s);
    if s == [] {
    } else if BlankStart(s) {
      assert RecordOf(s, false) == ([], s);
    } else {
      var f := StreamField(s);
      var r := RecordOf(f.rest, true);
      assert RecordOf(s, false) == ([f.text] + r.0, r.1);
      FromRecord(s, [], f, r.0, r.1);
      var none: Row := [];
      assert none + [f.text] + r.0 == [f.text] + r.0;
    }
  }

  lemma StreamStep(s: string)
    ensures var r := RecordOf(s, false);
            StreamRows(s) == (if r.0 == [] then [] else [r.0])
                             + if r.1 == [] then [] else StreamRows(AfterRow(r.1))
  {
    assert StreamRows([]) == [];
  }

  // ---- agreement with the table parser -------------------------------------------------------------------

  /** Every run of bytes between a closing quote and the next comma or line end is empty,
      or is one byte before a line end or the end of the text. */
  ghost predicate Harmless(s: string)
    decreases |s|
  {
    var f := FieldOf(s);
    var k := StopAt(f.rest);
    var g := f.rest[k..];
    && (k == 0 || (k == 1 && (g == [] || EndsRow(g[0]))))
    && (g != [] ==> Harmless(Beyond(g)))
  }

  /** No such run has a quote for its second byte, where the table parser would open a
      quoted field. */
  ghost predicate NoReopening(s: string)
    decreases |s|
  {
    var f := FieldOf(s);
    var k := StopAt(f.rest);
    var g := f.rest[k..];
    && (k >= 2 ==> f.rest[1] != '"')
    && (g != [] ==> NoReopening(Beyond(g)))
  }

  /** The rows the table parser has from a field on, without blank lines. */
  ghost function TableFrom(s: string, row: Row): Table
  {
    Written(LinesFrom(s, row, false))
  }

  lemma WrittenFirst(fields: Row, blank: bool, tail: seq<Line>)
    ensures Written([Line(fields, blank)] + tail) == (if blank then [] else [fields]) + Written(tail)
  {
    WrittenConcat([Line(fields, blank)], tail);
  }

  lemma WrittenOne(fields: Row)
    ensures Written([Line(fields, false)]) == [fields]
  {
  }

  lemma TableStart(s: string)
    ensures s == [] ==> Written(Lines(s)) == []
    ensures BlankStart(s) ==> Written(Lines(s)) == Written(Lines(AfterRow(s)))
    ensures s != [] && !BlankStart(s) ==> Written(Lines(s)) == TableFrom(s, [])
  {
    if BlankStart(s) {
      assert StopAt(s) == 0 && FieldOf(s) == Field([], s, false);
      var none: Row := [];
      assert none + [[]] == [[]];
      WrittenFirst([[]], true, Lines(AfterRow(s)));
    }
  }

  /** A field with nothing after its closing quote. */
  lemma TableClean(s: string, row: Row, f: Field)
    requires f == FieldOf(s) && StopAt(f.rest) == 0
    ensures StreamField(s) == f
    ensures f.rest == [] ==> TableFrom(s, row) == [row + [f.text]]
    ensures f.rest != [] && f.rest[0] == ',' ==> TableFrom(s, row) == TableFrom(f.rest[1..], row + [f.text])
    ensures f.rest != [] && f.rest[0] != ',' ==>
              TableFrom(s, row) == [row + [f.text]] + Written(Lines(AfterRow(f.rest)))
  {
    hide FieldOf;
    if f.rest == [] {
      WrittenOne(row + [f.text]);
    } else if f.rest[0] != ',' {
      WrittenFirst(row + [f.text], false, Lines(AfterRow(f.rest)));
    }
  }

  /** Bytes after a closing quote end the record. */
  lemma TableStray(s: string, row: Row, f: Field, u: string)
    requires f == FieldOf(s) && StopAt(f.rest) >= 1 && u == f.rest[1..]
    ensures f.closed && TableFrom(s, row) == [row + [f.text]] + Written(Lines(u))
  {
    hide FieldOf;
    WrittenFirst(row + [f.text], false, Lines(u));
  }

  /** What follows them is an ordinary field, unless it starts with a quote. */
  lemma TableWord(u: string, k: nat, g: string)
    requires k == StopAt(u) && g == u[k..] && (k > 0 ==> u[0] != '"')
    ensures FieldOf(u) == Field(u[..k], g, false) && StopAt(g) == 0
  {
  }

  lemma {:induction false} HarmlessOpensNone(s: string)
    requires Harmless(s)
    ensures NoReopening(s)
    decreases |s|
  {
    hide FieldOf, StopAt, Harmless, NoReopening;
    var f := FieldOf(s);
    var g := f.rest[StopAt(f.rest)..];
    Conditions(s, f, StopAt(f.rest), g);
    if g == [] {
    } else {
      HarmlessOpensNone(Beyond(g));
    }
  }

  /** Both conditions, one field at a time. */
  lemma Conditions(s: string, f: Field, k: nat, g: string)
    requires f == FieldOf(s) && k == StopAt(f.rest) && g == f.rest[k..]
    ensures g == [] || Ends(g[0])
    ensures Harmless(s) <==> (k == 0 || (k == 1 && (g == [] || EndsRow(g[0])))) && (g != [] ==> Harmless(Beyond(g)))
    ensures NoReopening(s) <==> (k >= 2 ==> f.rest[1] != '"') && (g != [] ==> NoReopening(Beyond(g)))
  {
  }

  /** How the two compare from one place on. */
  ghost predicate Compared(stream: Table, table: Table, same: bool)
  {
    (stream == table <==> same) && |stream| <= |table|
  }

  lemma ComparedAfter(row: Row, stream: Table, table: Table, same: bool)
    requires Compared(stream, table, same)
    ensures Compared([row] + stream, [row] + table, same)
  {
    assert ([row] + stream)[1..] == stream && ([row] + table)[1..] == table;
  }

  /** The table parser has a row more, and never fewer on the rest. */
  lemma ComparedExtra(row: Row, word: Row, stream: Table, table: Table, same: bool)
    requires Compared(stream, table, same)
    ensures Compared([row] + stream, [row] + ([word] + table), false)
  {
  }

  /** The stream's row goes on where the table parser's ended. */
  lemma ComparedLonger(row: Row, stream: Table, table: Table)
    requires |stream| > 0 && |stream[0]| > |row| && |stream| <= |table|
    ensures Compared(stream, [row] + table, false)
  {
  }

  lemma ComparedNothing()
    ensures Compared([], [], true)
  {
  }

  lemma ComparedOne(row: Row)
    ensures Compared([row], [row], true)
  {
  }

  /** The length of the stream's rows does not depend on the fields already read. */
  lemma {:induction false} FromLength(s: string, row: Row, other: Row)
    ensures |StreamFrom(s, row)| == |StreamFrom(s, other)|
    decreases |s|
  {
    hide StreamField, StreamRows, AfterRow;
    StreamSize(s);
    var f := StreamField(s);
    if f.rest == [] || EndsRow(f.rest[0]) {
    } else {
      FromLength(f.rest[1..], row + [f.text], other + [f.text]);
    }
  }

  lemma {:induction false} FieldsCompare(s: string, row: Row)
    requires NoReopening(s)
    ensures Compared(StreamFrom(s, row), TableFrom(s, row), Harmless(s))
    decreases |s|, 2
  {
    hide FieldOf, StopAt, LinesFrom, Lines, Written, TableFrom, StreamField, StreamRows, AfterRow, Compared, Harmless,
         NoReopening;
    var f := FieldOf(s);
    var k := StopAt(f.rest);
    if k == 0 { CleanCompares(s, row, f); } else { StrayCompares(s, row, f, k, f.rest[k..]); }
  }

  lemma {:induction false} CleanCompares(s: string, row: Row, f: Field)
    requires NoReopening(s) && f == FieldOf(s) && StopAt(f.rest) == 0
    ensures Compared(StreamFrom(s, row), TableFrom(s, row), Harmless(s))
    decreases |s|, 1
  {
    hide StopAt, LinesFrom, Lines, Written, TableFrom, StreamField, StreamRows, AfterRow, Compared, Harmless,
         NoReopening;
    Conditions(s, f, 0, f.rest);
    FieldSize(s);
    TableClean(s, row, f);
    if f.rest == [] {
      ComparedOne(row + [f.text]);
    } else if f.rest[0] == ',' {
      FieldsCompare(f.rest[1..], row + [f.text]);
    } else {
      RowsCompare(AfterRow(f.rest));
      ComparedAfter(row + [f.text], StreamRows(AfterRow(f.rest)), Written(Lines(AfterRow(f.rest))),
                    Harmless(AfterRow(f.rest)));
    }
  }

  lemma {:induction false} RowsCompare(s: string)
    requires NoReopening(s)
    ensures Compared(StreamRows(s), Written(Lines(s)), Harmless(s))
    decreases |s|, 3
  {
    hide FieldOf, StopAt, LinesFrom, Lines, Written, TableFrom, StreamField, StreamRows, AfterRow, Compared, Harmless,
         NoReopening;
    TableStart(s);
    RowsStart(s);
    if s == [] {
      ComparedNothing();
      NothingStray();
    } else if BlankStart(s) {
      BlankHarmless(s);
      AfterSize(s);
      RowsCompare(AfterRow(s));
    } else {
      FieldsCompare(s, []);
    }
  }

  lemma AfterSize(s: string)
    requires s != []
    ensures |AfterRow(s)| < |s|
  {
  }

  lemma FieldSize(s: string)
    ensures |FieldOf(s).rest| <= |s|
    ensures FieldOf(s).closed ==> |FieldOf(s).rest| < |s|
  {
  }

  lemma NothingStray()
    ensures Harmless([])
  {
    hide Harmless, NoReopening;
    assert FieldOf([]) == Field([], [], false);
    Conditions([], Field([], [], false), 0, []);
  }

  lemma BlankHarmless(s: string)
    requires BlankStart(s) && NoReopening(s)
    ensures NoReopening(AfterRow(s)) && (Harmless(s) <==> Harmless(AfterRow(s)))
  {
    assert StopAt(s) == 0 && FieldOf(s) == Field([], s, false);
    assert s[0..] == s;
  }

  lemma StrayField(s: string, f: Field, k: nat, g: string, u: string)
    requires f == FieldOf(s) && k == StopAt(f.rest) >= 1 && g == f.rest[k..] && u == f.rest[1..]
    ensures f.closed && StreamField(s) == Field(f.text, g, true)
    ensures StopAt(u) == k - 1 && u[k - 1..] == g && |u| < |s|
    ensures k == 1 ==> u == g
  {
    hide FieldOf;
    FieldSize(s);
  }

  lemma {:induction false} StrayCompares(s: string, row: Row, f: Field, k: nat, g: string)
    requires NoReopening(s) && f == FieldOf(s) && k == StopAt(f.rest) >= 1 && g == f.rest[k..]
    ensures Compared(StreamFrom(s, row), TableFrom(s, row), Harmless(s))
    decreases |s|, 1
  {
    hide FieldOf, StopAt, LinesFrom, Lines, Written, TableFrom, StreamField, StreamRows, AfterRow, Compared, Harmless,
         NoReopening;
    var u := f.rest[1..];
    StrayField(s, f, k, g, u);
    TableStray(s, row, f, u);
    TableStart(u);
    StopBounds(f.rest);
    if g != [] && g[0] == ',' {
      StrayComma(s, row, f, k, g, u);
    } else if k == 1 {
      OneStray(s, row, f, g);
    } else {
      MoreStray(s, row, f, k, g, u);
    }
  }

  lemma StopBounds(s: string)
    ensures StopAt(s) <= |s| && (StopAt(s) < |s| ==> Ends(s[StopAt(s)]))
            && forall i :: 0 <= i < StopAt(s) ==> !Ends(s[i])
  {
  }

  /** One byte before a line end or the end of the text. */
  lemma {:induction false} OneStray(s: string, row: Row, f: Field, g: string)
    requires NoReopening(s) && f == FieldOf(s) && StopAt(f.rest) == 1 && g == f.rest[1..]
    requires g == [] || EndsRow(g[0])
    requires StreamField(s) == Field(f.text, g, true) && |g| < |s|
    requires TableFrom(s, row) == [row + [f.text]] + Written(Lines(g))
    ensures Compared(StreamFrom(s, row), TableFrom(s, row), Harmless(s))
    decreases |s|, 0
  {
    hide FieldOf, StopAt, LinesFrom, Lines, Written, TableFrom, StreamField, StreamRows, AfterRow, Compared, Harmless,
         NoReopening;
    Conditions(s, f, 1, g);
    TableStart(g);
    if g == [] {
      ComparedOne(row + [f.text]);
      assert [row + [f.text]] + Written(Lines(g)) == [row + [f.text]];
    } else {
      var t := AfterRow(g);
      AfterSize(g);
      RowsCompare(t);
      ComparedAfter(row + [f.text], StreamRows(t), Written(Lines(t)), Harmless(t));
    }
  }

  /** More bytes before a line end or the end of the text: a row of their own. */
  lemma {:induction false} MoreStray(s: string, row: Row, f: Field, k: nat, g: string, u: string)
    requires NoReopening(s) && f == FieldOf(s) && k == StopAt(f.rest) >= 2 && g == f.rest[k..] && u == f.rest[1..]
    requires g == [] || EndsRow(g[0])
    requires StreamField(s) == Field(f.text, g, true) && |u| < |s| && StopAt(u) == k - 1 && u[k - 1..] == g
    requires TableFrom(s, row) == [row + [f.text]] + Written(Lines(u))
    ensures Compared(StreamFrom(s, row), TableFrom(s, row), Harmless(s))
    decreases |s|, 0
  {
    hide FieldOf, StopAt, LinesFrom, Lines, Written, TableFrom, StreamField, StreamRows, AfterRow, Compared, Harmless,
         NoReopening;
    Conditions(s, f, k, g);
    var word: Row := [u[..k - 1]];
    StopBounds(u);
    assert u[0] == f.rest[1];
    TableStart(u);
    TableWord(u, k - 1, g);
    TableClean(u, [], FieldOf(u));
    var none: Row := [];
    assert none + word == word;
    if g == [] {
      ComparedNothing();
      var nothing: Table := [];
      ComparedExtra(row + [f.text], word, nothing, nothing, true);
      assert [word] + nothing == [word] && [row + [f.text]] + nothing == [row + [f.text]];
    } else {
      var t := AfterRow(g);
      AfterSize(g);
      RowsCompare(t);
      ComparedExtra(row + [f.text], word, StreamRows(t), Written(Lines(t)), Harmless(t));
    }
  }

  /** Bytes before a comma: the stream goes on with its row, the table parser with a new one. */
  lemma {:induction false} StrayComma(s: string, row: Row, f: Field, k: nat, g: string, u: string)
    requires NoReopening(s) && f == FieldOf(s) && k == StopAt(f.rest) >= 1 && g == f.rest[k..] && u == f.rest[1..]
    requires g != [] && g[0] == ','
    requires StreamField(s) == Field(f.text, g, true) && |u| < |s| && StopAt(u) == k - 1 && u[k - 1..] == g
    requires TableFrom(s, row) == [row + [f.text]] + Written(Lines(u))
    ensures Compared(StreamFrom(s, row), TableFrom(s, row), Harmless(s))
    decreases |s|, 0
  {
    hide FieldOf, StopAt, LinesFrom, Lines, Written, TableFrom, StreamField, StreamRows, AfterRow, Compared, Harmless,
         NoReopening;
    Conditions(s, f, k, g);
    var word: Row := [u[..k - 1]];
    StopBounds(u);
    assert k >= 2 ==> u[0] == f.rest[1];
    assert k == 1 ==> u == g;
    TableStart(u);
    TableWord(u, k - 1, g);
    TableClean(u, [], FieldOf(u));
    var none: Row := [];
    assert none + word == word;
    FieldsCompare(g[1..], word);
    CompareSizes(StreamFrom(g[1..], word), TableFrom(g[1..], word), Harmless(g[1..]));
    FromLength(g[1..], row + [f.text], word);
    ComparedLonger(row + [f.text], StreamFrom(g[1..], row + [f.text]), TableFrom(g[1..], word));
  }

  lemma CompareSizes(stream: Table, table: Table, same: bool)
    requires Compared(stream, table, same)
    ensures |stream| <= |table|
  {
  }

  /** The two parsers read the same records, blank lines aside, from every text with
      harmless strays only. */
  lemma Agree(s: string)
    requires Harmless(s)
    ensures StreamRows(s) == Written(Lines(s))
  {
    HarmlessOpensNone(s);
    RowsCompare(s);
  }

  /** And from no other text, unless strays open a quoted field for the table parser; nor
      does it then read fewer records. */
  lemma AgreeExactly(s: string)
    requires NoReopening(s)
    ensures StreamRows(s) == Written(Lines(s)) <==> Harmless(s)
    ensures |StreamRows(s)| <= |Written(Lines(s))|
  {
    RowsCompare(s);
  }
  /** A quoted field around a line feed. */
  lemma FeedClosed(t: string)
    requires t == ['"', '\n', '"', '\n']
    ensures FieldOf(t) == Field("\n", ['\n'], true)
  {
    hide Quoted;
    QuotedClose(['\n'], ['"', '\n']);
    QuotedPlain('\n', ['"', '\n'], ['\n', '"', '\n']);
    FieldQuoted(t, ['\n', '"', '\n']);
  }

  /** One that the end of the text cuts off. */
  lemma FeedOpen(t: string)
    requires t == ['"', '\n']
    ensures FieldOf(t) == Field("\n", [], false)
  {
    hide Quoted;
    QuotedAt([], 0);
    QuotedPlain('\n', [], ['\n']);
    FieldQuoted(t, ['\n']);
  }

  lemma FeedTable(u: string)
    requires u == ['"', '\n', '"', '\n']
    ensures Written(Lines(u)) == [["\n"]]
  {
    hide FieldOf, Lines, Written, TableFrom, StopAt;
    FeedClosed(u);
    TableStart(u);
    StopNone(['\n']);
    TableClean(u, [], FieldOf(u));
    TableStart(AfterRow(['\n']));
    var none: Row := [];
    assert none + ["\n"] == ["\n"];
  }

  lemma FeedStream(v: string)
    requires v == ['"', '\n']
    ensures StreamRows(v) == [["\n"]]
  {
    hide FieldOf, StreamRows, StopAt, TableFrom;
    FeedOpen(v);
    RowsStart(v);
    StopNone([]);
    TableClean(v, [], FieldOf(v));
    var none: Row := [];
    assert none + ["\n"] == ["\n"];
  }

  /** Stray bytes after the first field, up to a line end: what each parser goes on with. */
  lemma FirstStray(s: string, f: Field, k: nat, g: string, u: string)
    requires f == FieldOf(s) && k == StopAt(f.rest) >= 1 && g == f.rest[k..] && u == f.rest[1..] && BlankStart(g)
    ensures StreamRows(s) == [[f.text]] + StreamRows(AfterRow(g))
    ensures Written(Lines(s)) == [[f.text]] + Written(Lines(u))
  {
    hide FieldOf, Lines, StreamRows, Written, TableFrom, StopAt, StreamField, AfterRow;
    FieldQuote(s);
    StrayField(s, f, k, g, u);
    TableStart(s);
    TableStray(s, [], f, u);
    RowsStart(s);
    var none: Row := [];
    assert none + [f.text] == [f.text];
  }

  /** With a quoted field opened among stray bytes the parsers may agree all the same: here
      one reads a closed field and the other an unclosed one. */
  lemma ReopenedAgrees(s: string, a: Cell, x: char, u: string, g: string)
    requires u == ['"', '\n', '"', '\n'] && g == ['\n', '"', '\n']
    requires FieldOf(s) == Field(a, [x] + u, true) && !Ends(x)
    ensures !Harmless(s) && !NoReopening(s)
    ensures StreamRows(s) == Written(Lines(s)) == [[a], ["\n"]]
  {
    hide FieldOf, Harmless, NoReopening, Lines, StreamRows, Written, StopAt, AfterRow;
    var f := FieldOf(s);
    StopTwo(f.rest);
    assert f.rest[2..] == g && f.rest[1..] == u;
    Conditions(s, f, 2, g);
    FirstStray(s, f, 2, g, u);
    FeedTable(u);
    AfterFeed(g, ['"', '\n']);
    FeedStream(['"', '\n']);
  }

  lemma FieldQuote(s: string)
    ensures FieldOf(s).closed ==> s != [] && s[0] == '"'
  {
  }

  lemma AfterFeed(g: string, v: string)
    requires g == ['\n'] + v
    ensures AfterRow(g) == v
  {
  }

  lemma StopTwo(s: string)
    requires |s| > 2 && !Ends(s[0]) && !Ends(s[1]) && Ends(s[2])
    ensures StopAt(s) == 2
  {
  }

  lemma StopNone(s: string)
    requires s == [] || Ends(s[0])
    ensures StopAt(s) == 0
  {
  }

  // ---- the text of a table -------------------------------------------------------------------------------

  lemma HarmlessStep(s: string, c: Cell, closed: bool, mark: char, rest: string)
    requires FieldOf(s) == Field(c, [mark] + rest, closed) && (mark == ',' || mark == '\n') && Harmless(rest)
    ensures Harmless(s)
  {
    assert ([mark] + rest)[1..] == rest;
  }

  lemma {:induction false} RowHarmless(row: Row, rest: string, s: string)
    requires s == RowText(row) + ['\n'] + rest && Harmless(rest)
    ensures Harmless(s)
    decreases |row|
  {
    hide Harmless, CellText, FieldOf, CString;
    if |row| <= 1 {
      var c := if row == [] then [] else CString(row[0]);
      NormalOne(row, c);
      assert s == CellText(c) + (['\n'] + rest);
      CellReads(c, ['\n'] + rest, s);
      HarmlessStep(s, c, NeedsQuote(c), '\n', rest);
    } else {
      var c := CString(row[0]);
      var tail := RowText(row[1..]) + ['\n'] + rest;
      assert s == CellText(c) + ([','] + tail);
      CellReads(c, [','] + tail, s);
      RowHarmless(row[1..], rest, tail);
      HarmlessStep(s, c, NeedsQuote(c), ',', tail);
    }
  }

  lemma {:induction false} TableHarmless(t: Table)
    ensures Harmless(TableText(t))
  {
    if t == [] {
      assert FieldOf([]).rest == [];
    } else {
      TableHarmless(t[1..]);
      RowHarmless(t[0], TableText(t[1..]), TableText(t));
    }
  }

  /** The rows of a table, without those of one empty cell. */
  ghost function NotEmpty(t: Table): Table
  {
    if t == [] then [] else (if Normal(t[0]) == [[]] then [] else [Normal(t[0])]) + NotEmpty(t[1..])
  }

  lemma {:induction false} WrittenOf(t: Table)
    ensures Written(LinesOf(t)) == NotEmpty(t)
  {
    if t == [] {
    } else {
      WrittenOf(t[1..]);
      WrittenConcat([Line(Normal(t[0]), Normal(t[0]) == [[]])], LinesOf(t[1..]));
    }
  }

  /** Both parsers read the serializer's text alike, but this one loses the rows of one
      empty cell. */
  lemma SerializedAgrees(t: Table)
    ensures StreamRows(TableText(t)) == NotEmpty(t)
  {
    TableHarmless(t);
    Agree(TableText(t));
    TableReads(t);
    WrittenOf(t);
  }

  // ---- the reader ----------------------------------------------------------------------------------------

  class Reader {
    const buf: array<char>
    var pos: nat
    var rowStarted: bool

    ghost predicate Valid()
      reads this
    {
      pos <= buf.Length
    }

    constructor (text: string)
      ensures fresh(buf) && Valid() && buf[..] == text && pos == 0 && !rowStarted
    {
      buf := new char[|text|](i requires 0 <= i < |text| => text[i]);
      pos, rowStarted := 0, false;
    }

    /** Move a run of bytes down to w. */
    method Flush(w: nat, run: nat, end: nat) returns (w': nat)
      requires w <= run <= end <= buf.Length
      modifies buf
      ensures w' == w + (end - run) && buf[..w] == old(buf[..w]) && buf[w..w'] == old(buf[run..end])
      ensures buf[end..] == old(buf[end..])
    {
      forall k | 0 <= k < end - run {
        buf[w + k] := buf[run + k];
      }
      w' := w + (end - run);
    }

    /** The same, for a field whose bytes start at start. */
    method FlushRun(start: nat, w: nat, run: nat, end: nat) returns (w': nat)
      requires start <= w <= run <= end <= buf.Length
      modifies buf
      ensures w <= w' <= end && buf[..start] == old(buf[..start]) && buf[end..] == old(buf[end..])
      ensures buf[start..w'] == old(buf[start..w]) + old(buf[run..end])
    {
      w' := w;
      if end > run { w' := Flush(w, run, end); }
      assert buf[start..w'] == buf[..w][start..] + buf[w..w'];
    }

    /** And then one quote for a doubled one. */
    method FlushPair(start: nat, w: nat, run: nat, end: nat) returns (w': nat)
      requires start <= w <= run <= end && end + 1 < buf.Length
      modifies buf
      ensures w <= w' <= end + 1 && buf[..start] == old(buf[..start]) && buf[end + 2..] == old(buf[end + 2..])
      ensures buf[start..w'] == old(buf[start..w]) + old(buf[run..end]) + ['"']
    {
      w' := FlushRun(start, w, run, end);
      ghost var s := buf[..];
      buf[w'] := '"';
      w' := w' + 1;
      assert buf[start..w'] == s[start..w' - 1] + ['"'];
      assert buf[end + 2..] == buf[end..][2..];
    }

    /** Part of a quoted field read: up to w moved, from run to end still to move, the
        rest of the buffer as it was. */
    ghost predicate Reading(text: string, all: Field, start: nat, w: nat, run: nat, end: nat)
      reads buf
    {
      && start <= w <= run <= end <= buf.Length == |text|
      && buf[..start] == text[..start] && buf[run..] == text[run..]
      && Pending(text, all, buf[start..w], run, end)
    }

    /** A doubled quote. */
    method TakePair(ghost text: string, ghost all: Field, start: nat, w: nat, run: nat, end: nat) returns (w': nat)
      requires Reading(text, all, start, w, run, end) && end + 1 < buf.Length && buf[end] == buf[end + 1] == '"'
      modifies buf
      ensures Reading(text, all, start, w', end + 2, end + 2)
    {
      hide Pending;
      Tails(buf[..], text, run, end);
      PendingPair(text, all, buf[start..w], run, end);
      w' := FlushPair(start, w, run, end);
    }

    lemma TakePlain(text: string, all: Field, start: nat, w: nat, run: nat, end: nat)
      requires Reading(text, all, start, w, run, end) && end < buf.Length && buf[end] != '"'
      ensures Reading(text, all, start, w, run, end + 1)
    {
      hide Pending;
      Tails(buf[..], text, run, end);
      PendingPlain(text, all, buf[start..w], run, end);
    }

    lemma TakeStart(text: string, all: Field, start: nat)
      requires start <= buf.Length && text == buf[..] && all == Quoted(text[start..])
      ensures Reading(text, all, start, start, start, start)
    {
      hide Pending;
      PendingStart(text, all, start);
      assert buf[start..start] == [];
    }

    /** The last run, at the closing quote or at the end of the text. */
    method TakeLast(ghost text: string, ghost all: Field, start: nat, w: nat, run: nat, end: nat, closed: bool)
      returns (w': nat)
      requires Reading(text, all, start, w, run, end)
      requires if closed then end < buf.Length && buf[end] == '"' && (end + 1 == buf.Length || buf[end + 1] != '"')
               else end == buf.Length
      modifies buf
      ensures w <= w' <= end && buf[..start] == text[..start] && buf[end..] == text[end..]
      ensures all == Field(buf[start..w'], buf[if closed then end + 1 else end..], closed)
    {
      hide Pending;
      Tails(buf[..], text, run, end);
      PendingDone(text, all, buf[start..w], run, end, closed);
      w' := FlushRun(start, w, run, end);
      Tails(buf[..], text, end, end);
    }

    /** The inside of a quoted field, unescaped in place: what is written never passes
        what has been read, and nothing before the field or after the cursor changes. */
    method Unescape(start: nat, ghost s: string) returns (w: nat, end: nat, closed: bool)
      requires start <= buf.Length && s == buf[start..]
      modifies buf
      ensures start <= w <= end <= buf.Length
      ensures Quoted(s) == Field(buf[start..w], buf[end..], closed)
      ensures buf[..start] == old(buf[..start]) && buf[end..] == old(buf[end..])
    {
      hide Quoted, Pending, Reading;
      ghost var text := buf[..];
      ghost var all := Quoted(s);
      assert text[start..] == s && text[..start] == buf[..start];
      TakeStart(text, all, start);
      w, end, closed := start, start, false;
      var run := start;
      while end < buf.Length
        invariant start <= w <= run <= end <= buf.Length && !closed
        invariant Reading(text, all, start, w, run, end)
      {
        if buf[end] == '"' {
          if end + 1 < buf.Length && buf[end + 1] == '"' {
            w := TakePair(text, all, start, w, run, end);
            ReadingBounds(text, all, start, w, end + 2, end + 2);
            end := end + 2;
            run := end;
          } else {
            closed := true;
            break;
          }
        } else {
          TakePlain(text, all, start, w, run, end);
          end := end + 1;
        }
      }
      w := TakeLast(text, all, start, w, run, end, closed);
      if closed {
        Tails(buf[..], text, end, end);
        end := end + 1;
      }
    }

    lemma ReadingBounds(text: string, all: Field, start: nat, w: nat, run: nat, end: nat)
      requires Reading(text, all, start, w, run, end)
      ensures start <= w <= run <= end <= buf.Length == |text|
    {
    }

    /** Step to the next comma or line end, or to the end of the text. */
    method SkipToStop(from: nat) returns (p: nat)
      requires from <= buf.Length
      ensures from <= p <= buf.Length && p - from == StopAt(buf[from..])
    {
      p := from;
      ghost var s := buf[from..];
      while p < buf.Length && !Ends(buf[p])
        invariant from <= p <= buf.Length && forall k :: 0 <= k < p - from ==> !Ends(s[k])
      {
        assert s[p - from] == buf[p];
        p := p + 1;
      }
      if p < buf.Length { assert s[p - from] == buf[p]; }
    }

    /** A quoted field, with the bytes after its closing quote dropped. */
    method ParseQuoted(at: nat, ghost s: string) returns (w: nat, end: nat)
      requires at < buf.Length && buf[at] == '"' && s == buf[at..]
      modifies buf
      ensures at + 1 <= w <= end <= buf.Length
      ensures StreamField(s).text == buf[at + 1..w] && StreamField(s).rest == buf[end..]
      ensures buf[..at] == old(buf[..at])
    {
      hide Quoted, StopAt, FieldOf, StreamField;
      assert s[1..] == buf[at + 1..];
      FieldQuoted(s, s[1..]);
      var stop, closed;
      w, stop, closed := Unescape(at + 1, s[1..]);
      ghost var field := Field(buf[at + 1..w], buf[stop..], closed);
      StreamOf(s, field);
      Heads(buf[..], old(buf[..]), at);
      end := stop;
      if closed {
        end := SkipToStop(stop);
        assert field.rest[end - stop..] == buf[end..];
      }
    }

    /** One field: the stretch of the buffer from out to stop, which lies between the old
        and the new cursor. */
    method ParseField(ghost s: string) returns (out: nat, stop: nat)
      requires Valid() && s == buf[pos..]
      modifies `pos, buf
      ensures Valid() && old(pos) <= out <= stop <= pos
      ensures StreamField(s).text == buf[out..stop] && StreamField(s).rest == buf[pos..]
      ensures buf[..old(pos)] == old(buf[..pos])
    {
      hide Quoted, StopAt, FieldOf, StreamField;
      var end;
      if pos < buf.Length && buf[pos] == '"' {
        out := pos + 1;
        stop, end := ParseQuoted(pos, s);
      } else {
        end := SkipToStop(pos);
        FieldPlain(s);
        assert s[..end - pos] == buf[pos..end] && s[end - pos..] == buf[end..];
        out, stop := pos, end;
      }
      pos := end;
    }

    /** The next field of the current record, if it has one. */
    method NextField() returns (ok: bool, field: Cell)
      requires Valid()
      modifies this, buf
      ensures Valid() && buf[..old(pos)] == old(buf[..pos]) && old(pos) <= pos
      ensures ok ==> rowStarted
      ensures !ok ==> old(RecordOf(buf[pos..], rowStarted)) == ([], buf[pos..])
      ensures ok ==> var r := RecordOf(buf[pos..], true);
                     old(RecordOf(buf[pos..], rowStarted)) == ([field] + r.0, r.1)
      ensures ok ==> (buf.Length - pos < old(buf.Length - pos) || !old(rowStarted))
    {
      hide StreamField;
      ghost var s := buf[pos..];
      if pos >= buf.Length { return false, []; }
      var c := buf[pos];
      assert s[0] == c && s[1..] == buf[pos + 1..];
      if c == '\r' || c == '\n' { return false, []; }
      StreamSize(if rowStarted && c == ',' then s[1..] else s);
      if !rowStarted {
        rowStarted := true;
      } else if c == ',' {
        pos := pos + 1;
      }
      var out, stop := ParseField(buf[pos..]);
      ok, field := true, buf[out..stop];
    }

    /** Step to the line end and over it; more says whether another record follows. */
    method NextRow() returns (more: bool)
      requires Valid()
      modifies this
      ensures Valid() && old(pos) <= pos
      ensures var rest := ToLineEnd(old(buf[pos..]));
              && (more <==> rest != [] && AfterRow(rest) != [])
              && (more ==> !rowStarted && buf[pos..] == AfterRow(rest) && old(pos) < pos)
    {
      ghost var rest := ToLineEnd(buf[pos..]);
      while pos < buf.Length && buf[pos] != '\r' && buf[pos] != '\n'
        invariant old(pos) <= pos <= buf.Length && ToLineEnd(buf[pos..]) == rest
      {
        assert buf[pos..][1..] == buf[pos + 1..];
        pos := pos + 1;
      }
      assert rest == buf[pos..];
      if pos >= buf.Length { return false; }
      if buf[pos] == '\r' {
        pos := pos + 1;
        if pos < buf.Length && buf[pos] == '\n' { pos := pos + 1; }
      } else {
        pos := pos + 1;
      }
      rowStarted := false;
      assert AfterRow(rest) == buf[pos..];
      return pos < buf.Length;
    }

    /** The fields of one record. */
    method ReadRecord(ghost s: string) returns (row: Row)
      requires Valid() && s == buf[pos..] && !rowStarted
      modifies this, buf
      ensures Valid() && old(pos) <= pos && RecordOf(s, false) == (row, buf[pos..])
    {
      hide RecordOf;
      row := [];
      var ok, field := NextField();
      if ok { assert row + ([field] + RecordOf(buf[pos..], true).0) == [field] + RecordOf(buf[pos..], true).0; }
      ghost var r := RecordOf(s, false);
      while ok
        invariant Valid() && old(pos) <= pos
        invariant ok ==> rowStarted
        invariant ok ==> r == (row + ([field] + RecordOf(buf[pos..], true).0), RecordOf(buf[pos..], true).1)
        invariant !ok ==> r == (row, buf[pos..])
        decreases buf.Length - pos, ok
      {
        Assoc(row, [field], RecordOf(buf[pos..], true).0);
        row := row + [field];
        ghost var rest := RecordOf(buf[pos..], true);
        ok, field := NextField();
        if !ok { assert row + rest.0 == row; }
      }
    }

    /** All records, blank lines left out. */
    method ToArrays() returns (rows: Table)
      requires Valid() && pos == 0 && !rowStarted
      modifies this, buf
      ensures rows == old(StreamRows(buf[..]))
    {
      hide RecordOf, StreamRows;
      ghost var all := StreamRows(buf[..]);
      assert buf[0..] == buf[..];
      rows := [];
      var more := true;
      while more
        invariant Valid() && (more ==> !rowStarted && rows + StreamRows(buf[pos..]) == all)
        invariant !more ==> rows == all
        decreases buf.Length - pos, more
      {
        ghost var s := buf[pos..];
        var row := ReadRecord(s);
        ghost var rest := buf[pos..];
        StreamStep(s);
        RecordEnds(s);
        ghost var tail := if rest == [] then [] else StreamRows(AfterRow(rest));
        Assoc(rows, if row == [] then [] else [row], tail);
        if row != [] { rows := rows + [row]; }
        more := NextRow();
        if !more { StreamDone(rest); assert rows + tail == rows; }
      }
    }
  }

  lemma RecordEnds(s: string)
    ensures RecordOf(s, false).1 != [] ==> EndsRow(RecordOf(s, false).1[0])
  {
  }

  lemma StreamDone(rest: string)
    ensures rest != [] && AfterRow(rest) == [] ==> StreamRows(AfterRow(rest)) == []
  {
  }

  lemma FieldQuoted(s: string, t: string)
    requires s == ['"'] + t
    ensures FieldOf(s) == Quoted(t)
  {
    assert s[1..] == t;
  }

  lemma FieldPlain(s: string)
    requires s == [] || s[0] != '"'
    ensures StreamField(s) == Field(s[..StopAt(s)], s[StopAt(s)..], false)
  {
  }

  lemma StreamOf(s: string, f: Field)
    requires FieldOf(s) == f
    ensures StreamField(s).text == f.text
    ensures StreamField(s).rest == if f.closed then f.rest[StopAt(f.rest)..] else f.rest
  {
  }

  lemma StreamSize(s: string)
    ensures |StreamField(s).rest| <= |s| && (s != [] && !Ends(s[0]) ==> |StreamField(s).rest| < |s|)
  {
  }

  lemma Heads(a: string, b: string, i: nat)
    requires i + 1 <= |a| && i + 1 <= |b| && a[..i + 1] == b[..i + 1]
    ensures a[..i] == b[..i]
  {
    assert a[..i] == a[..i + 1][..i];
  }

  /** Two texts equal from i on are equal from j on. */
  lemma Tails(a: string, b: string, i: nat, j: nat)
    requires i <= j <= |a| == |b| && a[i..] == b[i..]
    ensures a[j..] == b[j..] && a[i..j] == b[i..j]
    ensures j < |a| ==> a[j] == b[j] && a[j + 1..] == b[j + 1..]
    ensures j + 1 < |a| ==> a[j + 1] == b[j + 1] && a[j + 2..] == b[j + 2..]
  {
    assert forall k :: i <= k < |a| ==> a[k] == a[i..][k - i] == b[i..][k - i] == b[k];
  }

  /** What the field holds: the bytes already moved, the run still to move, and what is
      not yet read. */
  ghost predicate Pending(text: string, all: Field, moved: Cell, run: nat, end: nat)
  {
    && run <= end <= |text|
    && all == Field(moved + text[run..end] + Quoted(text[end..]).text, Quoted(text[end..]).rest,
                    Quoted(text[end..]).closed)
  }

  lemma PendingStart(text: string, all: Field, start: nat)
    requires start <= |text| && all == Quoted(text[start..])
    ensures Pending(text, all, [], start, start)
  {
    hide Quoted;
    assert text[start..start] == [];
  }

  lemma PendingPlain(text: string, all: Field, moved: Cell, run: nat, end: nat)
    requires Pending(text, all, moved, run, end) && end < |text| && text[end] != '"'
    ensures Pending(text, all, moved, run, end + 1)
  {
    hide Quoted;
    QuotedAt(text, end);
    RunGrows(text, run, end);
    PlainSplit(moved, text[run..end], [text[end]], Quoted(text[end + 1..]).text, Quoted(text[end..]).text,
               text[run..end + 1]);
  }

  lemma RunGrows(text: string, run: nat, end: nat)
    requires run <= end < |text|
    ensures text[run..end + 1] == text[run..end] + [text[end]]
  {
  }

  lemma PlainSplit(a: Cell, b: Cell, c: Cell, d: Cell, cd: Cell, bc: Cell)
    requires cd == c + d && bc == b + c
    ensures a + b + cd == a + bc + d
  {
    Assoc(a + b, c, d);
    Assoc(a, b, c);
  }

  lemma PendingPair(text: string, all: Field, moved: Cell, run: nat, end: nat)
    requires Pending(text, all, moved, run, end) && end + 1 < |text| && text[end] == text[end + 1] == '"'
    ensures Pending(text, all, moved + text[run..end] + ['"'], end + 2, end + 2)
  {
    hide Quoted;
    QuotedAt(text, end);
    assert text[end + 2..end + 2] == [];
    PairSplit(moved + text[run..end], ['"'], Quoted(text[end + 2..]).text, text[end + 2..end + 2]);
  }

  lemma PairSplit(a: Cell, b: Cell, c: Cell, none: Cell)
    requires none == []
    ensures a + (b + c) == a + b + none + c
  {
  }

  lemma PendingDone(text: string, all: Field, moved: Cell, run: nat, end: nat, closed: bool)
    requires Pending(text, all, moved, run, end)
    requires if closed then end < |text| && text[end] == '"' && (end + 1 == |text| || text[end + 1] != '"')
             else end == |text|
    ensures all == Field(moved + text[run..end], text[if closed then end + 1 else end..], closed)
  {
    hide Quoted;
    QuotedAt(text, end);
    NoMore(moved + text[run..end], Quoted(text[end..]).text);
  }

  lemma NoMore(a: Cell, none: Cell)
    requires none == []
    ensures a + none == a
  {
  }
}
