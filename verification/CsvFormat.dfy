/** The CSV text both parsers read, as records of fields, and the text the
    serializer writes. A char stands for one byte. */
module CsvFormat {
  import opened Common

  type Cell = string
  type Row = seq<Cell>
  type Table = seq<Row>

  predicate Ends(c: char)
  {
    c == ',' || c == '\n' || c == '\r'
  }

  predicate EndsRow(c: char)
  {
    c == '\n' || c == '\r'
  }

  /** A field and what follows it; closed when it ended at a closing quote. */
  datatype Field = Field(text: Cell, rest: string, closed: bool)

  /** The inside of a quoted field. */
  function Quoted(s: string): (f: Field)
    ensures |f.rest| <= |s| && (f.closed ==> |f.rest| < |s|) && f.rest == s[|s| - |f.rest|..]
    ensures |f.text| + |f.rest| <= |s|
  {
    if s == [] then Field([], [], false)
    else if s[0] != '"' then
      var f := Quoted(s[1..]);
      Field([s[0]] + f.text, f.rest, f.closed)
    else if |s| > 1 && s[1] == '"' then
      var f := Quoted(s[2..]);
      Field(['"'] + f.text, f.rest, f.closed)
    else Field([], s[1..], true)
  }

  /** The length of the text before the next comma or line end. */
  function StopAt(s: string): (n: nat)
    ensures n <= |s| && (n < |s| ==> Ends(s[n])) && forall k :: 0 <= k < n ==> !Ends(s[k])
  {
    if s == [] || Ends(s[0]) then 0 else 1 + StopAt(s[1..])
  }

  function FieldOf(s: string): (f: Field)
    ensures |f.rest| <= |s| && f.rest == s[|s| - |f.rest|..]
    ensures s != [] && !Ends(s[0]) ==> |f.rest| < |s|
    ensures !f.closed && f.rest != [] ==> Ends(f.rest[0])
    ensures f.closed ==> s != [] && s[0] == '"'
  {
    if s != [] && s[0] == '"' then
      QuotedEnds(s[1..]);
      Quoted(s[1..])
    else Field(s[..StopAt(s)], s[StopAt(s)..], false)
  }

  /** A quoted field without a closing quote runs to the end. */
  lemma QuotedEnds(s: string)
    ensures !Quoted(s).closed ==> Quoted(s).rest == []
  {
  }

  /** What follows a line end, the two bytes of a CRLF taken together. */
  function AfterRow(s: string): (t: string)
    requires s != []
    ensures |t| < |s|
  {
    if s[0] == '\r' && |s| > 1 && s[1] == '\n' then s[2..] else s[1..]
  }

  /** A record, and whether it is a line with nothing on it. */
  datatype Line = Line(fields: Row, blank: bool)

  predicate BlankStart(s: string)
  {
    s != [] && EndsRow(s[0])
  }

  /** The records of a text, row being the fields already read of the first one and
      blank whether that one is blank. */
  function LinesFrom(s: string, row: Row, blank: bool): (lines: seq<Line>)
    ensures |lines| > 0
    ensures forall i :: 0 <= i < |lines| ==> |lines[i].fields| > 0
    decreases |s|
  {
    var f := FieldOf(s);
    var fields := row + [f.text];
    if f.rest == [] then [Line(fields, blank)]
    else if f.rest[0] == ',' then LinesFrom(f.rest[1..], fields, blank)
    else
      var next := AfterRow(f.rest);
      [Line(fields, blank)] + if next == [] then [] else LinesFrom(next, [], BlankStart(next))
  }

  function Lines(s: string): (lines: seq<Line>)
    ensures forall i :: 0 <= i < |lines| ==> |lines[i].fields| > 0
  {
    if s == [] then [] else LinesFrom(s, [], BlankStart(s))
  }

  /** Every record. */
  function Rows(lines: seq<Line>): (t: Table)
    ensures |t| == |lines| && forall i :: 0 <= i < |t| ==> t[i] == lines[i].fields
  {
    if lines == [] then [] else [lines[0].fields] + Rows(lines[1..])
  }

  /** The records that are not blank lines. */
  function Written(lines: seq<Line>): Table
  {
    if lines == [] then []
    else (if lines[0].blank then [] else [lines[0].fields]) + Written(lines[1..])
  }

  lemma {:induction false} RowsConcat(a: seq<Line>, b: seq<Line>)
    ensures Rows(a + b) == Rows(a) + Rows(b)
  {
  }

  lemma {:induction false} WrittenConcat(a: seq<Line>, b: seq<Line>)
    ensures Written(a + b) == Written(a) + Written(b)
  {
    if a == [] {
      assert a + b == b;
    } else {
      assert (a + b)[1..] == a[1..] + b;
      WrittenConcat(a[1..], b);
    }
  }

  // ---- what the serializer writes ----------------------------------------------------------------------

  /** The bytes of a cell up to its first NUL. */
  function CString(s: Cell): (t: Cell)
    ensures |t| <= |s| && t == s[..|t|] && '\0' !in t && (|t| < |s| ==> s[|t|] == '\0')
  {
    if s == [] || s[0] == '\0' then [] else [s[0]] + CString(s[1..])
  }

  predicate NeedsQuote(s: Cell)
  {
    exists i :: 0 <= i < |s| && (Ends(s[i]) || s[i] == '"')
  }

  /** Every quote doubled. */
  function Doubled(s: Cell): string
  {
    if s == [] then [] else (if s[0] == '"' then ['"', '"'] else [s[0]]) + Doubled(s[1..])
  }

  function CellText(s: Cell): string
  {
    if NeedsQuote(s) then ['"'] + Doubled(s) + ['"'] else s
  }

  /** The cells of a row, separated by commas. */
  function RowText(row: Row): string
  {
    if row == [] then []
    else if |row| == 1 then CellText(CString(row[0]))
    else CellText(CString(row[0])) + [','] + RowText(row[1..])
  }

  function TableText(t: Table): string
  {
    if t == [] then [] else RowText(t[0]) + ['\n'] + TableText(t[1..])
  }

  // ---- reading back what was written -------------------------------------------------------------------

  lemma QuotedPlain(c: char, u: string, t: string)
    requires c != '"' && t == [c] + u
    ensures Quoted(t) == Field([c] + Quoted(u).text, Quoted(u).rest, Quoted(u).closed)
  {
  }

  lemma QuotedPair(u: string, t: string)
    requires t == ['"', '"'] + u
    ensures Quoted(t) == Field(['"'] + Quoted(u).text, Quoted(u).rest, Quoted(u).closed)
  {
  }

  lemma QuotedClose(rest: string, t: string)
    requires (rest == [] || rest[0] != '"') && t == ['"'] + rest
    ensures Quoted(t) == Field([], rest, true)
  {
  }

  /** The same by position. */
  lemma QuotedAt(buf: string, i: nat)
    requires i <= |buf|
    ensures i == |buf| ==> Quoted(buf[i..]) == Field([], [], false)
    ensures i < |buf| && buf[i] != '"' ==>
              Quoted(buf[i..])
              == Field([buf[i]] + Quoted(buf[i + 1..]).text, Quoted(buf[i + 1..]).rest, Quoted(buf[i + 1..]).closed)
    ensures i + 1 < |buf| && buf[i] == buf[i + 1] == '"' ==>
              Quoted(buf[i..])
              == Field(['"'] + Quoted(buf[i + 2..]).text, Quoted(buf[i + 2..]).rest, Quoted(buf[i + 2..]).closed)
    ensures i < |buf| && buf[i] == '"' && (i + 1 == |buf| || buf[i + 1] != '"') ==>
              Quoted(buf[i..]) == Field([], buf[i + 1..], true)
  {
  }

  lemma DoubledNone(tail: string, t: string)
    requires t == Doubled([]) + tail
    ensures t == tail
  {
  }

  lemma {:induction false} DoubledHead(s: Cell, tail: string, t: string, u: string)
    requires s != [] && t == Doubled(s) + tail && u == Doubled(s[1..]) + tail
    ensures t == (if s[0] == '"' then ['"', '"'] else [s[0]]) + u
    ensures s == [s[0]] + s[1..]
  {
    Assoc(if s[0] == '"' then ['"', '"'] else [s[0]], Doubled(s[1..]), tail);
  }

  lemma {:induction false} QuotedDoubled(s: Cell, rest: string, tail: string, t: string)
    requires (rest == [] || rest[0] != '"') && tail == ['"'] + rest && t == Doubled(s) + tail
    ensures Quoted(t) == Field(s, rest, true)
  {
    hide Quoted, Doubled;
    if s == [] {
      DoubledNone(tail, t);
      QuotedClose(rest, tail);
    } else {
      var u := Doubled(s[1..]) + tail;
      QuotedDoubled(s[1..], rest, tail, u);
      DoubledHead(s, tail, t, u);
      if s[0] == '"' { QuotedPair(u, t); } else { QuotedPlain(s[0], u, t); }
    }
  }

  lemma StopAfter(s: Cell, rest: string, t: string)
    requires t == s + rest && rest != [] && Ends(rest[0]) && forall i :: 0 <= i < |s| ==> !Ends(s[i])
    ensures StopAt(t) == |s|
  {
    assert t[|s|] == rest[0];
  }

  /** A cell is read back, with what follows it left over. */
  lemma CellReads(s: Cell, rest: string, t: string)
    requires rest != [] && Ends(rest[0]) && t == CellText(s) + rest
    ensures FieldOf(t) == Field(s, rest, NeedsQuote(s))
  {
    hide Quoted, StopAt;
    if NeedsQuote(s) {
      QuotedReads(s, rest, t);
    } else {
      assert t == s + rest;
      assert t[0] == if s == [] then rest[0] else s[0];
      StopAfter(s, rest, t);
      assert t[..|s|] == s && t[|s|..] == rest;
    }
  }

  lemma QuotedReads(s: Cell, rest: string, t: string)
    requires rest != [] && rest[0] != '"' && t == ['"'] + Doubled(s) + ['"'] + rest
    ensures FieldOf(t) == Field(s, rest, true)
  {
    hide Quoted, Doubled;
    var tail := ['"'] + rest;
    var u := Doubled(s) + tail;
    assert t == ['"'] + u;
    assert t[1..] == u;
    QuotedDoubled(s, rest, tail, u);
  }

  /** What a row becomes: a row of no cells is one empty cell, and cells stop at a
      NUL. */
  function Normal(row: Row): (r: Row)
    ensures |r| == if row == [] then 1 else |row|
  {
    if row == [] then [[]] else seq(|row|, i requires 0 <= i < |row| => CString(row[i]))
  }

  function NormalTable(t: Table): (r: Table)
    ensures |r| == |t|
  {
    seq(|t|, i requires 0 <= i < |t| => Normal(t[i]))
  }

  /** What LinesFrom does once it has a field, before a comma and at a line end. */
  lemma LinesStep(s: string, before: Row, blank: bool, c: Cell, closed: bool, rest: string)
    requires FieldOf(s) == Field(c, [','] + rest, closed)
    ensures LinesFrom(s, before, blank) == LinesFrom(rest, before + [c], blank)
  {
  }

  /** A line end as the serializer writes it, or as other programs do. */
  ghost predicate IsLineEnd(e: string)
  {
    e == "\n" || e == "\r\n" || e == "\r"
  }

  /** A CR before a LF is not a line end of its own. */
  ghost predicate Apart(e: string, rest: string)
  {
    IsLineEnd(e) && (e == "\r" ==> rest == [] || rest[0] != '\n')
  }

  lemma LinesEnd(s: string, before: Row, blank: bool, c: Cell, closed: bool, e: string, rest: string)
    requires FieldOf(s) == Field(c, e + rest, closed) && Apart(e, rest)
    ensures LinesFrom(s, before, blank)
            == [Line(before + [c], blank)] + if rest == [] then [] else LinesFrom(rest, [], BlankStart(rest))
  {
    hide FieldOf;
    assert AfterRow(e + rest) == rest;
  }

  lemma NormalSplit(row: Row)
    requires |row| > 1
    ensures Normal(row) == [CString(row[0])] + Normal(row[1..])
  {
  }

  lemma NormalOne(row: Row, c: Cell)
    requires |row| <= 1 && c == if row == [] then [] else CString(row[0])
    ensures Normal(row) == [c] && RowText(row) == CellText(c)
  {
  }

  /** A row is read back, whatever was read of the record before it. */
  lemma {:induction false} RowReads(row: Row, before: Row, blank: bool, e: string, rest: string, s: string)
    requires s == RowText(row) + e + rest && Apart(e, rest)
    ensures LinesFrom(s, before, blank)
            == [Line(before + Normal(row), blank)] + if rest == [] then [] else LinesFrom(rest, [], BlankStart(rest))
    decreases |row|
  {
    hide LinesFrom, CellText, FieldOf, Normal, CString;
    if |row| <= 1 {
      var c := if row == [] then [] else CString(row[0]);
      NormalOne(row, c);
      assert s == CellText(c) + (e + rest);
      CellReads(c, e + rest, s);
      LinesEnd(s, before, blank, c, NeedsQuote(c), e, rest);
    } else {
      var c := CString(row[0]);
      var tail := RowText(row[1..]) + e + rest;
      assert s == CellText(c) + ([','] + tail);
      CellReads(c, [','] + tail, s);
      LinesStep(s, before, blank, c, NeedsQuote(c), tail);
      RowReads(row[1..], before + [c], blank, e, rest, tail);
      NormalSplit(row);
      assert before + [c] + Normal(row[1..]) == before + ([c] + Normal(row[1..]));
    }
  }

  /** A row written as an empty line is exactly one with a single empty cell. */
  lemma RowBlank(row: Row, e: string, rest: string, s: string)
    requires s == RowText(row) + e + rest && IsLineEnd(e)
    ensures BlankStart(s) <==> Normal(row) == [[]]
    ensures s[0] == '\n' ==> Normal(row) == [[]] && e == "\n"
  {
  }

  ghost function LinesOf(t: Table): (lines: seq<Line>)
  {
    if t == [] then [] else [Line(Normal(t[0]), Normal(t[0]) == [[]])] + LinesOf(t[1..])
  }

  /** The text of a table, each row with a line end of its own. */
  ghost function EndedText(t: Table, ends: seq<string>): string
    requires |ends| == |t|
  {
    if t == [] then [] else RowText(t[0]) + ends[0] + EndedText(t[1..], ends[1..])
  }

  /** Line ends of the three kinds, but no CR before an empty line that ends in LF:
      the two read as one line end. */
  ghost predicate LineEnds(t: Table, ends: seq<string>)
    requires |ends| == |t|
  {
    && (forall i :: 0 <= i < |ends| ==> IsLineEnd(ends[i]))
    && (forall i :: 0 < i < |t| && ends[i - 1] == "\r" && ends[i] == "\n" ==> Normal(t[i]) != [[]])
  }

  lemma RestApart(t: Table, ends: seq<string>)
    requires t != [] && |ends| == |t| && LineEnds(t, ends)
    ensures Apart(ends[0], EndedText(t[1..], ends[1..])) && LineEnds(t[1..], ends[1..])
  {
    hide Normal, RowText;
    if |t| > 1 {
      var rest := EndedText(t[1..][1..], ends[1..][1..]);
      RowBlank(t[1], ends[1], rest, RowText(t[1]) + ends[1] + rest);
    }
  }

  /** A table is read back whatever its line ends are. */
  lemma {:induction false} EndedReads(t: Table, ends: seq<string>)
    requires |ends| == |t| && LineEnds(t, ends)
    ensures Lines(EndedText(t, ends)) == LinesOf(t)
  {
    hide Apart, LineEnds;
    if t == [] {
    } else {
      var e, rest := ends[0], EndedText(t[1..], ends[1..]);
      RestApart(t, ends);
      EndedReads(t[1..], ends[1..]);
      var s := RowText(t[0]) + e + rest;
      NonEmptyEnd(e, rest);
      RowReads(t[0], [], BlankStart(s), e, rest, s);
      RowBlank(t[0], e, rest, s);
      assert [] + Normal(t[0]) == Normal(t[0]);
    }
  }

  lemma NonEmptyEnd(e: string, rest: string)
    requires Apart(e, rest)
    ensures IsLineEnd(e) && e != []
  {
  }

  lemma {:induction false} TextIsEnded(t: Table)
    ensures TableText(t) == EndedText(t, seq(|t|, i => "\n"))
  {
    if t == [] {
    } else {
      TextIsEnded(t[1..]);
      assert seq(|t|, i => "\n")[1..] == seq(|t| - 1, i => "\n");
    }
  }

  /** Reading back a written table. */
  lemma TableReads(t: Table)
    ensures Lines(TableText(t)) == LinesOf(t)
  {
    TextIsEnded(t);
    EndedReads(t, seq(|t|, i => "\n"));
  }
}
