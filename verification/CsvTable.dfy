/** dyna:csv: the parser that fills a table and the serializer that writes one. */
module CsvTable {
  import opened Common
  import opened CsvFormat

  // ---- parser --------------------------------------------------------------------------------------------

  /** Read the inside of a quoted field, from after its opening quote. */
  method ReadQuoted(buf: string, start: nat) returns (fld: Cell, i: nat)
    requires start <= |buf|
    ensures start <= i <= |buf|
    ensures fld == Quoted(buf[start..]).text && buf[i..] == Quoted(buf[start..]).rest
  {
    hide Quoted;
    fld, i := [], start;
    ghost var all := Quoted(buf[start..]);
    while i < |buf|
      invariant start <= i <= |buf|
      invariant all.text == fld + Quoted(buf[i..]).text && all.rest == Quoted(buf[i..]).rest
    {
      QuotedAt(buf, i);
      var c := buf[i];
      if c == '"' {
        if i + 1 < |buf| && buf[i + 1] == '"' {
          Assoc(fld, ['"'], Quoted(buf[i + 2..]).text);
          fld := fld + ['"'];
          i := i + 2;
        } else {
          i := i + 1;
          return;
        }
      } else {
        Assoc(fld, [c], Quoted(buf[i + 1..]).text);
        fld := fld + [c];
        i := i + 1;
      }
    }
    QuotedAt(buf, i);
  }

  /** The next comma or line end, counted from i. */
  method FindStop(buf: string, i: nat) returns (p: nat)
    requires i <= |buf|
    ensures p == StopAt(buf[i..]) && i + p <= |buf|
  {
    p := 0;
    ghost var s := buf[i..];
    while i + p < |buf| && !Ends(buf[i + p])
      invariant i + p <= |buf| && forall k :: 0 <= k < p ==> !Ends(s[k])
    {
      assert s[p] == buf[i + p];
      p := p + 1;
    }
    if p < |s| { assert s[p] == buf[i + p]; }
  }

  /** One field, from i to the byte after it. */
  method ReadField(buf: string, start: nat) returns (fld: Cell, i: nat)
    requires start <= |buf|
    ensures start <= i <= |buf|
    ensures fld == FieldOf(buf[start..]).text && buf[i..] == FieldOf(buf[start..]).rest
  {
    ghost var s := buf[start..];
    if start < |buf| && buf[start] == '"' {
      assert s[1..] == buf[start + 1..];
      fld, i := ReadQuoted(buf, start + 1);
    } else {
      var p := FindStop(buf, start);
      fld, i := buf[start..start + p], start + p;
      assert s[..p] == fld && s[p..] == buf[i..];
    }
  }

  /** Where the record after the line end at j starts. */
  function RowEnd(buf: string, j: nat): (n: nat)
    requires j < |buf|
    ensures j < n <= |buf| && buf[n..] == AfterRow(buf[j..])
  {
    if buf[j] == '\r' && j + 1 < |buf| && buf[j + 1] == '\n' then j + 2 else j + 1
  }

  /** A field read at i, up to j, is the next one of the records from i. */
  lemma FieldStep(buf: string, i: nat, j: nat, row: Row, blank: bool, fld: Cell)
    requires i <= j <= |buf| && fld == FieldOf(buf[i..]).text && buf[j..] == FieldOf(buf[i..]).rest
    ensures j == |buf| ==> LinesFrom(buf[i..], row, blank) == [Line(row + [fld], blank)]
    ensures j < |buf| && buf[j] == ',' ==>
              LinesFrom(buf[i..], row, blank) == LinesFrom(buf[j + 1..], row + [fld], blank)
  {
    if j < |buf| { assert buf[j..][0] == buf[j] && buf[j..][1..] == buf[j + 1..]; }
  }

  lemma RowStep(buf: string, i: nat, j: nat, row: Row, blank: bool, fld: Cell)
    requires i <= j < |buf| && fld == FieldOf(buf[i..]).text && buf[j..] == FieldOf(buf[i..]).rest && buf[j] != ','
    ensures Rows(LinesFrom(buf[i..], row, blank)) == [row + [fld]] + Rows(LinesAt(buf, RowEnd(buf, j)))
  {
  }

  /** The records from position n on. */
  ghost function LinesAt(buf: string, n: nat): seq<Line>
    requires n <= |buf|
  {
    Lines(buf[n..])
  }

  /** Every record of the text, blank lines included, is a row of the table. */
  method Parse(buf: string) returns (t: Table)
    ensures t == Rows(Lines(buf))
  {
    hide LinesFrom, FieldOf, AfterRow, Rows, Lines;
    t := [];
    LinesHere(buf, 0);
    assert buf[0..] == buf;
    if |buf| == 0 { return; }
    var i: nat, row: Row := 0, [];
    ghost var blank := BlankStart(buf);
    ghost var all := Rows(Lines(buf));
    while true
      invariant i <= |buf|
      invariant t + Rows(LinesFrom(buf[i..], row, blank)) == all
      decreases |buf| - i
    {
      var fld, j := ReadField(buf, i);
      FieldStep(buf, i, j, row, blank, fld);
      if j >= |buf| {
        RowsOne(row + [fld], blank);
        t := t + [row + [fld]];
        return;
      }
      if buf[j] == ',' {
        row := row + [fld];
        i := j + 1;
        continue;
      }
      RowStep(buf, i, j, row, blank, fld);
      Assoc(t, [row + [fld]], Rows(LinesAt(buf, RowEnd(buf, j))));
      t := t + [row + [fld]];
      i := RowEnd(buf, j);
      LinesHere(buf, i);
      if i >= |buf| { return; }
      row, blank := [], BlankStart(buf[i..]);
    }
  }

  lemma LinesHere(buf: string, n: nat)
    requires n <= |buf|
    ensures n < |buf| ==> LinesAt(buf, n) == LinesFrom(buf[n..], [], BlankStart(buf[n..]))
    ensures n == |buf| ==> Rows(LinesAt(buf, n)) == []
  {
  }

  lemma RowsOne(row: Row, blank: bool)
    ensures Rows([Line(row, blank)]) == [row]
  {
  }

  // ---- serializer ----------------------------------------------------------------------------------------

  method FieldNeedsQuote(s: Cell) returns (q: bool)
    ensures q == NeedsQuote(CString(s))
  {
    var p := 0;
    while p < |s| && s[p] != '\0'
      invariant p <= |CString(s)| && forall k :: 0 <= k < p ==> !Ends(s[k]) && s[k] != '"'
    {
      if Ends(s[p]) || s[p] == '"' {
        assert CString(s)[p] == s[p];
        return true;
      }
      p := p + 1;
    }
    return false;
  }

  lemma {:induction false} DoubledSnoc(s: Cell, c: char)
    ensures Doubled(s + [c]) == Doubled(s) + if c == '"' then ['"', '"'] else [c]
  {
    if s == [] {
      assert s + [c] == [c] && [c][1..] == [];
    } else {
      assert (s + [c])[1..] == s[1..] + [c];
      DoubledSnoc(s[1..], c);
    }
  }

  /** The part of a cell the serializer sees. */
  method Strlen(s: Cell) returns (n: nat)
    ensures n == |CString(s)|
  {
    n := 0;
    while n < |s| && s[n] != '\0'
      invariant n <= |CString(s)|
    {
      n := n + 1;
    }
  }

  method EmitQuoted(out: string, s: Cell, n: nat) returns (r: string)
    requires n <= |s|
    ensures r == out + Doubled(s[..n])
  {
    hide Doubled;
    r := out;
    DoubledNone(out, Doubled([]) + out);
    for p := 0 to n
      invariant r == out + Doubled(s[..p])
    {
      DoubledSnoc(s[..p], s[p]);
      assert s[..p + 1] == s[..p] + [s[p]];
      ghost var was := r;
      if s[p] == '"' { r := r + ['"']; }
      r := r + [s[p]];
      assert r == was + if s[p] == '"' then ['"', '"'] else [s[p]];
      Assoc(out, Doubled(s[..p]), if s[p] == '"' then ['"', '"'] else [s[p]]);
    }
  }

  method EmitField(out: string, s: Cell) returns (r: string)
    ensures r == out + CellText(CString(s))
  {
    hide Doubled, NeedsQuote, CString;
    var q := FieldNeedsQuote(s);
    var n := Strlen(s);
    if !q { return out + s[..n]; }
    r := EmitQuoted(out + ['"'], s, n);
    r := r + ['"'];
  }

  method EmitRow(out: string, row: Row) returns (r: string)
    ensures r == out + RowText(row)
  {
    hide CellText, CString;
    r := out;
    for c := 0 to |row|
      invariant r + RowRest(row, c) == out + RowText(row)
    {
      RestStep(row, c);
      Assoc(r, if c > 0 then [','] else [], CellText(CString(row[c])) + RowRest(row, c + 1));
      if c > 0 { r := r + [',']; }
      Assoc(r, CellText(CString(row[c])), RowRest(row, c + 1));
      r := EmitField(r, row[c]);
    }
  }

  /** What is still to be written of a row after its first c cells. */
  ghost function RowRest(row: Row, c: nat): string
    requires c <= |row|
  {
    if c == 0 then RowText(row) else if c == |row| then [] else [','] + RowText(row[c..])
  }

  lemma RestStep(row: Row, c: nat)
    requires c < |row|
    ensures RowRest(row, c) == (if c > 0 then [','] else []) + (CellText(CString(row[c])) + RowRest(row, c + 1))
  {
  }

  /** The text of a table: cells quoted when they must be, cut at a NUL. */
  method Serialize(t: Table) returns (out: string)
    ensures out == TableText(t)
  {
    hide RowText;
    out := [];
    for r := 0 to |t|
      invariant out + TableText(t[r..]) == TableText(t)
    {
      TextStep(t, r);
      Assoc(out, RowText(t[r]), ['\n'] + TableText(t[r + 1..]));
      out := EmitRow(out, t[r]);
      Assoc(out, ['\n'], TableText(t[r + 1..]));
      out := out + ['\n'];
    }
  }

  lemma TextStep(t: Table, r: nat)
    requires r < |t|
    ensures TableText(t[r..]) == RowText(t[r]) + (['\n'] + TableText(t[r + 1..]))
  {
  }

  // ---- parse after serialize -----------------------------------------------------------------------------

  lemma {:induction false} RowsOf(t: Table)
    ensures Rows(LinesOf(t)) == NormalTable(t)
  {
    if t == [] {
    } else {
      RowsOf(t[1..]);
      RowsConcat([Line(Normal(t[0]), Normal(t[0]) == [[]])], LinesOf(t[1..]));
    }
  }

  /** A table reads back as itself exactly when every row has a cell and no cell holds
      a NUL; in general each row reads back as its normal form. */
  method SerializeParse(t: Table) returns (text: string, back: Table)
    ensures text == TableText(t) && back == Rows(Lines(text)) == NormalTable(t)
    ensures back == t <==> forall i :: 0 <= i < |t| ==> t[i] != [] && Plain(t[i])
  {
    text := Serialize(t);
    back := Parse(text);
    TableReads(t);
    RowsOf(t);
    forall i | 0 <= i < |t|
      ensures Normal(t[i]) == t[i] <==> t[i] != [] && Plain(t[i])
    {
      NormalIs(t[i]);
    }
  }

  /** No cell holds a NUL. */
  ghost predicate Plain(row: Row)
  {
    forall c :: 0 <= c < |row| ==> '\0' !in row[c]
  }

  lemma NormalIs(row: Row)
    ensures Normal(row) == row <==> row != [] && Plain(row)
  {
    forall c | 0 <= c < |row|
      ensures CString(row[c]) == row[c] <==> '\0' !in row[c]
    {
      CStringIs(row[c]);
    }
  }

  lemma CStringIs(s: Cell)
    ensures CString(s) == s <==> '\0' !in s
  {
  }
}
