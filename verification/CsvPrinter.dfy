/** CSV output: `output_csv` and the MODE_Csv branch of `shell_callback`. */
module CsvPrinter {
  import opened CStrings
  import opened Quoting
  import opened Shell
  import opened CsvFormat

  /** The text of one cell: NULL is printed as the raw null value. */
  function PrintedCell(z: Option<string>, sep: string, nullValue: string): string {
    match z
    case None => nullValue
    case Some(s) => PrintedField(s, sep)
  }

  /** The first loop of `output_csv`: 0 when the text must be quoted, its length otherwise. */
  method ScanField(z: string, sep: string) returns (i: nat)
    ensures i == if MustQuote(z, sep) then 0 else |z|
  {
    i := 0;
    while i < |z|
      invariant 0 <= i <= |z|
      invariant forall j :: 0 <= j < i ==> !NeedCsvQuote(z[j]) && !SeparatorSeen(z, j, sep)
    {
      if NeedCsvQuote(z[i]) || SeparatorSeen(z, i, sep) {
        return 0;
      }
      i := i + 1;
    }
  }

  /** The second loop of `output_csv`. */
  method PutDoubled(p: ShellState, z: string)
    modifies p`out
    ensures p.out == old(p.out) + Doubled(z, QUOTE)
  {
    var i := 0;
    while i < |z|
      invariant 0 <= i <= |z|
      invariant p.out == old(p.out) + Doubled(z[..i], QUOTE)
    {
      Snoc(z[..i], z[i], QUOTE);
      assert z[..i + 1] == z[..i] + [z[i]];
      Concat(old(p.out), Doubled(z[..i], QUOTE), if z[i] == QUOTE then [QUOTE, QUOTE] else [z[i]]);
      if z[i] == QUOTE {
        p.out := p.out + [QUOTE, z[i]];
      } else {
        p.out := p.out + [z[i]];
      }
      i := i + 1;
    }
    assert z[..i] == z;
  }

  method OutputCsv(p: ShellState, z: Option<string>, bSep: bool)
    modifies p`out
    ensures p.out == old(p.out) + PrintedCell(z, p.colSeparator, p.nullValue) + if bSep then p.colSeparator else ""
  {
    hide Doubled;
    match z {
      case None =>
        p.out := p.out + p.nullValue;
      case Some(s) =>
        var i := ScanField(s, p.colSeparator);
        if i == 0 {
          p.out := p.out + [QUOTE];
          PutDoubled(p, s);
          p.out := p.out + [QUOTE];
        } else {
          p.out := p.out + s;
        }
    }
    if bSep {
      p.out := p.out + p.colSeparator;
    }
  }

  /** The cells of a row from column `i` on, each but the last followed by a separator, then the row separator. */
  function PrintedCells(cells: seq<Option<string>>, sep: string, rowSep: string, nullValue: string): string {
    if cells == [] then "" else
      PrintedCell(cells[0], sep, nullValue) +
      if |cells| == 1 then rowSep else sep + PrintedCells(cells[1..], sep, rowSep, nullValue)
  }

  /** What is still to be printed before cell `i`. */
  function CellsFrom(cells: seq<Option<string>>, i: nat, sep: string, rowSep: string, nullValue: string): string
    requires i <= |cells|
  {
    if i == |cells| then rowSep else PrintedCells(cells[i..], sep, rowSep, nullValue)
  }

  lemma CellsFromStep(cells: seq<Option<string>>, i: nat, sep: string, rowSep: string, nullValue: string)
    requires i < |cells|
    ensures CellsFrom(cells, i, sep, rowSep, nullValue)
         == (PrintedCell(cells[i], sep, nullValue) + if i < |cells| - 1 then sep else "")
            + CellsFrom(cells, i + 1, sep, rowSep, nullValue)
  {
    assert cells[i..][1..] == cells[i + 1..];
  }

  method OutputCells(p: ShellState, cells: seq<Option<string>>)
    requires cells != []
    modifies p`out
    ensures p.out == old(p.out) + PrintedCells(cells, p.colSeparator, p.rowSeparator, p.nullValue)
  {
    ghost var sep, rowSep, nul := p.colSeparator, p.rowSeparator, p.nullValue;
    ghost var out0 := p.out;
    ghost var all := CellsFrom(cells, 0, sep, rowSep, nul);
    assert cells[0..] == cells;
    Concat(out0, "", all);
    var i := 0;
    while i < |cells|
      invariant 0 <= i <= |cells|
      invariant out0 + all == p.out + CellsFrom(cells, i, sep, rowSep, nul)
    {
      ghost var before := p.out;
      OutputCsv(p, cells[i], i < |cells| - 1);
      ghost var cell := PrintedCell(cells[i], sep, nul);
      ghost var end := if i < |cells| - 1 then sep else "";
      Concat(before, cell, end);
      CellsFromStep(cells, i, sep, rowSep, nul);
      Concat(before, cell + end, CellsFrom(cells, i + 1, sep, rowSep, nul));
      i := i + 1;
    }
    p.out := p.out + p.rowSeparator;
  }

  /** MODE_Csv of `shell_callback`, for one row: the header, once, when it is wanted, then the row. */
  method ShellCallbackCsv(p: ShellState, azArg: seq<Option<string>>, azCol: seq<Option<string>>)
    requires |azArg| == |azCol|
    modifies p`out, p`cnt
    ensures p.cnt == old(p.cnt) + 1
    ensures p.out == old(p.out)
                   + (if old(p.cnt) == 0 && p.showHeader then
                        (if azCol == [] then p.rowSeparator else
                           PrintedCells(HeaderCells(azCol), p.colSeparator, p.rowSeparator, p.nullValue)) else "")
                   + PrintedCells(azArg, p.colSeparator, p.rowSeparator, p.nullValue)
  {
    ghost var none := PrintedCells([], p.colSeparator, p.rowSeparator, p.nullValue);
    assert none == "";
    hide PrintedCells;
    var first := p.cnt == 0;
    p.cnt := p.cnt + 1;
    if first && p.showHeader {
      if azCol == [] {
        p.out := p.out + p.rowSeparator;
      } else {
        OutputCells(p, HeaderCells(azCol));
      }
    }
    if azArg != [] {
      OutputCells(p, azArg);
    } else {
      assert p.out + none == p.out;
    }
  }

  /** A missing column name is printed as the empty text. */
  function HeaderCells(azCol: seq<Option<string>>): seq<Option<string>> {
    seq(|azCol|, i requires 0 <= i < |azCol| => if azCol[i].None? then Some("") else azCol[i])
  }

  function Cells(row: seq<string>): seq<Option<string>> {
    seq(|row|, i requires 0 <= i < |row| => Some(row[i]))
  }

  lemma {:induction false} CellsPrintAsRow(row: seq<string>, sep: string, rowSep: string, nullValue: string)
    ensures PrintedCells(Cells(row), sep, rowSep, nullValue) == PrintedRow(row, sep, rowSep)
  {
    if row != [] {
      assert Cells(row)[1..] == Cells(row[1..]);
      CellsPrintAsRow(row[1..], sep, rowSep, nullValue);
    }
  }

  function HeaderNames(azCol: seq<Option<string>>): (names: seq<string>)
    ensures |names| == |azCol|
  {
    seq(|azCol|, i requires 0 <= i < |azCol| => if azCol[i].None? then "" else azCol[i].value)
  }

  /** A column without a name gets an empty one. */
  lemma NamelessColumn(name: string)
    ensures HeaderNames([None, Some(name)]) == ["", name]
  {
  }

  lemma HeaderPrintsAsRow(azCol: seq<Option<string>>, sep: string, rowSep: string, nullValue: string)
    ensures PrintedCells(HeaderCells(azCol), sep, rowSep, nullValue) == PrintedRow(HeaderNames(azCol), sep, rowSep)
  {
    assert HeaderCells(azCol) == Cells(HeaderNames(azCol));
    CellsPrintAsRow(HeaderNames(azCol), sep, rowSep, nullValue);
  }

  /** The rows of the printed text: the header comes before the first row, if there is one. */
  function WithHeader(header: bool, azCol: seq<Option<string>>, rows: seq<seq<string>>): seq<seq<string>> {
    if header && rows != [] then [HeaderNames(azCol)] + rows else rows
  }

  /** One row of a result set, after the header if it is the first one. */
  method PrintRow(p: ShellState, row: seq<string>, azCol: seq<Option<string>>)
    requires |row| == |azCol| && azCol != []
    modifies p`out, p`cnt
    ensures p.cnt == old(p.cnt) + 1
    ensures var printed := WithHeader(old(p.cnt) == 0 && p.showHeader, azCol, [row]);
            p.out == old(p.out) + PrintedTable(printed, p.colSeparator, p.rowSeparator)
  {
    hide PrintedCells, PrintedRow, HeaderNames, HeaderCells;
    ghost var sep, rowSep, out0 := p.colSeparator, p.rowSeparator, p.out;
    ghost var header, text := PrintedRow(HeaderNames(azCol), sep, rowSep), PrintedRow(row, sep, rowSep);
    CellsPrintAsRow(row, sep, rowSep, p.nullValue);
    HeaderPrintsAsRow(azCol, sep, rowSep, p.nullValue);
    OneRow(row, sep, rowSep);
    TwoRows(HeaderNames(azCol), row, sep, rowSep);
    Concat(out0, header, text);
    ShellCallbackCsv(p, Cells(row), azCol);
    assert p.out == out0 + header + text || p.out == out0 + "" + text;
    assert out0 + "" == out0;
  }

  lemma OneRow(row: seq<string>, sep: string, rowSep: string)
    ensures PrintedTable([row], sep, rowSep) == PrintedRow(row, sep, rowSep)
  {
    hide PrintedRow;
    assert [row][1..] == [] && PrintedTable([], sep, rowSep) == "";
  }

  lemma TwoRows(row: seq<string>, next: seq<string>, sep: string, rowSep: string)
    ensures PrintedTable([row] + [next], sep, rowSep) == PrintedRow(row, sep, rowSep) + PrintedRow(next, sep, rowSep)
  {
    hide PrintedRow;
    OneRow(next, sep, rowSep);
    assert ([row] + [next])[1..] == [next];
  }

  lemma {:induction false} PrintedTableAppend(a: seq<seq<string>>, b: seq<seq<string>>, sep: string, rowSep: string)
    ensures PrintedTable(a + b, sep, rowSep) == PrintedTable(a, sep, rowSep) + PrintedTable(b, sep, rowSep)
  {
    if a == [] {
      assert a + b == b;
    } else {
      assert (a + b)[1..] == a[1..] + b;
      PrintedTableAppend(a[1..], b, sep, rowSep);
    }
  }

  /** Printing a result set of non-NULL cells, row by row: the header, once, when it is wanted and there is a row. */
  method PrintTable(p: ShellState, rows: seq<seq<string>>, azCol: seq<Option<string>>)
    requires azCol != [] && forall r :: 0 <= r < |rows| ==> |rows[r]| == |azCol|
    modifies p`out, p`cnt
    ensures var all := WithHeader(old(p.cnt) == 0 && p.showHeader, azCol, rows);
            p.out == old(p.out) + PrintedTable(all, p.colSeparator, p.rowSeparator)
  {
    hide PrintedTable, HeaderNames;
    ghost var sep, rowSep, out0 := p.colSeparator, p.rowSeparator, p.out;
    ghost var header := p.cnt == 0 && p.showHeader;
    NoRows(sep, rowSep);
    var r := 0;
    while r < |rows|
      invariant 0 <= r <= |rows| && p.cnt == old(p.cnt) + r
      invariant p.out == out0 + PrintedTable(WithHeader(header, azCol, rows[..r]), sep, rowSep)
    {
      ghost var done, before := WithHeader(header, azCol, rows[..r]), p.out;
      ghost var next := WithHeader(header && r == 0, azCol, [rows[r]]);
      PrintRow(p, rows[r], azCol);
      assert rows[..r + 1] == rows[..r] + [rows[r]];
      assert WithHeader(header, azCol, rows[..r + 1]) == done + next;
      PrintedTableAppend(done, next, sep, rowSep);
      Concat(out0, PrintedTable(done, sep, rowSep), PrintedTable(next, sep, rowSep));
      r := r + 1;
    }
    assert rows[..r] == rows;
  }

  lemma NoRows(sep: string, rowSep: string)
    ensures PrintedTable([], sep, rowSep) == ""
  {
  }
}
