/** The record loop of `.import`: fields are read, aligned to the table's columns and bound to an INSERT statement. */
module CsvImport {
  import opened CStrings
  import opened Shell
  import opened CsvFormat
  import opened CsvRoundTrip
  import opened CsvReader
  import opened DumpSelect
  import opened Quoting
  import CsvPrinter

  /** A prepared INSERT. As in SQLite, bound parameters keep their values across `Step` and `Reset`. */
  class Insert {
    var params: seq<Cell>
    var executed: seq<seq<Cell>>  // the parameters of every execution, in order

    constructor (nCol: nat)
      ensures params == seq(nCol, _ => Null) && executed == []
    {
      params, executed := seq(nCol, _ => Null), [];
    }

    /** `sqlite3_bind_text` with length -1; a null pointer binds NULL. Parameters are numbered from 1. */
    method BindText(i: int, z: Option<string>)
      modifies this`params
      ensures params == if 1 <= i <= |old(params)|
                        then old(params)[i - 1 := if z.None? then Null else Text(CStr(z.value))] else old(params)
    {
      if 1 <= i <= |params| {
        params := params[i - 1 := if z.None? then Null else Text(CStr(z.value))];
      }
    }

    method BindNull(i: int)
      modifies this`params
      ensures params == if 1 <= i <= |old(params)| then old(params)[i - 1 := Null] else old(params)
    {
      if 1 <= i <= |params| {
        params := params[i - 1 := Null];
      }
    }

    method StepAndReset()
      modifies this`executed
      ensures executed == old(executed) + [params]
    {
      executed := executed + [params];
    }
  }

  /** The fields already read, in front of the record that the rest of the stream holds. */
  ghost function Prefixed(cells: seq<Cell>, r: Record): Record {
    r.(cells := cells + r.cells)
  }

  lemma PrefixedStep(before: seq<Cell>, s: string, col: char, row: char)
    requires s != "" && ReadField(s, col, row).term == Byte(col)
    ensures Prefixed(before, ReadRecord(s, col, row))
         == Prefixed(before + [FieldCell(s, col, row)], ReadRecord(ReadField(s, col, row).rest, col, row))
  {
  }

  /** The fields read so far are the whole record. */
  lemma PrefixedLast(before: seq<Cell>, s: string, col: char, row: char)
    requires s == "" || ReadField(s, col, row).term != Byte(col)
    ensures var r := Prefixed(before, ReadRecord(s, col, row));
            && r.cells == before + [FieldCell(s, col, row)]
            && (if s == "" then r.rest == "" && r.term == EOF
                else r.rest == ReadField(s, col, row).rest && r.term == ReadField(s, col, row).term)
  {
  }

  /** The columns of a short record from parameter `i` on: `while( i<=nCol ){ sqlite3_bind_null(pStmt, i); i++; }`. */
  method FillWithNull(stmt: Insert, i: nat, nCol: nat)
    requires 1 <= i <= nCol + 1 && |stmt.params| == nCol
    modifies stmt`params
    ensures stmt.params == Align(old(stmt.params)[..i - 1], nCol)
  {
    var j := i;
    while j <= nCol
      invariant i <= j <= nCol + 1 && |stmt.params| == nCol
      invariant forall k :: 0 <= k < nCol ==>
                  stmt.params[k] == if i - 1 <= k < j - 1 then Null else old(stmt.params)[k]
    {
      stmt.BindNull(j);
      j := j + 1;
    }
  }

  /** The first `i` parameters hold the first fields of record `r`; the others are still to be read from `rest`. */
  ghost predicate Going(r: Record, params: seq<Cell>, i: nat, rest: string, col: char, row: char) {
    i <= |params| && r == Prefixed(params[..i], ReadRecord(rest, col, row))
  }

  /** The parameters hold record `r`, fitted to their number. */
  ghost predicate Bound(r: Record, params: seq<Cell>, rest: string, term: Fgetc) {
    params == Align(r.cells, |params|) && term == r.term && rest == r.rest
  }

  lemma GoingStart(params: seq<Cell>, s: string, col: char, row: char)
    ensures Going(ReadRecord(s, col, row), params, 0, s, col, row)
  {
    var r := ReadRecord(s, col, row);
    assert Prefixed([], r) == r;
  }

  /** Binding the next field: the record goes on, or NULL for the missing columns completes it. */
  lemma GoingStep(r: Record, params: seq<Cell>, i: nat, s: string, rest: string, term: Fgetc, col: char, row: char)
    requires i < |params| && Going(r, params, i, s, col, row)
    requires if s == "" then rest == "" && term == EOF
             else var f := ReadField(s, col, row); rest == f.rest && term == f.term
    ensures var next := params[i := FieldCell(s, col, row)];
            if term == Byte(col) then Going(r, next, i + 1, rest, col, row)
            else Bound(r, Align(next[..i + 1], |params|), rest, term)
  {
    var next := params[i := FieldCell(s, col, row)];
    assert next[..i + 1] == params[..i] + [FieldCell(s, col, row)];
    if term == Byte(col) {
      PrefixedStep(params[..i], s, col, row);
    } else {
      PrefixedLast(params[..i], s, col, row);
    }
  }

  /** One field read and bound to parameter `i + 1`, unless the stream is at its end before the first column. */
  method ReadCell(ctx: ImportCtx, stmt: Insert, i: nat) returns (stop: bool)
    requires ctx.Valid() && ctx.z.Length > 0 && i < |stmt.params|
    modifies ctx`pos, ctx`z, ctx`n, ctx`nLine, ctx`cTerm, ctx.z, stmt`params
    ensures ctx.Valid() && (ctx.z == old(ctx.z) || fresh(ctx.z)) && ctx.z.Length > 0
    ensures stop == (i == 0 && old(ctx.Rest()) == "")
    ensures stmt.params == if stop then old(stmt.params)
                           else old(stmt.params)[i := FieldCell(old(ctx.Rest()), ctx.cColSep, ctx.cRowSep)]
    ensures if old(ctx.Rest()) == "" then ctx.Rest() == "" && ctx.cTerm == EOF
            else var f := ReadField(old(ctx.Rest()), ctx.cColSep, ctx.cRowSep);
                 ctx.Rest() == f.rest && ctx.cTerm == f.term
  {
    var found := ctx.ReadOneField();
    if !found && i == 0 {
      return true;
    }
    stmt.BindText(i + 1, if found then Some(ctx.z[..ctx.n]) else None);
    return false;
  }

  /** The loop `for(i=0; i<nCol; i++)` over the columns. The final loop variable is 0 when the stream was at its end,
      `nCol` when the columns were read from it, `nCol + 2` when some were missing. */
  method ReadCells(ctx: ImportCtx, stmt: Insert, nCol: nat) returns (i: nat)
    requires ctx.Valid() && ctx.z.Length > 0
    requires nCol == |stmt.params| > 0
    modifies ctx`pos, ctx`z, ctx`n, ctx`nLine, ctx`cTerm, ctx.z, stmt`params
    ensures ctx.Valid() && (ctx.z == old(ctx.z) || fresh(ctx.z)) && ctx.z.Length > 0
    ensures |stmt.params| == nCol
    ensures old(ctx.Rest()) == "" ==> i == 0 && ctx.cTerm == EOF && ctx.Rest() == ""
    ensures old(ctx.Rest()) != "" ==>
              var r := ReadRecord(old(ctx.Rest()), ctx.cColSep, ctx.cRowSep);
              i >= nCol &&
              if ctx.cTerm == Byte(ctx.cColSep) then Going(r, stmt.params, nCol, ctx.Rest(), ctx.cColSep, ctx.cRowSep)
              else Bound(r, stmt.params, ctx.Rest(), ctx.cTerm)
  {
    hide ReadField, FieldCell, ReadRecord, Going, Bound;
    ghost var col, row, s0 := ctx.cColSep, ctx.cRowSep, ctx.Rest();
    ghost var r := ReadRecord(s0, col, row);
    GoingStart(stmt.params, s0, col, row);
    i := 0;
    while i < nCol
      invariant ctx.Valid() && (ctx.z == old(ctx.z) || fresh(ctx.z)) && ctx.z.Length > 0
      invariant |stmt.params| == nCol
      invariant i == 0 ==> ctx.Rest() == s0
      invariant i > 0 ==> s0 != ""
      invariant if i == 0 || ctx.cTerm == Byte(col) then i <= nCol && Going(r, stmt.params, i, ctx.Rest(), col, row)
                else i >= nCol && Bound(r, stmt.params, ctx.Rest(), ctx.cTerm)
      decreases nCol - i
    {
      ghost var params, s := stmt.params, ctx.Rest();
      var stop := ReadCell(ctx, stmt, i);
      if stop {
        return;
      }
      GoingStep(r, params, i, s, ctx.Rest(), ctx.cTerm, col, row);
      if i < nCol - 1 && ctx.cTerm != Byte(ctx.cColSep) {
        FillWithNull(stmt, i + 2, nCol);
        i := nCol + 1;
      } else {
        assert i == nCol - 1 ==> stmt.params == Align(stmt.params[..i + 1], nCol);
      }
      i := i + 1;
    }
  }

  /** The loop that reads and drops extra fields. */
  method SkipExtras(ctx: ImportCtx, ghost cells: seq<Cell>, ghost r: Record)
    requires ctx.Valid() && ctx.z.Length > 0 && ctx.cTerm == Byte(ctx.cColSep)
    requires r == Prefixed(cells, ReadRecord(ctx.Rest(), ctx.cColSep, ctx.cRowSep))
    modifies ctx`pos, ctx`z, ctx`n, ctx`nLine, ctx`cTerm, ctx.z
    ensures ctx.Valid() && (ctx.z == old(ctx.z) || fresh(ctx.z)) && ctx.z.Length > 0
    ensures ctx.cTerm == r.term && ctx.Rest() == r.rest && cells <= r.cells
  {
    hide ReadRecord, ReadField, FieldCell;
    ghost var col, row, skipped := ctx.cColSep, ctx.cRowSep, [];
    while ctx.cTerm == Byte(ctx.cColSep)
      invariant ctx.Valid() && (ctx.z == old(ctx.z) || fresh(ctx.z)) && ctx.z.Length > 0
      invariant if ctx.cTerm == Byte(col) then
                  r == Prefixed(cells + skipped, ReadRecord(ctx.Rest(), col, row))
                else ctx.cTerm == r.term && ctx.Rest() == r.rest && cells <= r.cells
      decreases if ctx.cTerm == Byte(col) then |ctx.Rest()| + 1 else 0
    {
      ghost var s, before := ctx.Rest(), cells + skipped;
      var found := ctx.ReadOneField();
      if ctx.cTerm == Byte(ctx.cColSep) {
        PrefixedStep(before, s, col, row);
        skipped := skipped + [FieldCell(s, col, row)];
        assert cells + skipped == before + [FieldCell(s, col, row)];
      } else {
        PrefixedLast(before, s, col, row);
      }
    }
  }

  /** One pass of the record loop. A record that starts at the end of the stream executes nothing; any other executes
      the INSERT once, with every parameter bound from this record. */
  method ImportRecord(ctx: ImportCtx, stmt: Insert, nCol: nat)
    requires ctx.Valid() && ctx.z.Length > 0
    requires nCol == |stmt.params| > 0
    modifies ctx`pos, ctx`z, ctx`n, ctx`nLine, ctx`cTerm, ctx.z, stmt
    ensures ctx.Valid() && (ctx.z == old(ctx.z) || fresh(ctx.z)) && ctx.z.Length > 0
    ensures |stmt.params| == nCol
    ensures old(ctx.Rest()) == "" ==>
              ctx.cTerm == EOF && ctx.Rest() == "" && stmt.executed == old(stmt.executed)
    ensures old(ctx.Rest()) != "" ==>
              var r := ReadRecord(old(ctx.Rest()), ctx.cColSep, ctx.cRowSep);
              && ctx.cTerm == r.term && ctx.Rest() == r.rest
              && stmt.executed == old(stmt.executed) + [Align(r.cells, nCol)]
  {
    hide ReadRecord;
    ghost var s := ctx.Rest();
    ghost var r := ReadRecord(s, ctx.cColSep, ctx.cRowSep);
    var i := ReadCells(ctx, stmt, nCol);
    if ctx.cTerm == Byte(ctx.cColSep) {
      SkipExtras(ctx, stmt.params[..nCol], r);
      assert stmt.params == Align(r.cells, nCol);
    }
    if i >= nCol {
      stmt.StepAndReset();
    }
  }

  lemma ImportedStep(done: seq<seq<Cell>>, s: string, n: nat, col: char, row: char)
    ensures done + ImportedRows(s, n, col, row)
         == if s == "" then done
            else var r := ReadRecord(s, col, row);
                 (done + [Align(r.cells, n)]) + ImportedRows(r.rest, n, col, row)
  {
  }

  /** The import of a whole stream executes exactly the rows of `ImportedRows`, for any bytes. */
  method ImportRecords(ctx: ImportCtx, stmt: Insert, nCol: nat)
    requires ctx.Valid() && ctx.z.Length > 0 && nCol == |stmt.params| > 0
    modifies ctx`pos, ctx`z, ctx`n, ctx`nLine, ctx`cTerm, ctx.z, stmt
    ensures stmt.executed == old(stmt.executed) + ImportedRows(old(ctx.Rest()), nCol, ctx.cColSep, ctx.cRowSep)
    ensures ctx.cTerm == EOF && ctx.Rest() == ""
  {
    hide ReadRecord, Align, ImportedRows;
    ghost var col, row, before, s := ctx.cColSep, ctx.cRowSep, stmt.executed, ctx.Rest();
    ImportRecord(ctx, stmt, nCol);
    ImportedStep(before, s, nCol, col, row);
    while ctx.cTerm != EOF
      invariant ctx.Valid() && (ctx.z == old(ctx.z) || fresh(ctx.z)) && ctx.z.Length > 0
      invariant |stmt.params| == nCol
      invariant before + ImportedRows(s, nCol, col, row) == stmt.executed + ImportedRows(ctx.Rest(), nCol, col, row)
      invariant ctx.cTerm == EOF ==> ctx.Rest() == ""
      decreases if ctx.cTerm == EOF then 0 else |ctx.Rest()| + 1
    {
      ghost var rest, done := ctx.Rest(), stmt.executed;
      ImportRecord(ctx, stmt, nCol);
      ImportedStep(done, rest, nCol, col, row);
    }
    ImportedStep(stmt.executed, "", nCol, col, row);
  }

  // ---------------------------------------------------------------- creating the table

  /** The column names that a first record gives. */
  function HeaderOf(cells: seq<Cell>): seq<string> {
    if cells == [] || cells[0] == Null then [] else [cells[0].text] + HeaderOf(cells[1..])
  }

  lemma {:induction false} HeaderOfTexts(names: seq<string>, cells: seq<Cell>)
    ensures HeaderOf(Texts(names) + cells) == names + HeaderOf(cells)
  {
    if names == [] {
      assert Texts(names) + cells == cells;
    } else {
      var all := Texts(names) + cells;
      assert all[1..] == Texts(names[1..]) + cells;
      HeaderOfTexts(names[1..], cells);
    }
  }

  /** The column definitions, each name quoted. */
  function ColumnDefs(names: seq<string>): string {
    if names == [] then ""
    else
      var init := names[..|names| - 1];
      ColumnDefs(init) + ColumnDef(init == [], names[|names| - 1])
  }

  function ColumnDef(first: bool, name: string): string {
    (if first then "(" else ",") + "\n  " + Quoted(name, '"') + " TEXT"
  }

  lemma ColumnDefsSnoc(head: string, names: seq<string>, name: string)
    ensures head + ColumnDefs(names + [name]) == head + ColumnDefs(names) + ColumnDef(names == [], name)
  {
    hide ColumnDef;
    assert (names + [name])[..|names|] == names;
    Concat(head, ColumnDefs(names), ColumnDef(names == [], name));
  }

  function CreateText(zTable: string, names: seq<string>): string {
    "CREATE TABLE " + zTable + ColumnDefs(names) + "\n)"
  }

  /** The loop that reads the first record and builds the CREATE TABLE statement from it. */
  method ReadHeader(ctx: ImportCtx, zTable: string) returns (names: seq<string>, zCreate: string)
    requires ctx.Valid() && ctx.z.Length > 0
    modifies ctx`pos, ctx`z, ctx`n, ctx`nLine, ctx`cTerm, ctx.z
    ensures ctx.Valid() && (ctx.z == old(ctx.z) || fresh(ctx.z)) && ctx.z.Length > 0
    ensures var r := ReadRecord(old(ctx.Rest()), ctx.cColSep, ctx.cRowSep);
            ctx.cTerm == r.term && ctx.Rest() == r.rest && names == HeaderOf(r.cells)
    ensures zCreate == "CREATE TABLE " + zTable + ColumnDefs(names)
  {
    hide ReadRecord, ReadField, CStr, Quoted, HeaderOf;
    ghost var col, row := ctx.cColSep, ctx.cRowSep;
    ghost var r := ReadRecord(ctx.Rest(), col, row);
    assert Texts([]) + r.cells == r.cells && Prefixed(Texts([]), r) == r && ColumnDefs([]) == "";
    hide ColumnDefs, Prefixed;
    var cSep, more := "(", true;
    names, zCreate := [], "CREATE TABLE " + zTable;
    ghost var head := zCreate;
    while more
      invariant ctx.Valid() && (ctx.z == old(ctx.z) || fresh(ctx.z)) && ctx.z.Length > 0
      invariant cSep == (if names == [] then "(" else ",") && zCreate == head + ColumnDefs(names)
      invariant if more then r == Prefixed(Texts(names), ReadRecord(ctx.Rest(), col, row))
                else ctx.cTerm == r.term && ctx.Rest() == r.rest && names == HeaderOf(r.cells)
      decreases if more then |ctx.Rest()| + 1 else 0
    {
      ghost var s, before := ctx.Rest(), names;
      var found := ctx.ReadOneField();
      more := found && ctx.cTerm == Byte(ctx.cColSep);
      if found {
        var name := CStr(ctx.z[..ctx.n]);
        ColumnDefsSnoc(head, names, name);
        zCreate := zCreate + (cSep + "\n  " + Quoted(name, '"') + " TEXT");
        names, cSep := names + [name], ",";
      }
      HeaderStep(r, before, names, s, col, row);
    }
  }

  /** Another field was read, or there was none. */
  lemma HeaderStep(r: Record, before: seq<string>, names: seq<string>, s: string, col: char, row: char)
    requires r == Prefixed(Texts(before), ReadRecord(s, col, row))
    requires names == if s == "" then before else before + [CStr(ReadField(s, col, row).text)]
    ensures if s == "" then r.term == EOF && r.rest == "" && names == HeaderOf(r.cells)
            else var f := ReadField(s, col, row);
                 if f.term == Byte(col) then r == Prefixed(Texts(names), ReadRecord(f.rest, col, row))
                 else r.term == f.term && r.rest == f.rest && names == HeaderOf(r.cells)
  {
    hide ReadRecord, ReadField, CStr;
    var name := if s == "" then "" else CStr(ReadField(s, col, row).text);
    assert Texts(before + [name]) == Texts(before) + [Text(name)];
    hide Texts;
    if s == "" {
      PrefixedLast(Texts(before), s, col, row);
      HeaderOfTexts(before, [Null]);
      assert before + [] == before;
    } else {
      if ReadField(s, col, row).term == Byte(col) {
        PrefixedStep(Texts(before), s, col, row);
      } else {
        PrefixedLast(Texts(before), s, col, row);
        HeaderOfTexts(names, []);
        assert Texts(names) + [] == Texts(names) && names + [] == names;
      }
    }
  }

  /** The definitions as pieces of SQL. */
  function DefPieces(names: seq<string>): seq<Piece> {
    if names == [] then []
    else
      var init := names[..|names| - 1];
      DefPieces(init) + DefPiece(init == [], names[|names| - 1])
  }

  function DefPiece(first: bool, name: string): seq<Piece> {
    [Plain((if first then "(" else ",") + "\n  "), Quote(name, '"'), Plain(" TEXT")]
  }

  lemma OneDef(first: bool, name: string)
    ensures var piece := DefPiece(first, name);
            && Render(piece) == ColumnDef(first, name) && Separated(piece) && PieceNames(piece, '"') == [name]
            && piece != [] && piece[0].Plain?
  {
    hide Render, Separated, PieceNames, Quoted;
    var sep := (if first then "(" else ",") + "\n  ";
    assert IsPlain(sep) && IsPlain(" TEXT");
    RenderTriple(sep, name, " TEXT", '"');
    SeparatedTriple(sep, name, " TEXT", '"');
    NamesOfTriple(sep, name, " TEXT", '"', '"');
  }

  lemma DefsStep(init: seq<string>, name: string)
    ensures DefPieces(init + [name]) == DefPieces(init) + DefPiece(init == [], name)
    ensures ColumnDefs(init + [name]) == ColumnDefs(init) + ColumnDef(init == [], name)
  {
    var names := init + [name];
    assert names[..|names| - 1] == init;
    hide ColumnDef, DefPiece;
  }

  lemma {:induction false} DefsAreRendered(names: seq<string>)
    ensures Render(DefPieces(names)) == ColumnDefs(names) && Separated(DefPieces(names))
    ensures PieceNames(DefPieces(names), '"') == names
  {
    if names != [] {
      hide *;
      var init, name := names[..|names| - 1], names[|names| - 1];
      var piece := DefPiece(init == [], name);
      assert names == init + [name];
      DefsStep(init, name);
      DefsAreRendered(init);
      OneDef(init == [], name);
      RenderAppend(DefPieces(init), piece);
      SeparatedAppend(DefPieces(init), piece);
      PieceNamesAppend(DefPieces(init), piece, '"');
    }
  }

  /** Read as SQL, the column definitions name exactly the columns, in order, whatever the names hold. */
  lemma CreatedColumns(names: seq<string>)
    ensures Names(Lex(ColumnDefs(names))) == names && Unclosed !in Lex(ColumnDefs(names))
  {
    hide Lex, Render, Names, Separated, Tokens, PieceNames;
    DefsAreRendered(names);
    LexRendered(DefPieces(names));
    NamesOfPieces(DefPieces(names));
    NothingUnclosed(DefPieces(names));
  }

  // ---------------------------------------------------------------- the command

  /** The table as the database has it; when it is missing, whether a CREATE TABLE succeeds. */
  datatype Table = Columns(n: nat) | Missing(creates: string -> bool)

  datatype Result = Imported(rows: seq<seq<Cell>>) | Created(sql: string, rows: seq<seq<Cell>>)
                  | EmptyFile | CreateFailed(sql: string)
                  | NoColumnSeparator | MultiCharColumnSeparator | NoRowSeparator | MultiCharRowSeparator

  /** What an import into a table does. A missing table is created with the fields of the first record for its
      columns. */
  function ImportInto(table: Table, zTable: string, file: string, col: char, row: char): Result {
    match table
    case Columns(n) => Imported(if n == 0 then [] else ImportedRows(file, n, col, row))
    case Missing(creates) =>
      var first := ReadRecord(file, col, row);
      var names := HeaderOf(first.cells);
      var sql := CreateText(zTable, names);
      if names == [] then EmptyFile
      else if !creates(sql) then CreateFailed(sql)
      else Created(sql, ImportedRows(first.rest, |names|, col, row))
  }

  /** `.import`, when the separators are right. */
  method ImportTable(table: Table, zTable: string, file: string, col: char, row: char) returns (r: Result)
    ensures r == ImportInto(table, zTable, file, col, row)
  {
    hide ReadRecord, ImportedRows, ColumnDefs, HeaderOf;
    var ctx := new ImportCtx(file, col, row);
    assert ctx.Rest() == file;
    ctx.AppendChar(NUL);  // to ensure that the buffer is allocated
    var nCol, sql := 0, "";
    match table {
      case Columns(n) =>
        nCol := n;
      case Missing(creates) =>
        var names, zCreate := ReadHeader(ctx, zTable);
        if names == [] {
          return EmptyFile;
        }
        sql := zCreate + "\n)";
        if !creates(sql) {
          return CreateFailed(sql);
        }
        nCol := |names|;
    }
    if nCol == 0 {
      return Imported([]);
    }
    var stmt := new Insert(nCol);
    ImportRecords(ctx, stmt, nCol);
    return if table.Columns? then Imported(stmt.executed) else Created(sql, stmt.executed);
  }

  /** `.import`. In CSV mode the default output row separator CR LF stands for the default input row separator. The byte
      255 alone is no separator here: it is equal to the end of the file. */
  method Import(p: ShellState, csvMode: bool, file: string, table: Table, zTable: string) returns (r: Result)
    requires p.colSeparator != ['\U{FF}'] && p.rowSeparator != ['\U{FF}']
    modifies p`rowSeparator
    ensures p.rowSeparator == if r != NoColumnSeparator && r != MultiCharColumnSeparator && csvMode
                                 && old(p.rowSeparator) == "\r\n" then "\n" else old(p.rowSeparator)
    ensures r == if p.colSeparator == "" then NoColumnSeparator
                 else if |p.colSeparator| > 1 then MultiCharColumnSeparator
                 else if p.rowSeparator == "" then NoRowSeparator
                 else if |p.rowSeparator| > 1 then MultiCharRowSeparator
                 else ImportInto(table, zTable, file, Separator(p.colSeparator[0]), Separator(p.rowSeparator[0]))
  {
    hide ReadRecord, ImportedRows, HeaderOf, CreateText;
    if |p.colSeparator| == 0 {
      return NoColumnSeparator;
    }
    if |p.colSeparator| > 1 {
      return MultiCharColumnSeparator;
    }
    if |p.rowSeparator| == 0 {
      return NoRowSeparator;
    }
    if |p.rowSeparator| == 2 && csvMode && p.rowSeparator == "\r\n" {
      p.rowSeparator := "\n";
    }
    if |p.rowSeparator| > 1 {
      return MultiCharRowSeparator;
    }
    r := ImportTable(table, zTable, file, Separator(p.colSeparator[0]), Separator(p.rowSeparator[0]));
  }

  // ---------------------------------------------------------------- export and import

  ghost predicate Exportable(rows: seq<seq<string>>, names: seq<string>) {
    && names != [] && (forall i :: 0 <= i < |names| ==> NulFree(names[i]))
    && forall r :: 0 <= r < |rows| ==> |rows[r]| == |names| && forall i :: 0 <= i < |names| ==> NulFree(rows[r][i])
  }

  /** Exporting a result set in CSV mode and importing the file gives back the rows. */
  method ExportAndImport(rows: seq<seq<string>>, azCol: seq<Option<string>>, nullValue: string, zTable: string)
    returns (r: Result)
    requires Exportable(rows, CsvPrinter.HeaderNames(azCol))
    ensures r == Imported(TextRows(rows))
  {
    hide ImportedRows, PrintedTable, TextRows;
    var p := new ShellState(",", "\r\n", nullValue, false, "");
    CsvPrinter.PrintTable(p, rows, azCol);
    assert p.out == PrintedTable(rows, [','], "\r\n");
    r := Import(p, true, p.out, Columns(|azCol|), zTable);
    PrintedIsImported(rows, |azCol|);
  }

  /** With the header on and no such table, the import creates it with exactly the exported column names and then gives
      back the rows. Without a row not even the header is printed. */
  method ExportAndCreate(rows: seq<seq<string>>, azCol: seq<Option<string>>, nullValue: string, zTable: string)
    returns (r: Result)
    requires Exportable(rows, CsvPrinter.HeaderNames(azCol))
    ensures r == if rows == [] then EmptyFile
                 else Created(CreateText(zTable, CsvPrinter.HeaderNames(azCol)), TextRows(rows))
  {
    hide ImportedRows, PrintedTable, TextRows, ReadRecord, CreateText, HeaderOf, CsvPrinter.HeaderNames;
    var p := new ShellState(",", "\r\n", nullValue, true, "");
    CsvPrinter.PrintTable(p, rows, azCol);
    ghost var all := if rows == [] then [] else [CsvPrinter.HeaderNames(azCol)] + rows;
    assert p.out == PrintedTable(all, [','], "\r\n");
    r := Import(p, true, p.out, Missing(_ => true), zTable);
    HeaderRoundTrip(rows, CsvPrinter.HeaderNames(azCol));
    if rows != [] {
      PrintedIsImported(rows, |azCol|);
    }
  }

  /** With the default separators the rows come back. */
  lemma PrintedIsImported(rows: seq<seq<string>>, n: nat)
    requires n > 0 && forall r :: 0 <= r < |rows| ==> |rows[r]| == n && forall i :: 0 <= i < n ==> NulFree(rows[r][i])
    ensures ImportedRows(PrintedTable(rows, [','], "\r\n"), n, ',', '\n') == TextRows(rows)
  {
    assert PrintedRow([], [','], "") == "";
    hide PrintedTable, PrintedRow, ImportedRows, FittedRows, TextRows;
    TableRoundTrip(rows, [], n, "\r\n", ',');
    FittedWhole(rows, n);
    assert PrintedTable(rows, [','], "\r\n") + "" == PrintedTable(rows, [','], "\r\n") && rows + [] == rows;
  }

  lemma HeaderRoundTrip(rows: seq<seq<string>>, names: seq<string>)
    requires Exportable(rows, names)
    ensures var first := ReadRecord(PrintedTable(if rows == [] then [] else [names] + rows, [','], "\r\n"), ',', '\n');
            HeaderOf(first.cells) == (if rows == [] then [] else names) &&
            (rows != [] ==> first.rest == PrintedTable(rows, [','], "\r\n"))
  {
    hide PrintedRow;
    if rows != [] {
      hide ReadRecord;
      var rest := PrintedTable(rows, [','], "\r\n");
      assert ([names] + rows)[1..] == rows;
      RowRoundTrip(names, "\r\n", rest, ',');
      HeaderOfTexts(names, []);
      assert Texts(names) + [] == Texts(names) && names + [] == names;
    }
  }

  // ---------------------------------------------------------------- NULL cells

  /** A printed cell as it stands in the file: NULL as the null value, without quotes. */
  function CellAsWritten(z: Option<string>, sep: string, nullValue: string): Written {
    match z
    case None => Written(nullValue, false)
    case Some(s) => Written(s, MustQuote(s, sep))
  }

  function CellsAsWritten(cells: seq<Option<string>>, sep: string, nullValue: string): (r: seq<Written>)
    ensures |r| == |cells|
  {
    seq(|cells|, i requires 0 <= i < |cells| => CellAsWritten(cells[i], sep, nullValue))
  }

  lemma {:induction false} CellsAreWritten(cells: seq<Option<string>>, sep: string, rowEnd: string, nullValue: string)
    ensures CsvPrinter.PrintedCells(cells, sep, rowEnd, nullValue)
         == WrittenRow(CellsAsWritten(cells, sep, nullValue), sep, rowEnd)
  {
    if cells != [] {
      hide MustQuote, Doubled;
      CellsAreWritten(cells[1..], sep, rowEnd, nullValue);
      assert CellsAsWritten(cells, sep, nullValue)[1..] == CellsAsWritten(cells[1..], sep, nullValue);
    }
  }

  /** The text that a printed cell comes back as. */
  function ReadBack(cells: seq<Option<string>>, nullValue: string): seq<string> {
    seq(|cells|, i requires 0 <= i < |cells| => if cells[i].None? then nullValue else cells[i].value)
  }

  /** A printed row with NULL cells is read back as one record; NULL has become the text of the null value, which is
      lost as a NULL. */
  lemma NullIsText(cells: seq<Option<string>>, rowEnd: string, rest: string, nullValue: string, col: char)
    requires GoodSeparator(col) && (rowEnd == "\n" || rowEnd == "\r\n") && cells != []
    requires Writable(Written(nullValue, false), col, '\n') && CanEnd(Written(nullValue, false), rowEnd, '\n')
    requires NulFree(nullValue) && forall i :: 0 <= i < |cells| && cells[i].Some? ==> NulFree(cells[i].value)
    ensures ReadRecord(CsvPrinter.PrintedCells(cells, [col], rowEnd, nullValue) + rest, col, '\n')
         == Record(Texts(ReadBack(cells, nullValue)), rest, Byte('\n'))
  {
    hide WrittenRow, ReadRecord, MustQuote, Writable, CanEnd, CsvPrinter.PrintedCells;
    var ws := CellsAsWritten(cells, [col], nullValue);
    CellsAreWritten(cells, [col], rowEnd, nullValue);
    forall i | 0 <= i < |ws|
      ensures Writable(ws[i], col, '\n') && CanEnd(ws[i], rowEnd, '\n') && NulFree(ws[i].text)
    {
      if cells[i].Some? {
        UnquotedIsWritable(cells[i].value, rowEnd, col);
      }
    }
    RowIsRead(ws, rowEnd, rest, col, '\n');
    assert TextOf(ws) == ReadBack(cells, nullValue);
  }

  /** A field is cut at its first NUL, because it is bound as a C string. */
  lemma CutAtNul(a: string, b: string, quoted: bool, end: string, rest: string, col: char, row: char)
    requires var w := Written(a + [NUL] + b, quoted);
             Distinct(col, row) && Ends(end, rest, col, row) && Writable(w, col, row) && CanEnd(w, end, row)
    requires NulFree(a)
    ensures var w := Written(a + [NUL] + b, quoted); FieldCell(WrittenField(w) + end + rest, col, row) == Text(a)
  {
    hide ReadField;
    FieldIsRead(Written(a + [NUL] + b, quoted), end, rest, col, row);
    CStrStopsAtNul(a, b);
  }

  /** The statement for a file whose first record has two fields. */
  lemma CreateOfTwo(zTable: string, a: string, b: string)
    ensures CreateText(zTable, [a, b])
         == "CREATE TABLE " + zTable
          + ("(\n  " + Quoted(a, '"') + " TEXT" + (",\n  " + Quoted(b, '"') + " TEXT")) + "\n)"
  {
    assert [a, b][..1] == [a] && [a][..0] == [];
    assert ColumnDefs([]) == "" && "(" + "\n  " == "(\n  " && "," + "\n  " == ",\n  ";
    hide Quoted;
    assert ColumnDefs([a]) == "" + ("(\n  " + Quoted(a, '"') + " TEXT");
    assert ColumnDefs([a, b]) == ColumnDefs([a]) + (",\n  " + Quoted(b, '"') + " TEXT");
  }
}
