/** A printed INSERT statement, read back as table, columns and values. The table name is stored in a form made for
    SQL, and so are the values; column names are printed as they are. */
module InsertRoundTrip {
  import opened CStrings
  import opened Quoting
  import opened Shell
  import opened InsertMode
  import opened SqlLiterals
  import opened DumpSelect

  // ---------------------------------------------------------------- reading an INSERT statement

  datatype Columns = BadColumns | Columns(names: seq<string>, rest: string)

  /** Names separated by commas and closed by a parenthesis, with whitespace around them. */
  function ReadColumns(s: string, reserved: set<string>): Columns
    decreases |s|
  {
    var t := s[SpaceRun(s)..];
    var r := ReadName(t, reserved);
    if r.NoName? then BadColumns
    else
      var u := t[r.length..][SpaceRun(t[r.length..])..];
      if u == "" then BadColumns
      else if u[0] == ')' then Columns([r.name], u[1..])
      else if u[0] != ',' then BadColumns
      else
        match ReadColumns(u[1..], reserved)
        case BadColumns => BadColumns
        case Columns(names, rest) => Columns([r.name] + names, rest)
  }

  datatype Insert = NoInsert | Insert(table: string, columns: Option<seq<string>>, values: seq<Value>, rest: string)

  function ReadValues(table: string, columns: Option<seq<string>>, s: string): Insert {
    if !(" VALUES(" <= s) then NoInsert
    else
      match LexList(s[8..])
      case BadList => NoInsert
      case Values(vs, rest) => Insert(table, columns, vs, rest)
  }

  /** The table, the columns if they are named, the values, and what follows the statement's last parenthesis. */
  function ReadInsert(s: string, reserved: set<string>): Insert {
    if !("INSERT INTO " <= s) then NoInsert
    else
      var r := ReadName(s[12..], reserved);
      if r.NoName? then NoInsert
      else
        var t := s[12..][r.length..];
        if t == "" || t[0] != '(' then ReadValues(r.name, None, t)
        else
          match ReadColumns(t[1..], reserved)
          case BadColumns => NoInsert
          case Columns(names, rest) => ReadValues(r.name, Some(names), rest)
  }

  // ---------------------------------------------------------------- column names

  predicate AllIdentifiers(names: seq<string>, reserved: set<string>) {
    forall i :: 0 <= i < |names| ==> IsIdentifier(names[i], reserved)
  }

  /** The length of a list of parts, each with a comma or parenthesis after it. */
  function ListLength(parts: seq<string>): nat {
    if parts == [] then 0 else |parts[0]| + 1 + ListLength(parts[1..])
  }

  lemma {:induction false} JoinedLength(parts: seq<string>)
    requires parts != []
    ensures |Joined(parts)| + 1 == ListLength(parts)
  {
    if |parts| > 1 {
      JoinedLength(parts[1..]);
    } else {
      assert parts[1..] == [];
    }
  }

  lemma {:induction false} UndoubledLength(s: string, q: char)
    ensures |Undoubled(s, q)| <= |s|
  {
    if s != "" {
      UndoubledLength(s[..|s| - 1], q);
    }
  }

  /** A name is no longer than what it is read from, and as long only when it is an identifier. */
  lemma NameLength(s: string, reserved: set<string>)
    ensures var r := ReadName(s, reserved);
            r.Named? ==> |r.name| < r.length || (|r.name| == r.length && IsIdentifier(r.name, reserved))
  {
    if s != "" {
      var n := ClosingQuote(s[1..], s[0]);
      UndoubledLength(s[1..1 + n], s[0]);
    }
  }

  /** So are the names of a list: the separators are always there. */
  lemma {:induction false} ColumnsLength(s: string, reserved: set<string>)
    ensures var r := ReadColumns(s, reserved);
            r.Columns? ==> |s| > |r.rest| + ListLength(r.names)
                           || (|s| == |r.rest| + ListLength(r.names) && AllIdentifiers(r.names, reserved))
    decreases |s|
  {
    hide ReadName, IsIdentifier, SpaceRun, ListLength, AllIdentifiers;
    var t := s[SpaceRun(s)..];
    var r := ReadName(t, reserved);
    NameLength(t, reserved);
    if r.Named? {
      var u := t[r.length..][SpaceRun(t[r.length..])..];
      OneMoreName(r.name, [], reserved);
      assert [r.name] + [] == [r.name];
      if u != "" && u[0] == ',' {
        var tail := ReadColumns(u[1..], reserved);
        ColumnsLength(u[1..], reserved);
        if tail.Columns? {
          OneMoreName(r.name, tail.names, reserved);
        }
      }
    }
  }

  lemma OneMoreName(name: string, names: seq<string>, reserved: set<string>)
    ensures ListLength([name] + names) == |name| + 1 + ListLength(names)
    ensures IsIdentifier(name, reserved) && AllIdentifiers(names, reserved) ==> AllIdentifiers([name] + names, reserved)
    ensures ListLength([]) == 0 && AllIdentifiers([], reserved)
  {
    hide IsIdentifier;
    assert ([name] + names)[1..] == names;
  }

  lemma IdentifierIsRead(name: string, rest: string, reserved: set<string>)
    requires IsIdentifier(name, reserved) && rest != "" && (rest[0] == ',' || rest[0] == ')')
    ensures SpaceRun(name + rest) == 0 && ReadName(name + rest, reserved) == Named(name, |name|)
  {
    hide Upper;
    NameRunIs(name, rest);
    assert (name + rest)[0] == name[0] && (name + rest)[..|name|] == name;
  }

  lemma NameStep(name: string, tail: string, reserved: set<string>)
    requires IsIdentifier(name, reserved) && tail != "" && (tail[0] == ',' || tail[0] == ')')
    ensures ReadColumns(name + tail, reserved) ==
            if tail[0] == ')' then Columns([name], tail[1..])
            else match ReadColumns(tail[1..], reserved)
                 case BadColumns => BadColumns
                 case Columns(names, rest) => Columns([name] + names, rest)
  {
    assert SpaceRun(tail) == 0;
    hide ReadName, IsIdentifier, SpaceRun;
    var s := name + tail;
    IdentifierIsRead(name, tail, reserved);
    assert s[0..] == s && s[|name|..] == tail && tail[0..] == tail;
  }

  /** Identifiers are read back as they were printed. */
  lemma {:induction false} IdentifiersAreRead(names: seq<string>, rest: string, reserved: set<string>)
    requires names != [] && AllIdentifiers(names, reserved)
    ensures ReadColumns(Joined(names) + ")" + rest, reserved) == Columns(names, rest)
  {
    hide ReadColumns, IsIdentifier;
    var list := if |names| == 1 then "" else Joined(names[1..]) + ")" + rest;
    var tail := if |names| == 1 then ")" + rest else "," + list;
    assert Joined(names) + ")" + rest == names[0] + tail;
    hide Joined;
    NameStep(names[0], tail, reserved);
    if |names| == 1 {
      assert tail[1..] == rest;
    } else {
      assert tail[1..] == list;
      IdentifiersAreRead(names[1..], rest, reserved);
      assert [names[0]] + names[1..] == names;
    }
  }

  // ---------------------------------------------------------------- the length of values

  /** The length of the literals of a value. */
  function ValueLength(v: Value): nat {
    match v
    case NullValue => 4
    case TextValue(text) => |Quoted(text, APOSTROPHE)|
    case NumberValue(digits) => |digits|
    case BlobValue(bytes) => 2 * |bytes| + 3
  }

  function ValuesLength(vs: seq<Value>): nat {
    if vs == [] then 0 else ValueLength(vs[0]) + 1 + ValuesLength(vs[1..])
  }

  /** What stands before the closing quote is a doubled text. */
  lemma {:induction false} ClosedIsDoubled(s: string, q: char) returns (text: string)
    requires ClosingQuote(s, q) < |s|
    ensures s[..ClosingQuote(s, q)] == Doubled(text, q)
    decreases |s|
  {
    var n := ClosingQuote(s, q);
    if s[0] != q {
      var rest := ClosedIsDoubled(s[1..], q);
      text := [s[0]] + rest;
      DoubledCons(text, q);
      assert s[..n] == [s[0]] + s[1..][..n - 1] && text[1..] == rest;
    } else if |s| > 1 && s[1] == q {
      var rest := ClosedIsDoubled(s[2..], q);
      text := [q] + rest;
      DoubledCons(text, q);
      assert s[..n] == [q, q] + s[2..][..n - 2] && text[1..] == rest;
    } else {
      text := "";
    }
  }

  lemma {:induction false} HexBytesLength(s: string)
    ensures HexBytes(s).Some? ==> |s| == 2 * |HexBytes(s).value|
  {
    if |s| > 1 {
      HexBytesLength(s[2..]);
    }
  }

  lemma {:induction false} HexLength(blob: seq<byte>)
    ensures |Hex(blob)| == 2 * |blob|
  {
    if blob != [] {
      HexLength(blob[1..]);
    }
  }

  /** All literals of a value have the same length. */
  lemma LiteralLength(s: string)
    ensures var l := LexLiteral(s); l.Lexed? ==> l.length == ValueLength(l.v)
  {
    hide Doubled, Undoubled, HexBytes, NumberLength, ClosingQuote;
    if s != "" && s[0] == APOSTROPHE {
      var n := ClosingQuote(s[1..], APOSTROPHE);
      if n < |s[1..]| {
        var text := ClosedIsDoubled(s[1..], APOSTROPHE);
        DoubledRoundTrip(text, APOSTROPHE);
      }
    } else if |s| > 1 && ToUpper(s[0]) == 'X' && s[1] == APOSTROPHE {
      HexBytesLength(s[2..][..ClosingQuote(s[2..], APOSTROPHE)]);
    }
  }

  lemma {:induction false} ValuesAreAsLong(s: string)
    ensures var r := LexList(s); r.Values? ==> |s| == |r.rest| + ValuesLength(r.vs)
    decreases |s|
  {
    hide LexLiteral, ValueLength;
    var l := LexLiteral(s);
    LiteralLength(s);
    if l.Lexed? && l.length < |s| {
      assert ValuesLength([l.v]) == ValueLength(l.v) + 1 + ValuesLength([]);
      if s[l.length] == ',' {
        ValuesAreAsLong(s[l.length + 1..]);
        var tail := LexList(s[l.length + 1..]);
        if tail.Values? {
          assert ([l.v] + tail.vs)[1..] == tail.vs;
        }
      }
    }
  }

  lemma PrintedLength(c: Cell, typed: bool, hasStmt: bool)
    ensures |PrintedLiteral(c, typed, hasStmt)| == ValueLength(CellValue(c, typed, hasStmt))
  {
    hide Hex, Doubled, IsNumberText;
    HexLength(c.blob);
  }

  /** Every literal is as long as its value's literals are, unprintable numbers included. */
  lemma {:induction false} LiteralsLength(row: seq<Cell>, typed: bool, hasStmt: bool)
    ensures ListLength(Literals(row, typed, hasStmt)) == ValuesLength(CellValues(row, typed, hasStmt))
  {
    hide PrintedLiteral, CellValue, ValueLength;
    if row != [] {
      PrintedLength(row[0], typed, hasStmt);
      LiteralsLength(row[1..], typed, hasStmt);
      assert Literals(row, typed, hasStmt)[1..] == Literals(row[1..], typed, hasStmt);
    }
  }

  // ---------------------------------------------------------------- the round trip

  /** The table name is not a reserved word without quotes, every column name that is printed is an identifier, and no
      cell is an unprintable number. */
  predicate Readable(zName: string, azCol: Option<seq<string>>, row: seq<Cell>, typed: bool, reserved: set<string>) {
    && !(IsPlainName(zName) && Upper(zName) in reserved)
    && (azCol.Some? ==> AllIdentifiers(azCol.value, reserved))
    && Printable(row, typed)
  }

  /** The part of the statement from VALUES on. */
  function ValuesPart(row: seq<Cell>, typed: bool, hasStmt: bool): string {
    " VALUES(" + (Joined(Literals(row, typed, hasStmt)) + ")" + ";\n")
  }

  lemma ValuesPartLength(row: seq<Cell>, typed: bool, hasStmt: bool)
    requires row != []
    ensures |ValuesPart(row, typed, hasStmt)| == 10 + ValuesLength(CellValues(row, typed, hasStmt))
  {
    hide Joined, Literals;
    JoinedLength(Literals(row, typed, hasStmt));
    LiteralsLength(row, typed, hasStmt);
  }

  /** The values are read back, if and only if no cell is an unprintable number. */
  lemma ValuesPartIsRead(table: string, cols: Option<seq<string>>, row: seq<Cell>, typed: bool, hasStmt: bool)
    requires row != []
    ensures ReadValues(table, cols, ValuesPart(row, typed, hasStmt))
         == Insert(table, cols, CellValues(row, typed, hasStmt), ";\n")
       <==> Printable(row, typed)
  {
    hide Joined, Literals, LexList, Printable;
    RowRoundTrip(row, typed, hasStmt, ";\n");
    assert ValuesPart(row, typed, hasStmt)[8..] == Joined(Literals(row, typed, hasStmt)) + ")" + ";\n";
  }

  /** Columns and values are read back from what follows the table name, if and only if the names are identifiers and
      the cells printable. */
  lemma ColumnsAndValues(table: string, cols: seq<string>, row: seq<Cell>, typed: bool, hasStmt: bool,
                         reserved: set<string>)
    requires row != [] && cols != []
    ensures var vs := CellValues(row, typed, hasStmt);
            (match ReadColumns(Joined(cols) + ")" + ValuesPart(row, typed, hasStmt), reserved)
             case BadColumns => NoInsert
             case Columns(names, rest) => ReadValues(table, Some(names), rest)) == Insert(table, Some(cols), vs, ";\n")
            <==> AllIdentifiers(cols, reserved) && Printable(row, typed)
  {
    hide Joined, Literals, LexList, Printable, ReadColumns, AllIdentifiers, ValuesPart;
    var part := ValuesPart(row, typed, hasStmt);
    var s := Joined(cols) + ")" + part;
    var r := ReadColumns(s, reserved);
    if AllIdentifiers(cols, reserved) {
      IdentifiersAreRead(cols, part, reserved);
      ValuesPartIsRead(table, Some(cols), row, typed, hasStmt);
    } else if r.Columns? && r.names == cols && " VALUES(" <= r.rest {
      ColumnsLength(s, reserved);
      JoinedLength(cols);
      ValuesPartLength(row, typed, hasStmt);
      ValuesAreAsLong(r.rest[8..]);
    }
  }

  /** The text after the table name. */
  function AfterTable(azCol: Option<seq<string>>, row: seq<Cell>, typed: bool, hasStmt: bool): string {
    (if azCol.Some? then "(" + (Joined(azCol.value) + ")") else "") + ValuesPart(row, typed, hasStmt)
  }

  lemma PrintedParts(table: string, azCol: Option<seq<string>>, row: seq<Cell>, typed: bool, hasStmt: bool)
    ensures var s := PrintedInsert(table, azCol, row, typed, hasStmt);
            "INSERT INTO " <= s && s[12..] == table + AfterTable(azCol, row, typed, hasStmt)
  {
    hide Joined, Literals;
    var s, list := PrintedInsert(table, azCol, row, typed, hasStmt), Joined(Literals(row, typed, hasStmt));
    var cols := if azCol.Some? then "(" + Joined(azCol.value) + ")" else "";
    assert s == "INSERT INTO " + (table + (cols + (" VALUES(" + (list + ")" + ";\n"))));
    assert s[12..] == table + (cols + (" VALUES(" + (list + ")" + ";\n")));
  }

  /** A statement printed in INSERT mode is read back as its table, columns and values, if and only if the table name is
      not a reserved word without quotes, the printed column names are identifiers and no cell is an unprintable
      number. */
  lemma InsertRoundTrip(zName: string, azCol: Option<seq<string>>, row: seq<Cell>, typed: bool, hasStmt: bool,
                        reserved: set<string>)
    requires row != [] && (azCol.Some? ==> |azCol.value| == |row|)
    ensures ReadInsert(PrintedInsert(TableName(zName), azCol, row, typed, hasStmt), reserved)
         == Insert(zName, azCol, CellValues(row, typed, hasStmt), ";\n")
       <==> Readable(zName, azCol, row, typed, reserved)
  {
    hide Joined, Literals, LexList, Printable, ReadColumns, AllIdentifiers, ValuesPart, ReadName, TableName, ReadValues;
    var s, tail := PrintedInsert(TableName(zName), azCol, row, typed, hasStmt), AfterTable(azCol, row, typed, hasStmt);
    PrintedParts(TableName(zName), azCol, row, typed, hasStmt);
    AfterTableStart(azCol, row, typed, hasStmt);
    TableNameRoundTrip(zName, tail, reserved);
    assert (TableName(zName) + tail)[|TableName(zName)|..] == tail;
    if azCol.Some? {
      ColumnsAndValues(zName, azCol.value, row, typed, hasStmt, reserved);
    } else {
      ValuesPartIsRead(zName, None, row, typed, hasStmt);
    }
  }

  lemma AfterTableStart(azCol: Option<seq<string>>, row: seq<Cell>, typed: bool, hasStmt: bool)
    ensures var t := AfterTable(azCol, row, typed, hasStmt);
            t != "" && !IsIdChar(t[0]) && t[0] != '\'' && (t[0] == '(' <==> azCol.Some?)
    ensures azCol.Some? ==>
              AfterTable(azCol, row, typed, hasStmt)[1..] == Joined(azCol.value) + ")" + ValuesPart(row, typed, hasStmt)
    ensures azCol.None? ==> AfterTable(azCol, row, typed, hasStmt) == ValuesPart(row, typed, hasStmt)
  {
    hide Joined, Literals;
  }

  /** With the header on, a column named `order` or `a b` makes the statement unreadable. */
  lemma ColumnNamesAreRaw(zName: string, value: Cell, typed: bool, hasStmt: bool, reserved: set<string>, name: string)
    requires "ORDER" in reserved && (name == "order" || name == "a b")
    ensures ReadInsert(PrintedInsert(TableName(zName), Some([name]), [value], typed, hasStmt), reserved)
         != Insert(zName, Some([name]), CellValues([value], typed, hasStmt), ";\n")
  {
    hide ReadInsert, PrintedInsert, TableName, CellValues;
    InsertRoundTrip(zName, Some([name]), [value], typed, hasStmt, reserved);
    if name == "order" {
      assert Upper("order") == "ORDER";
    } else {
      assert !IsIdChar("a b"[1]);
    }
    assert !IsIdentifier([name][0], reserved);
  }
}
