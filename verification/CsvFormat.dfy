/** The CSV dialect of the shell: what a printed field looks like, and which text a reader recovers from any stream.
    Nothing here is computed the way the shell's loops do it; the loops are proved against these definitions. */
module CsvFormat {
  import opened CStrings
  import opened Quoting

  const QUOTE: char := '"'
  const CR: char := '\r'

  // ---------------------------------------------------------------- printing

  /** The characters marked 1 in the `needCsvQuote` table. */
  predicate NeedCsvQuote(c: char) {
    c <= ' ' || c == '"' || c == '\'' || c as int >= 127
  }

  /** A separator occurrence as `output_csv` sees it: a multi-character separator is only compared with the start of
      the text. */
  predicate SeparatorSeen(z: string, i: nat, sep: string)
    requires i < |z|
  {
    sep != "" && z[i] == sep[0] && (|sep| == 1 || sep <= z)
  }

  predicate MustQuote(z: string, sep: string) {
    z == "" || exists i :: 0 <= i < |z| && (NeedCsvQuote(z[i]) || SeparatorSeen(z, i, sep))
  }

  function PrintedField(z: string, sep: string): string {
    if MustQuote(z, sep) then Quoted(z, QUOTE) else z
  }

  function PrintedRow(row: seq<string>, sep: string, rowSep: string): string
  {
    if row == [] then "" else
      PrintedField(row[0], sep) + if |row| == 1 then rowSep else sep + PrintedRow(row[1..], sep, rowSep)
  }

  function PrintedTable(rows: seq<seq<string>>, sep: string, rowSep: string): string
  {
    if rows == [] then "" else PrintedRow(rows[0], sep, rowSep) + PrintedTable(rows[1..], sep, rowSep)
  }

  /** A field of one character is printed without quotes, if and only if it is a visible ASCII character other than the
      two kinds of quotes and the separator. */
  lemma OneCharacterField(c: char, sep: char)
    ensures PrintedField([c], [sep]) ==
            if '!' <= c <= '~' && c != '"' && c != '\'' && c != sep then [c]
            else if c == '"' then "\"\"\"\"" else "\"" + [c] + "\""
  {
    assert [c][..0] == "" && Doubled("", QUOTE) == "";
    assert MustQuote([c], [sep]) <==> NeedCsvQuote([c][0]) || SeparatorSeen([c], 0, [sep]);
  }

  /** Quoting looks at every character. */
  lemma AnyCharacterQuotes(z: string, sep: char)
    ensures MustQuote(z, [sep]) <==> z == "" || exists i :: 0 <= i < |z| && PrintedField([z[i]], [sep]) != [z[i]]
  {
    hide NeedCsvQuote;
    forall i | 0 <= i < |z|
      ensures PrintedField([z[i]], [sep]) != [z[i]] <==> NeedCsvQuote(z[i]) || SeparatorSeen(z, i, [sep])
    {
      assert MustQuote([z[i]], [sep]) <==> NeedCsvQuote([z[i]][0]) || SeparatorSeen([z[i]], 0, [sep]);
    }
  }

  /** A separator of several characters is only looked for at the start of the text. */
  lemma LongSeparator()
    ensures PrintedField("x--y", "--") == "x--y" && PrintedField("--y", "--") == "\"--y\""
  {
    var z, w := "x--y", "--y";
    assert !MustQuote(z, "--") by {
      assert z[0] != '-';
    }
    assert MustQuote(w, "--") by {
      assert w[..2] == "--" && "--" <= w;
      assert NeedCsvQuote(w[0]) || SeparatorSeen(w, 0, "--");
    }
    NothingToDouble(w, QUOTE);
    hide MustQuote, NeedCsvQuote, SeparatorSeen;
  }

  // ---------------------------------------------------------------- reading

  /** What `fgetc` returns. */
  datatype Fgetc = EOF | Byte(ch: char)

  function At(s: string, k: nat): Fgetc {
    if k < |s| then Byte(s[k]) else EOF
  }

  /** A separator the reader can find: as a `char` it is equal to the byte that `fgetc` returns. */
  predicate ReadableSeparator(sep: char) {
    NUL < sep < '\U{80}'
  }

  const NOT_A_BYTE: char := '\U{100}'

  /** What a separator is compared as. A byte from 128 up is negative as a `char`, and equal to no byte of a stream; 255
      is equal to the end of the stream and not modelled. */
  function Separator(c: char): char {
    if c < '\U{80}' then c else NOT_A_BYTE
  }

  /** A quoted field whose text starts at `s[0]` ends at `k`: there is a terminator at `k`, and just before it (a CR may
      stand in between when the terminator is the row separator) an odd run of quotes. */
  predicate Closes(s: string, k: nat, col: char, row: char)
    requires k <= |s|
  {
    if OddTail(s[..k], QUOTE) then
      k == |s| || (s[k] != QUOTE && (s[k] == col || s[k] == row))
    else
      ClosesAfterCr(s, k, row)
  }

  predicate ClosesAfterCr(s: string, k: nat, row: char)
    requires k <= |s|
  {
    0 < k < |s| && s[k] == row && s[k - 1] == CR && OddTail(s[..k - 1], QUOTE)
  }

  /** The first closing position at or after `k`, or the end of the stream. */
  function QuotedEnd(s: string, k: nat, col: char, row: char): (e: nat)
    requires k <= |s|
    ensures k <= e <= |s| && (e < |s| ==> Closes(s, e, col, row))
    decreases |s| - k
  {
    if k == |s| || Closes(s, k, col, row) then k else QuotedEnd(s, k + 1, col, row)
  }

  lemma {:induction false} QuotedEndIsFirst(s: string, k: nat, e: nat, col: char, row: char)
    requires k <= e <= |s| && (e == |s| || Closes(s, e, col, row))
    requires forall j :: k <= j < e ==> !Closes(s, j, col, row)
    ensures QuotedEnd(s, k, col, row) == e
    decreases e - k
  {
    if k < e {
      QuotedEndIsFirst(s, k + 1, e, col, row);
    }
  }

  /** The text of a quoted field that ends at `e`: without its closing quote, quotes undoubled. */
  function QuotedText(s: string, e: nat, row: char): string
    requires e <= |s|
  {
    if OddTail(s[..e], QUOTE) then Undoubled(s[..e - 1], QUOTE)
    else if ClosesAfterCr(s, e, row) then Undoubled(s[..e - 2], QUOTE)
    else Undoubled(s[..e], QUOTE)  // unterminated
  }

  function PlainEnd(s: string, k: nat, col: char, row: char): (e: nat)
    requires k <= |s|
    ensures k <= e <= |s| && (e < |s| ==> s[e] == col || s[e] == row)
    decreases |s| - k
  {
    if k == |s| || s[k] == col || s[k] == row then k else PlainEnd(s, k + 1, col, row)
  }

  lemma {:induction false} PlainEndIsFirst(s: string, k: nat, e: nat, col: char, row: char)
    requires k <= e <= |s|
    ensures PlainEnd(s, k, col, row) == e <==>
            (e == |s| || s[e] == col || s[e] == row) && forall j :: k <= j < e ==> s[j] != col && s[j] != row
    decreases e - k
  {
    if k < e {
      PlainEndIsFirst(s, k + 1, e, col, row);
    }
  }

  /** The text of an unquoted field that ends at `e`: a CR before a row separator is not part of it. */
  function PlainText(s: string, e: nat, row: char): string
    requires e <= |s|
  {
    if At(s, e) == Byte(row) && e > 0 && s[e - 1] == CR then s[..e - 1] else s[..e]
  }

  /** The field at the start of a stream: its text, what follows it in the stream, what ended it, and how many row
      separators were read on the way. */
  datatype Field = Field(text: string, rest: string, term: Fgetc, lines: nat)

  function After(s: string, e: nat): string {
    if e < |s| then s[e + 1..] else ""
  }

  function ReadField(s: string, col: char, row: char): (f: Field)
    requires s != ""
    ensures f.term == EOF ==> f.rest == ""
    ensures f.term != EOF ==> |f.rest| < |s| && (f.term == Byte(col) || f.term == Byte(row))
  {
    if s[0] == QUOTE then
      var body := s[1..];
      var e := QuotedEnd(body, 0, col, row);
      Field(QuotedText(body, e, row), After(body, e), At(body, e), Count(row, body[..|body| - |After(body, e)|]))
    else
      var e := PlainEnd(s, 0, col, row);
      Field(PlainText(s, e, row), After(s, e), At(s, e), Count(row, s[..|s| - |After(s, e)|]))
  }

  lemma {:induction false} CountCons(c: char, x: char, s: string)
    ensures Count(c, [x] + s) == (if x == c then 1 else 0) + Count(c, s)
  {
    if s == "" {
      assert [x] + s == [x] && [x][..0] == "";
    } else {
      assert ([x] + s)[..|s|] == [x] + s[..|s| - 1];
      CountCons(c, x, s[..|s| - 1]);
    }
  }

  /** The line counter advances by the row separators consumed, except that an opening quote is not looked at: the two
      differ exactly when the row separator is the quote character and the field is quoted. */
  lemma LinesCounted(s: string, col: char, row: char)
    requires s != ""
    ensures var f := ReadField(s, col, row);
            |f.rest| <= |s| &&
            f.lines + (if s[0] == QUOTE && row == QUOTE then 1 else 0) == Count(row, s[..|s| - |f.rest|])
  {
    var f := ReadField(s, col, row);
    if s[0] == QUOTE {
      var body := s[1..];
      assert s[..|s| - |f.rest|] == [s[0]] + body[..|body| - |f.rest|];
      CountCons(row, s[0], body[..|body| - |f.rest|]);
    }
  }

  // ---------------------------------------------------------------- records

  datatype Cell = Null | Text(text: string)

  /** One record: its fields (a missing last field is NULL), what follows, what ended it. */
  datatype Record = Record(cells: seq<Cell>, rest: string, term: Fgetc)

  function FieldCell(s: string, col: char, row: char): Cell {
    if s == "" then Null else Text(CStr(ReadField(s, col, row).text))
  }

  function ReadRecord(s: string, col: char, row: char): (r: Record)
    ensures r.cells != []
    ensures r.term == EOF ==> r.rest == ""
    ensures r.term != EOF ==> |r.rest| < |s| && r.term == Byte(row)
    decreases |s|
  {
    if s == "" then Record([Null], "", EOF)
    else
      var f := ReadField(s, col, row);
      if f.term == Byte(col) then
        var r := ReadRecord(f.rest, col, row);
        r.(cells := [FieldCell(s, col, row)] + r.cells)
      else
        Record([FieldCell(s, col, row)], f.rest, f.term)
  }

  predicate IsBytes(s: string) {
    forall i :: 0 <= i < |s| ==> s[i] < NOT_A_BYTE
  }

  /** A column separator from 128 up is never found: every record is one field. */
  lemma HighSeparator(s: string, col: char, row: char)
    requires IsBytes(s) && col >= '\U{80}'
    ensures forall c :: c < '\U{80}' ==> Separator(c) == c
    ensures ReadRecord(s, Separator(col), row).cells == [FieldCell(s, Separator(col), row)]
  {
    hide QuotedText, PlainText, Count, Closes;
    if s != "" {
      var f := ReadField(s, NOT_A_BYTE, row);
      FieldBoundary(s, NOT_A_BYTE, row);
      assert f.term != EOF ==> s[|s| - |f.rest| - 1] != NOT_A_BYTE;
    }
  }

  /** What follows a field is a suffix of the stream, right after the terminator. */
  lemma FieldBoundary(s: string, col: char, row: char)
    requires s != ""
    ensures var f := ReadField(s, col, row);
            && |f.rest| <= |s| && s[|s| - |f.rest|..] == f.rest
            && (f.term != EOF ==> |f.rest| < |s| && Byte(s[|s| - |f.rest| - 1]) == f.term)
  {
    hide QuotedText, PlainText, Count, Closes;
    var f := ReadField(s, col, row);
    if s[0] == QUOTE {
      var body := s[1..];
      assert body[|body| - |f.rest|..] == f.rest;
      assert s[|s| - |f.rest|..] == f.rest;
    }
  }

  /** A record that does not run to the end of the stream ends right after a row separator. */
  lemma {:induction false} RecordBoundary(s: string, col: char, row: char)
    ensures var r := ReadRecord(s, col, row);
            && |r.rest| <= |s| && s[|s| - |r.rest|..] == r.rest
            && (r.term != EOF ==> |r.rest| < |s| && s[|s| - |r.rest| - 1] == row)
    decreases |s|
  {
    hide ReadField, FieldCell;
    if s != "" {
      var f := ReadField(s, col, row);
      FieldBoundary(s, col, row);
      if f.term == Byte(col) {
        var r := ReadRecord(f.rest, col, row);
        RecordBoundary(f.rest, col, row);
        SuffixOfSuffix(s, f.rest, r.rest);
      }
    }
  }

  lemma SuffixOfSuffix(s: string, t: string, u: string)
    requires |t| <= |s| && s[|s| - |t|..] == t
    requires |u| <= |t| && t[|t| - |u|..] == u
    ensures s[|s| - |u|..] == u
    ensures |u| < |t| ==> s[|s| - |u| - 1] == t[|t| - |u| - 1]
  {
    assert forall k :: 0 <= k < |t| ==> t[k] == s[|s| - |t| + k];
    assert forall k :: 0 <= k < |u| ==> u[k] == t[|t| - |u| + k];
  }

  /** A record fitted to a table of `n` columns: NULL for missing fields, extra fields dropped. */
  function Align(cells: seq<Cell>, n: nat): (a: seq<Cell>)
    ensures |a| == n
  {
    if |cells| >= n then cells[..n] else cells + seq(n - |cells|, _ => Null)
  }

  /** The rows that importing a stream inserts into a table of `n` columns. */
  function ImportedRows(s: string, n: nat, col: char, row: char): seq<seq<Cell>>
    decreases |s|
  {
    if s == "" then []
    else
      var r := ReadRecord(s, col, row);
      [Align(r.cells, n)] + ImportedRows(r.rest, n, col, row)
  }
}
