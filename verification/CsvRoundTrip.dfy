/** Which fields, records and rows a CSV file holds: files written with quoted and plain fields, any row end, and the
    output of the CSV printer among them. */
module CsvRoundTrip {
  import opened CStrings
  import opened CsvFormat
  import opened Quoting

  /** Separators that differ from each other, from the quote and from CR. */
  predicate Distinct(col: char, row: char) {
    col != row && col != QUOTE && row != QUOTE && col != CR && row != CR
  }

  // ---------------------------------------------------------------- files

  /** A field as it stands in a file: in quotes, with its quotes doubled, or as it is. */
  datatype Written = Written(text: string, quoted: bool)

  function WrittenField(w: Written): string {
    if w.quoted then Quoted(w.text, QUOTE) else w.text
  }

  /** A plain field holds no separator and does not start with a quote. */
  predicate Writable(w: Written, col: char, row: char) {
    w.quoted ||
    ((w.text == "" || w.text[0] != QUOTE) && forall i :: 0 <= i < |w.text| ==> w.text[i] != col && w.text[i] != row)
  }

  /** A field ends with the column separator, with the row separator, with CR and the row separator, or with the
      file. */
  predicate Ends(end: string, rest: string, col: char, row: char) {
    end == [col] || end == [row] || end == [CR, row] || (end == "" && rest == "")
  }

  /** Before a bare row separator a CR would count as part of the row end, and at the end of the file nothing but a
      quoted field can be empty. */
  predicate CanEnd(w: Written, end: string, row: char) {
    w.quoted || (if end == [row] then w.text == "" || w.text[|w.text| - 1] != CR else end == "" ==> w.text != "")
  }

  function Terminator(end: string): Fgetc {
    if end == "" then EOF else Byte(end[|end| - 1])
  }

  function WrittenRow(fields: seq<Written>, sep: string, rowEnd: string): string {
    if fields == [] then ""
    else WrittenField(fields[0]) + if |fields| == 1 then rowEnd else sep + WrittenRow(fields[1..], sep, rowEnd)
  }

  function WrittenTable(rows: seq<seq<Written>>, sep: string, rowEnd: string): string {
    if rows == [] then "" else WrittenRow(rows[0], sep, rowEnd) + WrittenTable(rows[1..], sep, rowEnd)
  }

  // ---------------------------------------------------------------- fields

  /** No position up to the closing quote of a quoted field closes it; the closing quote is unpaired. */
  lemma NoEarlyClose(z: string, body: string, col: char, row: char)
    requires Distinct(col, row) && Doubled(z, QUOTE) + [QUOTE] <= body
    ensures var d := Doubled(z, QUOTE);
            (forall j :: 0 <= j <= |d| ==> !Closes(body, j, col, row)) &&
            OddTail(body[..|d| + 1], QUOTE) && Undoubled(body[..|d|], QUOTE) == z
  {
    hide Undoubled, Doubled;
    var d := Doubled(z, QUOTE);
    DoubledRoundTrip(z, QUOTE);
    Snoc(d, QUOTE, QUOTE);
    assert body[..|d|] == d && body[..|d| + 1] == d + [QUOTE];
    forall j | 0 <= j <= |d|
      ensures !Closes(body, j, col, row)
    {
      assert body[..j] == d[..j];
      if OddTail(body[..j], QUOTE) {
        OddPrefixOfDoubled(z, QUOTE, j);
      } else if 0 < j && OddTail(body[..j - 1], QUOTE) {
        assert body[..j - 1] == d[..j - 1];
        OddPrefixOfDoubled(z, QUOTE, j - 1);
      }
    }
  }

  /** A quoted field closes exactly at its own end. */
  lemma QuotedFieldEnds(z: string, body: string, end: string, rest: string, col: char, row: char)
    requires Distinct(col, row) && Ends(end, rest, col, row) && body == Doubled(z, QUOTE) + [QUOTE] + end + rest
    ensures var e := |Doubled(z, QUOTE)| + if end == "" then 1 else |end|;
            e <= |body| && QuotedEnd(body, 0, col, row) == e && QuotedText(body, e, row) == z
  {
    hide Doubled, Undoubled;
    var k := |Doubled(z, QUOTE)| + 1;
    NoEarlyClose(z, body, col, row);
    assert body[k..] == end + rest;
    assert end != "" ==> body[k] == body[k..][0] == end[0];
    if end == [CR, row] {
      assert body[k + 1] == body[k..][1] == row;
      ClosesAtCrLf(body, k, col, row);
      QuotedEndIsFirst(body, 0, k + 1, col, row);
    } else {
      QuotedEndIsFirst(body, 0, k, col, row);
    }
  }

  lemma ClosesAtCrLf(body: string, k: nat, col: char, row: char)
    requires Distinct(col, row) && k + 1 < |body| && body[k] == CR && body[k + 1] == row
    requires OddTail(body[..k], QUOTE)
    ensures !Closes(body, k, col, row)
    ensures !OddTail(body[..k + 1], QUOTE) && ClosesAfterCr(body, k + 1, row)
  {
    assert body[..k + 1] == body[..k] + [CR];
    Snoc(body[..k], CR, QUOTE);
  }

  /** A plain field ends at its separator, without the CR of its row end. */
  lemma PlainFieldEnds(w: Written, s: string, end: string, rest: string, col: char, row: char)
    requires Distinct(col, row) && Ends(end, rest, col, row) && Writable(w, col, row) && CanEnd(w, end, row)
    requires !w.quoted
    requires s == w.text + end + rest
    ensures s != "" && s[0] != QUOTE
    ensures var e := |w.text| + if end == "" then 0 else |end| - 1;
            e <= |s| && PlainEnd(s, 0, col, row) == e && PlainText(s, e, row) == w.text
  {
    var z := w.text;
    var e := |z| + if end == "" then 0 else |end| - 1;
    assert forall j :: 0 <= j < |z| ==> s[j] == z[j];
    assert forall j :: 0 <= j < |end| ==> s[|z| + j] == end[j];
    assert s[..|z|] == z;
    PlainEndIsFirst(s, 0, e, col, row);
  }

  /** A field of a file is read as its text and ended by its own end, whatever follows. */
  lemma FieldIsRead(w: Written, end: string, rest: string, col: char, row: char)
    requires Distinct(col, row) && Ends(end, rest, col, row) && Writable(w, col, row) && CanEnd(w, end, row)
    ensures var s := WrittenField(w) + end + rest;
            s != "" && var f := ReadField(s, col, row);
            f.text == w.text && f.rest == rest && f.term == Terminator(end)
  {
    hide QuotedEnd, QuotedText, PlainEnd, PlainText, Count, Doubled;
    var s := WrittenField(w) + end + rest;
    if w.quoted {
      var body := s[1..];
      assert body == Doubled(w.text, QUOTE) + [QUOTE] + end + rest;
      QuotedFieldEnds(w.text, body, end, rest, col, row);
      AfterPrefix(Doubled(w.text, QUOTE) + [QUOTE], end, rest, body);
    } else {
      PlainFieldEnds(w, s, end, rest, col, row);
      AfterPrefix(w.text, end, rest, s);
    }
  }

  /** Without a closing quote a field runs to the end of the file. */
  lemma Unterminated(z: string, col: char, row: char)
    requires Distinct(col, row)
    ensures var f := ReadField([QUOTE] + Doubled(z, QUOTE), col, row); f.text == z && f.rest == "" && f.term == EOF
  {
    hide Doubled, Undoubled, Count;
    var d := Doubled(z, QUOTE);
    assert ([QUOTE] + d)[1..] == d && d[..|d|] == d;
    DoubledRoundTrip(z, QUOTE);
    NoEarlyClose(z, d + [QUOTE], col, row);
    forall j | 0 <= j < |d|
      ensures !Closes(d, j, col, row)
    {
      assert d[..j] == (d + [QUOTE])[..j] && !Closes(d + [QUOTE], j, col, row);
      assert j > 0 ==> d[..j - 1] == (d + [QUOTE])[..j - 1];
    }
    QuotedEndIsFirst(d, 0, |d|, col, row);
  }

  lemma {:induction false} UndoubledKeeps(d: string, t: string)
    requires QUOTE !in t
    ensures Undoubled(d + t, QUOTE) == Undoubled(d, QUOTE) + t
    ensures t != "" ==> !OddTail(d + t, QUOTE)
  {
    if t == "" {
      assert d + t == d;
    } else {
      var init, c := t[..|t| - 1], t[|t| - 1];
      hide Undoubled, OddTail;
      UndoubledKeeps(d, init);
      assert d + t == (d + init) + [c];
      Snoc(d + init, c, QUOTE);
    }
  }

  lemma OpenAfterQuote(a: string, t: string, k: nat, col: char, row: char)
    requires Distinct(col, row) && QUOTE !in t && k < |t| && t[0] != col && t[0] != row && a != ""
    requires a[|a| - 1] == QUOTE && (t[0] == CR && |t| > 1 ==> t[1] != row)
    ensures !Closes(a + t, |a| + k, col, row)
  {
    var s := a + t;
    hide Undoubled;
    assert s[..|a| + k] == a + t[..k] && s[|a| + k] == t[k];
    if k > 0 {
      UndoubledKeeps(a, t[..k]);
      assert s[..|a| + k - 1] == a + t[..k - 1] && s[|a| + k - 1] == t[k - 1];
      UndoubledKeeps(a, t[..k - 1]);
    } else {
      assert s[|a| - 1] == QUOTE;
    }
  }

  /** A quote with something else after it than a separator, CR and a row separator, or the end of the file does not
      close a field. It belongs to the text, which runs to the end of the file when no other quote follows. */
  lemma UnescapedQuote(z: string, t: string, col: char, row: char)
    requires Distinct(col, row) && t != "" && QUOTE !in t && t[0] != col && t[0] != row
    requires t[0] == CR && |t| > 1 ==> t[1] != row
    ensures var f := ReadField([QUOTE] + (Doubled(z, QUOTE) + [QUOTE] + t), col, row);
            f.text == z + [QUOTE] + t && f.rest == "" && f.term == EOF
  {
    var d := Doubled(z, QUOTE);
    var a := d + [QUOTE];
    var body := a + t;
    NoEarlyClose(z, body, col, row);
    UnescapedText(z, t);
    assert ([QUOTE] + body)[1..] == body && body[..|body|] == body;
    hide Doubled, Undoubled, Count, OddTail, Closes;
    forall j | 0 <= j < |body|
      ensures !Closes(body, j, col, row)
    {
      if j > |d| {
        OpenAfterQuote(a, t, j - |a|, col, row);
      }
    }
    QuotedEndIsFirst(body, 0, |body|, col, row);
    assert !ClosesAfterCr(body, |body|, row);
  }

  lemma UnescapedText(z: string, t: string)
    requires t != "" && QUOTE !in t
    ensures var s := Doubled(z, QUOTE) + [QUOTE] + t; Undoubled(s, QUOTE) == z + [QUOTE] + t && !OddTail(s, QUOTE)
  {
    hide Doubled, Undoubled;
    DoubledRoundTrip(z, QUOTE);
    Snoc(Doubled(z, QUOTE), QUOTE, QUOTE);
    UndoubledKeeps(Doubled(z, QUOTE) + [QUOTE], t);
  }

  lemma AfterPrefix(a: string, end: string, rest: string, s: string)
    requires s == a + end + rest && (end == "" ==> rest == "")
    ensures var e := |a| + if end == "" then 0 else |end| - 1;
            After(s, e) == rest && At(s, e) == Terminator(end)
  {
  }

  // ---------------------------------------------------------------- rows

  /** The cells of a row of `n` columns: the texts of its fields as far as there are any, and NULL. */
  function Fitted(fields: seq<string>, n: nat): seq<Cell> {
    seq(n, i requires 0 <= i < n => if i < |fields| then Text(fields[i]) else Null)
  }

  function Texts(fields: seq<string>): seq<Cell> {
    seq(|fields|, i requires 0 <= i < |fields| => Text(fields[i]))
  }

  function TextOf(fields: seq<Written>): (texts: seq<string>)
    ensures |texts| == |fields|
  {
    seq(|fields|, i requires 0 <= i < |fields| => fields[i].text)
  }

  predicate RowEnds(rowEnd: string, rest: string, row: char) {
    rowEnd == [row] || rowEnd == [CR, row] || (rowEnd == "" && rest == "")
  }

  ghost predicate WritableRow(fields: seq<Written>, rowEnd: string, col: char, row: char) {
    && fields != [] && CanEnd(fields[|fields| - 1], rowEnd, row)
    && forall i :: 0 <= i < |fields| ==> Writable(fields[i], col, row) && NulFree(fields[i].text)
  }

  /** A row of a file is read as one record with exactly its fields, whatever follows. */
  lemma {:induction false} RowIsRead(fields: seq<Written>, rowEnd: string, rest: string, col: char, row: char)
    requires Distinct(col, row) && RowEnds(rowEnd, rest, row) && WritableRow(fields, rowEnd, col, row)
    ensures var s := WrittenRow(fields, [col], rowEnd) + rest;
            s != "" && ReadRecord(s, col, row) == Record(Texts(TextOf(fields)), rest, Terminator(rowEnd))
  {
    hide WrittenField, ReadField, ReadRecord, CStr, Writable, CanEnd;
    var s := WrittenRow(fields, [col], rowEnd) + rest;
    var w := fields[0];
    if |fields| == 1 {
      assert s == WrittenField(w) + rowEnd + rest;
      LastField(w, rowEnd, rest, col, row);
      assert Texts(TextOf(fields)) == [Text(w.text)];
    } else {
      var tail := WrittenRow(fields[1..], [col], rowEnd) + rest;
      assert s == WrittenField(w) + [col] + tail;
      FieldBefore(w, tail, col, row);
      RowIsRead(fields[1..], rowEnd, rest, col, row);
      TextsCons(fields);
    }
  }

  lemma LastField(w: Written, rowEnd: string, rest: string, col: char, row: char)
    requires Distinct(col, row) && RowEnds(rowEnd, rest, row) && Writable(w, col, row) && CanEnd(w, rowEnd, row)
    requires NulFree(w.text)
    ensures var s := WrittenField(w) + rowEnd + rest;
            s != "" && ReadRecord(s, col, row) == Record([Text(w.text)], rest, Terminator(rowEnd))
  {
    FieldIsRead(w, rowEnd, rest, col, row);
    hide WrittenField, ReadField, CStr, Writable, CanEnd;
    CStrOfNulFree(w.text);
  }

  /** A field and the record that goes on after it. */
  lemma FieldBefore(w: Written, tail: string, col: char, row: char)
    requires Distinct(col, row) && Writable(w, col, row) && NulFree(w.text)
    ensures var s, r := WrittenField(w) + [col] + tail, ReadRecord(tail, col, row);
            s != "" && ReadRecord(s, col, row) == Record([Text(w.text)] + r.cells, r.rest, r.term)
  {
    FieldIsRead(w, [col], tail, col, row);
    hide WrittenField, ReadField, CStr, Writable, CanEnd;
    CStrOfNulFree(w.text);
  }

  /** A column separator at the end of the file is followed by a missing field. */
  lemma {:induction false} MissingLastField(fields: seq<Written>, col: char, row: char)
    requires Distinct(col, row) && fields != []
    requires forall i :: 0 <= i < |fields| ==> Writable(fields[i], col, row) && NulFree(fields[i].text)
    ensures ReadRecord(WrittenRow(fields, [col], [col]), col, row) == Record(Texts(TextOf(fields)) + [Null], "", EOF)
  {
    var w, rest := fields[0], Texts(TextOf(fields[1..]));
    var tail := if |fields| == 1 then "" else WrittenRow(fields[1..], [col], [col]);
    assert WrittenRow(fields, [col], [col]) == WrittenField(w) + [col] + tail;
    assert ReadRecord("", col, row) == Record([Null], "", EOF);
    hide WrittenField, WrittenRow, ReadField, ReadRecord, CStr, Writable;
    FieldBefore(w, tail, col, row);
    if |fields| > 1 {
      MissingLastField(fields[1..], col, row);
    } else {
      assert rest + [Null] == [Null];
    }
    assert ReadRecord(tail, col, row) == Record(rest + [Null], "", EOF);
    TextsCons(fields);
    Concat([Text(w.text)], rest, [Null]);
  }

  lemma TextsCons(fields: seq<Written>)
    requires fields != []
    ensures Texts(TextOf(fields)) == [Text(fields[0].text)] + Texts(TextOf(fields[1..]))
  {
  }

  // ---------------------------------------------------------------- tables

  function FittedRows(rows: seq<seq<string>>, n: nat): seq<seq<Cell>> {
    seq(|rows|, r requires 0 <= r < |rows| => Fitted(rows[r], n))
  }

  function TextRows(rows: seq<seq<string>>): seq<seq<Cell>> {
    seq(|rows|, r requires 0 <= r < |rows| => Texts(rows[r]))
  }

  lemma FittedWhole(rows: seq<seq<string>>, n: nat)
    requires forall r :: 0 <= r < |rows| ==> |rows[r]| == n
    ensures FittedRows(rows, n) == TextRows(rows)
  {
    forall r | 0 <= r < |rows|
      ensures FittedRows(rows, n)[r] == TextRows(rows)[r]
    {
      assert Fitted(rows[r], n) == Texts(rows[r]);
    }
  }

  function TextOfRows(rows: seq<seq<Written>>): (r: seq<seq<string>>)
    ensures |r| == |rows|
  {
    seq(|rows|, r requires 0 <= r < |rows| => TextOf(rows[r]))
  }

  lemma FittedIsAligned(fields: seq<string>, n: nat)
    ensures Align(Texts(fields), n) == Fitted(fields, n)
  {
  }

  /** One record of the stream gives one row, fitted to the columns of the table. */
  lemma ImportStep(s: string, fields: seq<string>, rest: string, term: Fgetc, n: nat, col: char, row: char)
    requires s != "" && ReadRecord(s, col, row) == Record(Texts(fields), rest, term)
    ensures ImportedRows(s, n, col, row) == [Fitted(fields, n)] + ImportedRows(rest, n, col, row)
  {
    FittedIsAligned(fields, n);
    hide ReadRecord, Align, Fitted;
  }

  /** Any file of quoted and plain fields, with rows of any lengths that end with the row separator or with CR before
      it, and perhaps a last row that ends with the file, is imported into a table of `n` columns as its rows in
      order: a missing field is NULL, and a field too many is dropped. */
  lemma {:induction false} FileIsImported(rows: seq<seq<Written>>, last: seq<Written>, n: nat, rowEnd: string,
                                          col: char, row: char)
    requires Distinct(col, row) && (rowEnd == [row] || rowEnd == [CR, row])
    requires forall r :: 0 <= r < |rows| ==> WritableRow(rows[r], rowEnd, col, row)
    requires last == [] || WritableRow(last, "", col, row)
    ensures ImportedRows(WrittenTable(rows, [col], rowEnd) + WrittenRow(last, [col], ""), n, col, row)
         == FittedRows(TextOfRows(rows + if last == [] then [] else [last]), n)
  {
    hide WrittenRow, ReadRecord, ImportedRows, Fitted, FittedRows, WritableRow, TextOf, TextOfRows, Texts;
    var end := if last == [] then [] else [last];
    if rows != [] {
      var rest := WrittenTable(rows[1..], [col], rowEnd) + WrittenRow(last, [col], "");
      Concat(WrittenRow(rows[0], [col], rowEnd), WrittenTable(rows[1..], [col], rowEnd), WrittenRow(last, [col], ""));
      RowIsRead(rows[0], rowEnd, rest, col, row);
      ImportStep(WrittenRow(rows[0], [col], rowEnd) + rest, TextOf(rows[0]), rest, Terminator(rowEnd), n, col, row);
      FileIsImported(rows[1..], last, n, rowEnd, col, row);
      assert (rows + end)[1..] == rows[1..] + end;
      FittedCons(rows + end, n);
    } else {
      assert rows + end == end;
      LastIsImported(last, n, col, row);
      assert "" + WrittenRow(last, [col], "") == WrittenRow(last, [col], "");
    }
  }

  lemma FittedCons(rows: seq<seq<Written>>, n: nat)
    requires rows != []
    ensures FittedRows(TextOfRows(rows), n) == [Fitted(TextOf(rows[0]), n)] + FittedRows(TextOfRows(rows[1..]), n)
  {
    hide Fitted, TextOf;
  }

  lemma FittedOfOne(ws: seq<Written>, n: nat)
    ensures FittedRows(TextOfRows([ws]), n) == [Fitted(TextOf(ws), n)] + []
  {
    hide Fitted, TextOf;
  }

  lemma LastIsImported(last: seq<Written>, n: nat, col: char, row: char)
    requires Distinct(col, row) && (last == [] || WritableRow(last, "", col, row))
    ensures ImportedRows(WrittenRow(last, [col], ""), n, col, row)
         == FittedRows(TextOfRows(if last == [] then [] else [last]), n)
  {
    assert WrittenRow([], [col], "") == "" && ImportedRows("", n, col, row) == [];
    if last != [] {
      hide *;
      RowIsRead(last, "", "", col, row);
      var s := WrittenRow(last, [col], "");
      assert s + "" == s;
      ImportStep(s, TextOf(last), "", EOF, n, col, row);
      FittedOfOne(last, n);
    }
  }

  // ---------------------------------------------------------------- what the printer writes

  /** A separator the printer protects as well: neither a quote nor part of a line end. */
  predicate GoodSeparator(sep: char) {
    ReadableSeparator(sep) && sep != QUOTE && sep != CR && sep != '\n'
  }

  function AsWritten(fields: seq<string>, sep: string): (r: seq<Written>)
    ensures |r| == |fields| && TextOf(r) == fields
  {
    seq(|fields|, i requires 0 <= i < |fields| => Written(fields[i], MustQuote(fields[i], sep)))
  }

  function AllAsWritten(rows: seq<seq<string>>, sep: string): (r: seq<seq<Written>>)
    ensures |r| == |rows| && TextOfRows(r) == rows
  {
    seq(|rows|, r requires 0 <= r < |rows| => AsWritten(rows[r], sep))
  }

  lemma {:induction false} PrintedIsWritten(fields: seq<string>, sep: string, rowEnd: string)
    ensures PrintedRow(fields, sep, rowEnd) == WrittenRow(AsWritten(fields, sep), sep, rowEnd)
  {
    if fields != [] {
      hide MustQuote, Doubled;
      PrintedIsWritten(fields[1..], sep, rowEnd);
      assert AsWritten(fields, sep)[1..] == AsWritten(fields[1..], sep);
    }
  }

  lemma {:induction false} PrintedTableIsWritten(rows: seq<seq<string>>, sep: string, rowEnd: string)
    ensures PrintedTable(rows, sep, rowEnd) == WrittenTable(AllAsWritten(rows, sep), sep, rowEnd)
  {
    if rows != [] {
      hide PrintedRow, WrittenRow, AsWritten;
      PrintedIsWritten(rows[0], sep, rowEnd);
      PrintedTableIsWritten(rows[1..], sep, rowEnd);
      assert AllAsWritten(rows, sep)[1..] == AllAsWritten(rows[1..], sep);
    }
  }

  /** What the printer leaves without quotes may stand plain in a file, before any end. */
  lemma UnquotedIsWritable(z: string, end: string, col: char)
    requires GoodSeparator(col)
    ensures var w := Written(z, MustQuote(z, [col])); Writable(w, col, '\n') && CanEnd(w, end, '\n')
  {
    if !MustQuote(z, [col]) {
      assert forall j :: 0 <= j < |z| ==> !NeedCsvQuote(z[j]) && !SeparatorSeen(z, j, [col]);
    }
  }

  lemma PrintedIsWritable(fields: seq<string>, rowEnd: string, col: char)
    requires GoodSeparator(col) && fields != [] && forall i :: 0 <= i < |fields| ==> NulFree(fields[i])
    ensures WritableRow(AsWritten(fields, [col]), rowEnd, col, '\n')
  {
    hide MustQuote, Writable, CanEnd;
    forall i | 0 <= i < |fields|
      ensures Writable(AsWritten(fields, [col])[i], col, '\n') && CanEnd(AsWritten(fields, [col])[i], rowEnd, '\n')
    {
      UnquotedIsWritable(fields[i], rowEnd, col);
    }
  }

  /** A printed field is read back as its text, before a separator, LF, CR LF or the end of the file. */
  lemma FieldRoundTrip(z: string, end: string, rest: string, col: char)
    requires GoodSeparator(col) && (end == [col] || end == "\n" || end == "\r\n" || (end == "" && rest == ""))
    ensures var s := PrintedField(z, [col]) + end + rest;
            s != "" && var f := ReadField(s, col, '\n');
            f.text == z && f.rest == rest && f.term == if end == "" then EOF else Byte(end[|end| - 1])
  {
    hide MustQuote, Doubled, ReadField;
    UnquotedIsWritable(z, end, col);
    FieldIsRead(Written(z, MustQuote(z, [col])), end, rest, col, '\n');
  }

  /** A printed row is read back as one record. */
  lemma RowRoundTrip(fields: seq<string>, rowEnd: string, rest: string, col: char)
    requires GoodSeparator(col) && (rowEnd == "\n" || rowEnd == "\r\n" || (rowEnd == "" && rest == ""))
    requires fields != [] && forall i :: 0 <= i < |fields| ==> NulFree(fields[i])
    ensures ReadRecord(PrintedRow(fields, [col], rowEnd) + rest, col, '\n')
         == Record(Texts(fields), rest, if rowEnd == "" then EOF else Byte('\n'))
  {
    hide WrittenRow, PrintedRow, ReadRecord, WritableRow;
    PrintedIsWritten(fields, [col], rowEnd);
    PrintedIsWritable(fields, rowEnd, col);
    RowIsRead(AsWritten(fields, [col]), rowEnd, rest, col, '\n');
  }

  /** The whole-table round trip: printing rows in CSV mode and importing the text inserts exactly those rows, in
      order - empty fields, quotes, separators and line ends inside fields included - whether lines end with LF or CR
      LF, and whether the last one ends at all. */
  lemma TableRoundTrip(rows: seq<seq<string>>, last: seq<string>, n: nat, rowEnd: string, col: char)
    requires GoodSeparator(col) && (rowEnd == "\n" || rowEnd == "\r\n")
    requires forall r :: 0 <= r < |rows| ==> rows[r] != [] && forall i :: 0 <= i < |rows[r]| ==> NulFree(rows[r][i])
    requires forall i :: 0 <= i < |last| ==> NulFree(last[i])
    ensures ImportedRows(PrintedTable(rows, [col], rowEnd) + PrintedRow(last, [col], ""), n, col, '\n')
         == FittedRows(rows + if last == [] then [] else [last], n)
  {
    hide WrittenTable, WrittenRow, PrintedRow, PrintedTable, ImportedRows, WritableRow, NulFree, Fitted;
    var ws, w := AllAsWritten(rows, [col]), AsWritten(last, [col]);
    PrintedTableIsWritten(rows, [col], rowEnd);
    PrintedIsWritten(last, [col], "");
    forall r | 0 <= r < |rows|
      ensures WritableRow(ws[r], rowEnd, col, '\n')
    {
      PrintedIsWritable(rows[r], rowEnd, col);
    }
    if last != [] {
      PrintedIsWritable(last, "", col);
    }
    FileIsImported(ws, w, n, rowEnd, col, '\n');
    assert TextOfRows(ws + if w == [] then [] else [w]) == rows + if last == [] then [] else [last];
  }
}
