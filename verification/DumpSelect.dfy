/** Building SQL text in exactly sized buffers: `appendText`, `set_table_name`, and the SELECT that `.dump` uses to
    print the rows of a table. */
module DumpSelect {
  import opened CStrings
  import opened Quoting
  import opened Shell

  // ---------------------------------------------------------------- text

  /** The C string that a buffer holds. */
  ghost function Content(z: array<char>): string
    reads z
  {
    CStr(z[..])
  }

  ghost predicate Terminated(z: array<char>)
    reads z
  {
    |Content(z)| < z.Length
  }

  method StrLen(z: array<char>) returns (n: nat)
    requires Terminated(z)
    ensures n == |Content(z)| && z[..n] == Content(z) && z[n] == NUL
  {
    CStrIsPrefix(z[..]);
    ghost var s := Content(z);
    n := 0;
    while z[n] != NUL
      invariant n <= |s|
      decreases |s| - n
    {
      n := n + 1;
    }
  }

  lemma {:induction false} DoubledLength(s: string, q: char)
    ensures |Doubled(s, q)| == |s| + Count(q, s)
  {
    if s != "" {
      DoubledLength(s[..|s| - 1], q);
    }
  }

  /** What `appendText` adds: the text, quoted unless the quote character is NUL. */
  function Appended(zAppend: string, quote: char): string {
    if quote == NUL then zAppend else Quoted(zAppend, quote)
  }

  /** The buffer holds the text and its NUL, and no more. */
  ghost predicate Filled(z: array<char>, text: string)
    reads z
  {
    z[..] == text + [NUL]
  }

  /** The first pass of the quoting branch. */
  method CountQuotes(zAppend: string, quote: char) returns (n: nat)
    ensures n == Count(quote, zAppend)
  {
    n := 0;
    var i := 0;
    while i < |zAppend|
      invariant 0 <= i <= |zAppend| && n == Count(quote, zAppend[..i])
    {
      assert zAppend[..i + 1] == zAppend[..i] + [zAppend[i]];
      if zAppend[i] == quote {
        n := n + 1;
      }
      i := i + 1;
    }
    assert zAppend[..i] == zAppend;
  }

  /** The second pass: `text` with its quotes doubled is written at `from`, where it fits. */
  method WriteDoubled(z: array<char>, from: nat, text: string, q: char) returns (to: nat)
    requires from + |Doubled(text, q)| <= z.Length
    modifies z
    ensures to == from + |Doubled(text, q)| && z[from..to] == Doubled(text, q)
    ensures forall k :: 0 <= k < z.Length && (k < from || to <= k) ==> z[k] == old(z[k])
  {
    hide Doubled;
    to := from;
    var i := 0;
    assert text[..0] == "";
    NothingToDouble("", q);
    while i < |text|
      invariant 0 <= i <= |text| && from <= to == from + |Doubled(text[..i], q)| <= z.Length
      invariant z[from..to] == Doubled(text[..i], q)
      invariant forall k :: 0 <= k < z.Length && (k < from || to <= k) ==> z[k] == old(z[k])
    {
      Room(text, i, q);
      ghost var done := z[from..to];
      z[to] := text[i];
      assert z[from..to + 1] == done + [text[i]];
      to := to + 1;
      if text[i] == q {
        z[to] := q;
        assert z[from..to + 1] == done + [q, q];
        to := to + 1;
      }
      i := i + 1;
    }
    assert text[..i] == text;
  }

  lemma Room(text: string, i: nat, q: char)
    requires i < |text|
    ensures Doubled(text[..i + 1], q) == Doubled(text[..i], q) + if text[i] == q then [q, q] else [text[i]]
    ensures |Doubled(text[..i + 1], q)| <= |Doubled(text, q)|
  {
    assert text[..i + 1] == text[..i] + [text[i]];
    Snoc(text[..i], text[i], q);
    assert text == text[..i + 1] + text[i + 1..];
    DoubledAppend(text[..i + 1], text[i + 1..], q);
  }

  /** The quoting branch: it fills the buffer exactly, as `assert( (zCsr-zIn)==len )` claims. */
  method WriteQuoted(z: array<char>, nIn: nat, zAppend: string, quote: char)
    requires nIn + |Quoted(zAppend, quote)| + 1 == z.Length
    modifies z
    ensures z[..nIn] == old(z[..nIn]) && z[nIn..] == Quoted(zAppend, quote) + [NUL]
  {
    hide Doubled;
    ghost var before := z[..nIn];
    z[nIn] := quote;
    var zCsr := WriteDoubled(z, nIn + 1, zAppend, quote);
    z[zCsr] := quote;
    z[zCsr + 1] := NUL;
    assert zCsr + 2 == z.Length;
    assert z[nIn + 1..zCsr] == Doubled(zAppend, quote);
    assert z[nIn..] == [z[nIn]] + z[nIn + 1..zCsr] + [z[zCsr]] + [z[zCsr + 1]];
  }

  method WritePlain(z: array<char>, nIn: nat, zAppend: string)
    requires nIn + |zAppend| + 1 == z.Length
    modifies z
    ensures z[..nIn] == old(z[..nIn]) && z[nIn..] == zAppend + [NUL]
  {
    forall k | 0 <= k < |zAppend| {
      z[nIn + k] := zAppend[k];
    }
    z[z.Length - 1] := NUL;
  }

  /** `appendText`: the buffer has exactly the computed length, and the second pass fills all of it. */
  method AppendText(zIn: array?<char>, zAppend: string, quote: char) returns (r: array<char>)
    requires zIn != null ==> Terminated(zIn)
    ensures fresh(r)
    ensures var text := if zIn == null then Appended(zAppend, quote) else Content(zIn) + Appended(zAppend, quote);
            Filled(r, text) && (NulFree(zAppend) ==> Terminated(r) && Content(r) == text)
  {
    hide Doubled, Count, CStr;
    var nIn := 0;
    if zIn != null {
      nIn := StrLen(zIn);
      CStrIsPrefix(zIn[..]);
    }
    ghost var before := if zIn == null then "" else Content(zIn);
    var len := |zAppend| + nIn + 1;
    if quote != NUL {
      var n := CountQuotes(zAppend, quote);
      len := len + 2 + n;
      DoubledLength(zAppend, quote);
    }
    r := new char[len];
    forall k | 0 <= k < nIn {
      r[k] := zIn[k];
    }
    assert r[..nIn] == before;
    if quote != NUL {
      WriteQuoted(r, nIn, zAppend, quote);
    } else {
      WritePlain(r, nIn, zAppend);
    }
    assert r[..] == r[..nIn] + r[nIn..];
    Concat(before, Appended(zAppend, quote), [NUL]);
    assert "" + Appended(zAppend, quote) == Appended(zAppend, quote);
    if NulFree(zAppend) {
      AppendedIsNulFree(zAppend, quote);
      CStrStopsAtNul(before + Appended(zAppend, quote), "");
      assert r[..] == before + Appended(zAppend, quote) + [NUL] + "";
    }
  }

  lemma {:induction false} DoubledIsNulFree(s: string, q: char)
    requires NulFree(s) && q != NUL
    ensures NulFree(Doubled(s, q))
  {
    if s != "" {
      DoubledIsNulFree(s[..|s| - 1], q);
    }
  }

  lemma AppendedIsNulFree(s: string, q: char)
    requires NulFree(s)
    ensures NulFree(Appended(s, q))
  {
    if q != NUL {
      DoubledIsNulFree(s, q);
    }
  }

  // ---------------------------------------------------------------- table names

  predicate IsNameChar(c: char) {
    IsAlnum(c) || c == '_'
  }

  /** A name that can be written without quotes. */
  predicate IsPlainName(s: string) {
    s != "" && !IsDigit(s[0]) && forall i :: 0 <= i < |s| ==> IsNameChar(s[i])
  }

  function TableName(zName: string): string {
    if IsPlainName(zName) then zName else Quoted(zName, '\'')
  }

  /** The first loop of `set_table_name`: must the name be quoted, and how long is it with its quotes doubled? */
  method MeasureName(zName: string) returns (needQuote: bool, n: nat)
    ensures needQuote == !IsPlainName(zName)
    ensures n == |zName| + Count('\'', zName)
  {
    needQuote := zName == "" || (!IsAlpha(zName[0]) && zName[0] != '_');
    n := 0;
    var i := 0;
    while i < |zName|
      invariant 0 <= i <= |zName|
      invariant n == i + Count('\'', zName[..i])
      invariant needQuote == (zName == "" || IsDigit(zName[0]) || !IsNameChar(zName[0])
                              || exists k :: 0 <= k < i && !IsNameChar(zName[k]))
    {
      assert zName[..i + 1] == zName[..i] + [zName[i]];
      if !IsNameChar(zName[i]) {
        needQuote := true;
        if zName[i] == '\'' {
          n := n + 1;
        }
      }
      i, n := i + 1, n + 1;
    }
    assert zName[..i] == zName;
  }

  /** `set_table_name`: exactly the computed number of bytes is allocated, and all of it is written. */
  method SetTableName(zName: string) returns (z: array<char>)
    ensures fresh(z) && Filled(z, TableName(zName))
  {
    hide Doubled, Count;
    var needQuote, n := MeasureName(zName);
    DoubledLength(zName, '\'');
    if needQuote {
      n := n + 2;
    } else {
      NothingToDouble(zName, '\'');
    }
    z := new char[n + 1];
    if needQuote {
      WriteQuoted(z, 0, zName, '\'');
    } else {
      n := WriteDoubled(z, 0, zName, '\'');
      z[n] := NUL;
      assert z[..] == z[0..n] + [z[n]];
    }
    assert z[0..] == z[..];
  }

  /** A character of an identifier in SQL. */
  predicate IsIdChar(c: char) {
    IsNameChar(c) || c == '$' || c >= '\U{80}'
  }

  /** The length of the run of such characters at the start of a text. */
  function NameRun(s: string): (n: nat)
    ensures n <= |s| && forall i :: 0 <= i < n ==> IsIdChar(s[i])
  {
    if s == "" || !IsIdChar(s[0]) then 0 else 1 + NameRun(s[1..])
  }

  /** A name that SQL reads without quotes: an identifier that is not a reserved word, in any letter case. */
  predicate IsIdentifier(s: string, reserved: set<string>) {
    && s != "" && !IsDigit(s[0]) && s[0] != '$' && (forall i :: 0 <= i < |s| ==> IsIdChar(s[i]))
    && Upper(s) !in reserved
  }

  /** The name at the start of a text, and the length of what it is read from. */
  datatype Named = NoName | Named(name: string, length: nat)

  /** How SQL reads a name: a quoted text, a text in brackets, or an identifier. */
  function ReadName(s: string, reserved: set<string>): (r: Named)
    ensures r.Named? ==> 0 < r.length <= |s|
  {
    if s != "" && (s[0] == '\'' || s[0] == '"' || s[0] == '`') then
      var n := ClosingQuote(s[1..], s[0]);
      if 1 + n == |s| then NoName else Named(Undoubled(s[1..1 + n], s[0]), n + 2)
    else if s != "" && s[0] == '[' then
      var n := ClosingBracket(s[1..]);
      if 1 + n == |s| then NoName else Named(s[1..1 + n], n + 2)
    else
      var n := NameRun(s);
      if IsIdentifier(s[..n], reserved) then Named(s[..n], n) else NoName
  }

  lemma {:induction false} NameRunIs(s: string, rest: string)
    requires forall i :: 0 <= i < |s| ==> IsIdChar(s[i])
    requires rest == "" || !IsIdChar(rest[0])
    ensures NameRun(s + rest) == |s|
  {
    if s == "" {
      assert s + rest == rest;
    } else {
      assert (s + rest)[1..] == s[1..] + rest;
      NameRunIs(s[1..], rest);
    }
  }

  lemma QuotedIsRead(name: string, rest: string, reserved: set<string>)
    requires rest == "" || rest[0] != '\''
    ensures ReadName(Quoted(name, '\'') + rest, reserved) == Named(name, |Quoted(name, '\'')|)
  {
    hide Doubled, Undoubled, NameRun, ClosingQuote;
    var s, d := Quoted(name, '\'') + rest, Doubled(name, '\'');
    assert s[1..] == d + ['\''] + rest && s[1..1 + |d|] == d;
    DoubledIsClosed(name, rest, '\'');
    DoubledRoundTrip(name, '\'');
  }

  /** The stored table name is read back as the name it was made from, whatever follows it in the statement, unless it
      is a reserved word without quotes; then no name is read. */
  lemma TableNameRoundTrip(zName: string, rest: string, reserved: set<string>)
    requires rest == "" || (!IsIdChar(rest[0]) && rest[0] != '\'')
    ensures ReadName(TableName(zName) + rest, reserved)
         == if IsPlainName(zName) && Upper(zName) in reserved then NoName else Named(zName, |TableName(zName)|)
  {
    hide Doubled, Undoubled, Upper, NameRun, ClosingQuote, ClosingBracket;
    if IsPlainName(zName) {
      var s := zName + rest;
      NameRunIs(zName, rest);
      assert s[0] == zName[0] && s[..|zName|] == zName;
    } else {
      QuotedIsRead(zName, rest, reserved);
    }
  }

  /** A table may be named `order`; its name is stored without quotes, and cannot be read back. */
  lemma ReservedName(reserved: set<string>, rest: string)
    requires "ORDER" in reserved && (rest == "" || (!IsIdChar(rest[0]) && rest[0] != '\''))
    ensures ReadName(TableName("order") + rest, reserved) == NoName
  {
    assert Upper("order") == "ORDER";
    TableNameRoundTrip("order", rest, reserved);
  }

  // ---------------------------------------------------------------- the SELECT of .dump

  /** A statement as a reader of SQL sees it: string literals, quoted identifiers, and other characters. */
  datatype Token = Other(c: char) | Literal(text: string) | Identifier(name: string) | Unclosed

  predicate IsQuote(c: char) {
    c == '\'' || c == '"'
  }

  function Lex(s: string): seq<Token>
    decreases |s|
  {
    if s == "" then []
    else if !IsQuote(s[0]) then [Other(s[0])] + Lex(s[1..])
    else
      var n := ClosingQuote(s[1..], s[0]);
      if 1 + n == |s| then [Unclosed]
      else
        var text := Undoubled(s[1..1 + n], s[0]);
        [if s[0] == '"' then Identifier(text) else Literal(text)] + Lex(s[n + 2..])
  }

  /** The pieces that a statement is put together from. */
  datatype Piece = Plain(s: string) | Quote(text: string, q: char)

  function Render(ps: seq<Piece>): string {
    if ps == [] then "" else (if ps[0].Plain? then ps[0].s else Quoted(ps[0].text, ps[0].q)) + Render(ps[1..])
  }

  function Tokens(ps: seq<Piece>): seq<Token> {
    if ps == [] then []
    else (match ps[0]
          case Plain(s) => seq(|s|, i requires 0 <= i < |s| => Other(s[i]))
          case Quote(text, q) => [if q == '"' then Identifier(text) else Literal(text)]) + Tokens(ps[1..])
  }

  /** Plain pieces hold no quotes, and a quoted piece is followed by a plain one, if by any. */
  predicate Separated(ps: seq<Piece>) {
    ps == [] ||
    (Separated(ps[1..]) &&
     match ps[0]
     case Plain(s) => IsPlain(s)
     case Quote(text, q) => IsQuote(q) && (|ps| > 1 ==> ps[1].Plain?))
  }

  lemma {:induction false} LexPlain(s: string, rest: string)
    requires forall i :: 0 <= i < |s| ==> !IsQuote(s[i])
    ensures Lex(s + rest) == seq(|s|, i requires 0 <= i < |s| => Other(s[i])) + Lex(rest)
  {
    if s == "" {
      assert s + rest == rest;
    } else {
      assert (s + rest)[1..] == s[1..] + rest;
      LexPlain(s[1..], rest);
    }
  }

  lemma LexQuoted(text: string, q: char, rest: string)
    requires IsQuote(q) && (rest == "" || rest[0] != q)
    ensures Lex(Quoted(text, q) + rest) == [if q == '"' then Identifier(text) else Literal(text)] + Lex(rest)
  {
    hide Doubled, Undoubled, ClosingQuote;
    var s, d := Quoted(text, q) + rest, Doubled(text, q);
    assert s[1..] == d + [q] + rest && s[1..1 + |d|] == d && s[|d| + 2..] == rest;
    DoubledIsClosed(text, rest, q);
    DoubledRoundTrip(text, q);
  }

  /** Reading a rendered statement gives back its pieces. */
  lemma {:induction false} LexRendered(ps: seq<Piece>)
    requires Separated(ps)
    ensures Lex(Render(ps)) == Tokens(ps)
  {
    if ps != [] {
      var rest := Render(ps[1..]);
      LexRendered(ps[1..]);
      match ps[0]
      case Plain(s) =>
        LexPlain(s, rest);
      case Quote(text, q) =>
        assert rest == "" || rest[0] != q by {
          if |ps| > 1 {
            assert ps[1..][0].Plain? && rest[0] == ps[1].s[0];
          }
        }
        LexQuoted(text, q, rest);
    }
  }

  function ColumnPieces(cols: seq<string>): seq<Piece> {
    if cols == [] then []
    else [Plain("quote("), Quote(cols[0], '"'), Plain(if |cols| == 1 then ") " else "), ")] + ColumnPieces(cols[1..])
  }

  const HEAD: seq<Piece> := [Plain("SELECT "), Quote("INSERT INTO ", '\''), Plain(" || ")]
  const MIDDLE: seq<Piece> := [Plain(" || "), Quote(" VALUES(", '\''), Plain(" || ")]
  const TAIL: seq<Piece> := [Plain("|| "), Quote(")", '\''), Plain(" FROM  ")]

  /** The table name is quoted twice: as an identifier, and that text as a string literal. */
  function SelectPieces(table: string, cols: seq<string>): seq<Piece> {
    HEAD + [Quote(Quoted(table, '"'), '\'')] + MIDDLE + ColumnPieces(cols) + TAIL + [Quote(table, '"')]
  }

  lemma {:induction false} RenderAppend(ps: seq<Piece>, qs: seq<Piece>)
    ensures Render(ps + qs) == Render(ps) + Render(qs)
  {
    if ps == [] {
      assert ps + qs == qs;
    } else {
      assert (ps + qs)[1..] == ps[1..] + qs;
      RenderAppend(ps[1..], qs);
    }
  }

  lemma {:induction false} SeparatedAppend(ps: seq<Piece>, qs: seq<Piece>)
    requires Separated(ps) && Separated(qs)
    requires ps == [] || qs == [] || ps[|ps| - 1].Plain? || qs[0].Plain?
    ensures Separated(ps + qs)
  {
    if ps == [] {
      assert ps + qs == qs;
    } else {
      assert (ps + qs)[1..] == ps[1..] + qs;
      SeparatedAppend(ps[1..], qs);
    }
  }

  lemma RenderPiece(p: Piece)
    ensures Render([p]) == if p.Plain? then p.s else Quoted(p.text, p.q)
  {
    assert [p][1..] == [];
    assert Render([]) == "";
  }

  lemma RenderTriple(a: string, text: string, b: string, q: char)
    ensures Render([Plain(a), Quote(text, q), Plain(b)]) == a + Quoted(text, q) + b
  {
    var ps := [Plain(a), Quote(text, q), Plain(b)];
    assert ps == [Plain(a)] + [Quote(text, q)] + [Plain(b)];
    RenderAppend([Plain(a)] + [Quote(text, q)], [Plain(b)]);
    RenderAppend([Plain(a)], [Quote(text, q)]);
    RenderPiece(Plain(a));
    RenderPiece(Quote(text, q));
    RenderPiece(Plain(b));
  }

  predicate IsPlain(s: string) {
    s != "" && forall i :: 0 <= i < |s| ==> !IsQuote(s[i])
  }

  lemma SeparatedTriple(a: string, text: string, b: string, q: char)
    requires IsPlain(a) && IsPlain(b) && IsQuote(q)
    ensures Separated([Plain(a), Quote(text, q), Plain(b)])
  {
    var ps := [Plain(a), Quote(text, q), Plain(b)];
    assert ps[1..] == [Quote(text, q), Plain(b)] && ps[1..][1..] == [Plain(b)] && [Plain(b)][1..] == [];
    assert Separated([]);
    assert Separated([Plain(b)]);
    assert Separated([Quote(text, q), Plain(b)]);
  }

  lemma HeadText()
    ensures Render(HEAD) == "SELECT 'INSERT INTO ' || " && Separated(HEAD)
  {
    hide Render, Doubled, Separated;
    RenderTriple("SELECT ", "INSERT INTO ", " || ", '\'');
    SeparatedTriple("SELECT ", "INSERT INTO ", " || ", '\'');
    NothingToDouble("INSERT INTO ", '\'');
  }

  lemma MiddleText()
    ensures Render(MIDDLE) == " || ' VALUES(' || " && Separated(MIDDLE)
  {
    hide Render, Doubled, Separated;
    RenderTriple(" || ", " VALUES(", " || ", '\'');
    SeparatedTriple(" || ", " VALUES(", " || ", '\'');
    NothingToDouble(" VALUES(", '\'');
  }

  lemma TailText()
    ensures Render(TAIL) == "|| ')' FROM  " && Separated(TAIL)
  {
    hide Render, Doubled, Separated;
    RenderTriple("|| ", ")", " FROM  ", '\'');
    SeparatedTriple("|| ", ")", " FROM  ", '\'');
    NothingToDouble(")", '\'');
  }

  lemma {:induction false} ColumnsAreSeparated(cols: seq<string>)
    ensures Separated(ColumnPieces(cols))
    ensures cols != [] ==> ColumnPieces(cols)[0].Plain? && ColumnPieces(cols)[|ColumnPieces(cols)| - 1].Plain?
  {
    if cols != [] {
      var last := if |cols| == 1 then ") " else "), ";
      SeparatedTriple("quote(", cols[0], last, '"');
      ColumnsAreSeparated(cols[1..]);
      SeparatedAppend([Plain("quote("), Quote(cols[0], '"'), Plain(last)], ColumnPieces(cols[1..]));
    }
  }

  /** The column loop of the SELECT builder. */
  method AppendColumns(zIn: array<char>, cols: seq<string>) returns (z: array<char>)
    requires Terminated(zIn)
    requires forall i :: 0 <= i < |cols| ==> NulFree(cols[i])
    ensures Terminated(z) && Content(z) == Content(zIn) + Render(ColumnPieces(cols))
  {
    hide Terminated, Content, Render, Filled;
    ghost var start := Content(zIn);
    z := zIn;
    var i := 0;
    assert cols[0..] == cols;
    while i < |cols|
      invariant 0 <= i <= |cols| && Terminated(z)
      invariant start + Render(ColumnPieces(cols)) == Content(z) + Render(ColumnPieces(cols[i..]))
    {
      ghost var before := Content(z);
      var end := if i + 1 < |cols| then "), " else ") ";
      z := AppendText(z, "quote(", NUL);
      z := AppendText(z, cols[i], '"');
      z := AppendText(z, end, NUL);
      ColumnStep(before, cols, i);
      i := i + 1;
    }
    RenderNothing();
  }

  lemma RenderNothing()
    ensures Render([]) == ""
  {
  }

  lemma ColumnStep(text: string, cols: seq<string>, i: nat)
    requires i < |cols|
    ensures text + Render(ColumnPieces(cols[i..]))
         == text + "quote(" + Quoted(cols[i], '"') + (if i + 1 < |cols| then "), " else ") ")
            + Render(ColumnPieces(cols[i + 1..]))
  {
    hide Render;
    var end := if i + 1 < |cols| then "), " else ") ";
    var column := [Plain("quote("), Quote(cols[i], '"'), Plain(end)];
    assert cols[i..][1..] == cols[i + 1..];
    RenderAppend(column, ColumnPieces(cols[i + 1..]));
    RenderTriple("quote(", cols[i], end, '"');
    assert text + ("quote(" + Quoted(cols[i], '"') + end) == text + "quote(" + Quoted(cols[i], '"') + end;
  }

  lemma SelectText(table: string, cols: seq<string>)
    ensures Render(SelectPieces(table, cols))
         == SelectHead(table) + Render(ColumnPieces(cols)) + "|| ')' FROM  " + Quoted(table, '"')
  {
    hide Render, Doubled;
    HeadText();
    MiddleText();
    TailText();
    var q, t := Quote(Quoted(table, '"'), '\''), Quote(table, '"');
    RenderPiece(q);
    RenderPiece(t);
    RenderAppend(HEAD, [q]);
    RenderAppend(HEAD + [q], MIDDLE);
    RenderAppend(HEAD + [q] + MIDDLE, ColumnPieces(cols));
    RenderAppend(HEAD + [q] + MIDDLE + ColumnPieces(cols), TAIL);
    RenderAppend(HEAD + [q] + MIDDLE + ColumnPieces(cols) + TAIL, [t]);
  }

  lemma FixedTextsAreNulFree()
    ensures NulFree("SELECT 'INSERT INTO ' || ")
    ensures NulFree(" || ' VALUES(' || ")
    ensures NulFree("|| ')' FROM  ")
  {
  }

  function SelectHead(table: string): string {
    "SELECT 'INSERT INTO ' || " + Quoted(Quoted(table, '"'), '\'') + " || ' VALUES(' || "
  }

  /** The SELECT up to its columns. The table name is always quoted: it may be a keyword. */
  method BuildHead(zTable: string) returns (z: array<char>)
    requires NulFree(zTable)
    ensures Terminated(z) && Content(z) == SelectHead(zTable)
  {
    hide Terminated, Content, Quoted, NulFree;
    FixedTextsAreNulFree();
    z := AppendText(null, "SELECT 'INSERT INTO ' || ", NUL);
    var zTmp := AppendText(null, zTable, '"');
    AppendedIsNulFree(zTable, '"');
    assert zTmp[..zTmp.Length - 1] == Quoted(zTable, '"');
    hide Filled;
    z := AppendText(z, zTmp[..zTmp.Length - 1], '\'');
    z := AppendText(z, " || ' VALUES(' || ", NUL);
  }

  /** The SELECT builder of `dump_callback`; null when the table has no columns. */
  method BuildSelect(zTable: string, cols: seq<string>) returns (zSelect: array?<char>)
    requires NulFree(zTable) && forall i :: 0 <= i < |cols| ==> NulFree(cols[i])
    ensures zSelect == null <==> cols == []
    ensures zSelect != null ==> Terminated(zSelect) && Content(zSelect) == Render(SelectPieces(zTable, cols))
  {
    if cols == [] {
      return null;
    }
    hide Terminated, Content, Render, Quoted, ColumnPieces, NulFree, SelectPieces, SelectHead, Filled;
    FixedTextsAreNulFree();
    var z := BuildHead(zTable);
    z := AppendColumns(z, cols);
    z := AppendText(z, "|| ')' FROM  ", NUL);
    z := AppendText(z, zTable, '"');
    SelectText(zTable, cols);
    zSelect := z;
  }

  // ---------------------------------------------------------------- reading the SELECT back

  /** The quoted identifiers of a statement, in order. */
  function Names(ts: seq<Token>): seq<string> {
    if ts == [] then [] else (if ts[0].Identifier? then [ts[0].name] else []) + Names(ts[1..])
  }

  /** Its string literals, in order. */
  function LiteralTexts(ts: seq<Token>): seq<string> {
    if ts == [] then [] else (if ts[0].Literal? then [ts[0].text] else []) + LiteralTexts(ts[1..])
  }

  lemma {:induction false} TokenListAppend(ts: seq<Token>, us: seq<Token>)
    ensures Names(ts + us) == Names(ts) + Names(us) && LiteralTexts(ts + us) == LiteralTexts(ts) + LiteralTexts(us)
  {
    if ts == [] {
      assert ts + us == us;
    } else {
      var t, rest := ts[0], ts[1..];
      assert (ts + us)[0] == t && (ts + us)[1..] == rest + us;
      TokenListAppend(rest, us);
      Concat(if t.Identifier? then [t.name] else [], Names(rest), Names(us));
      Concat(if t.Literal? then [t.text] else [], LiteralTexts(rest), LiteralTexts(us));
    }
  }

  lemma {:induction false} NoNames(ts: seq<Token>)
    requires forall i :: 0 <= i < |ts| ==> ts[i].Other?
    ensures Names(ts) == [] && LiteralTexts(ts) == []
  {
    if ts != [] {
      NoNames(ts[1..]);
    }
  }

  /** The names and literals that a list of pieces holds. */
  function PieceNames(ps: seq<Piece>, q: char): seq<string> {
    if ps == [] then [] else (if ps[0].Quote? && ps[0].q == q then [ps[0].text] else []) + PieceNames(ps[1..], q)
  }

  lemma {:induction false} PieceNamesAppend(ps: seq<Piece>, qs: seq<Piece>, q: char)
    ensures PieceNames(ps + qs, q) == PieceNames(ps, q) + PieceNames(qs, q)
  {
    if ps == [] {
      assert ps + qs == qs;
    } else {
      assert (ps + qs)[1..] == ps[1..] + qs;
      PieceNamesAppend(ps[1..], qs, q);
    }
  }

  lemma {:induction false} NamesOfPieces(ps: seq<Piece>)
    requires Separated(ps)
    ensures Names(Tokens(ps)) == PieceNames(ps, '"') && LiteralTexts(Tokens(ps)) == PieceNames(ps, '\'')
  {
    if ps != [] {
      NamesOfPieces(ps[1..]);
      match ps[0]
      case Plain(s) =>
        var ts := seq(|s|, i requires 0 <= i < |s| => Other(s[i]));
        NoNames(ts);
        TokenListAppend(ts, Tokens(ps[1..]));
      case Quote(text, q) =>
        var t := if q == '"' then Identifier(text) else Literal(text);
        TokenListAppend([t], Tokens(ps[1..]));
        assert [t][1..] == [];
    }
  }

  lemma {:induction false} NamesOfColumns(cols: seq<string>)
    ensures PieceNames(ColumnPieces(cols), '"') == cols && PieceNames(ColumnPieces(cols), '\'') == []
  {
    if cols != [] {
      var last := if |cols| == 1 then ") " else "), ";
      NamesOfColumns(cols[1..]);
      NamesOfTriple("quote(", cols[0], last, '"', '"');
      NamesOfTriple("quote(", cols[0], last, '"', '\'');
      PieceNamesAppend([Plain("quote("), Quote(cols[0], '"'), Plain(last)], ColumnPieces(cols[1..]), '"');
      PieceNamesAppend([Plain("quote("), Quote(cols[0], '"'), Plain(last)], ColumnPieces(cols[1..]), '\'');
    }
  }

  lemma NamesOfTriple(a: string, text: string, b: string, q: char, r: char)
    ensures PieceNames([Plain(a), Quote(text, q), Plain(b)], r) == if q == r then [text] else []
  {
    var ps := [Plain(a), Quote(text, q), Plain(b)];
    assert ps[1..] == [Quote(text, q), Plain(b)] && ps[1..][1..] == [Plain(b)] && [Plain(b)][1..] == [];
    assert PieceNames([Plain(b)], r) == [];
    assert PieceNames(ps[1..], r) == if q == r then [text] else [];
  }

  lemma NamesOfQuote(text: string, q: char, r: char)
    ensures PieceNames([Quote(text, q)], r) == if q == r then [text] else []
  {
    assert [Quote(text, q)][1..] == [];
  }

  lemma NamesOfSelect(table: string, cols: seq<string>, r: char)
    requires IsQuote(r)
    ensures PieceNames(SelectPieces(table, cols), r)
         == if r == '"' then cols + [table] else ["INSERT INTO ", Quoted(table, '"'), " VALUES(", ")"]
  {
    hide PieceNames, ColumnPieces;
    var q, t := Quote(Quoted(table, '"'), '\''), Quote(table, '"');
    NamesOfTriple("SELECT ", "INSERT INTO ", " || ", '\'', r);
    NamesOfTriple(" || ", " VALUES(", " || ", '\'', r);
    NamesOfTriple("|| ", ")", " FROM  ", '\'', r);
    NamesOfQuote(Quoted(table, '"'), '\'', r);
    NamesOfQuote(table, '"', r);
    NamesOfColumns(cols);
    PieceNamesAppend(HEAD, [q], r);
    PieceNamesAppend(HEAD + [q], MIDDLE, r);
    PieceNamesAppend(HEAD + [q] + MIDDLE, ColumnPieces(cols), r);
    PieceNamesAppend(HEAD + [q] + MIDDLE + ColumnPieces(cols), TAIL, r);
    PieceNamesAppend(HEAD + [q] + MIDDLE + ColumnPieces(cols) + TAIL, [t], r);
  }

  lemma SelectIsSeparated(table: string, cols: seq<string>)
    requires cols != []
    ensures Separated(SelectPieces(table, cols))
  {
    hide Separated, Render, ColumnPieces;
    var q, t := Quote(Quoted(table, '"'), '\''), Quote(table, '"');
    HeadText();
    MiddleText();
    TailText();
    ColumnsAreSeparated(cols);
    LoneQuote(q);
    LoneQuote(t);
    SeparatedAppend(HEAD, [q]);
    SeparatedAppend(HEAD + [q], MIDDLE);
    SeparatedAppend(HEAD + [q] + MIDDLE, ColumnPieces(cols));
    SeparatedAppend(HEAD + [q] + MIDDLE + ColumnPieces(cols), TAIL);
    SeparatedAppend(HEAD + [q] + MIDDLE + ColumnPieces(cols) + TAIL, [t]);
  }

  lemma LoneQuote(p: Piece)
    requires p.Quote? && IsQuote(p.q)
    ensures Separated([p])
  {
    assert [p][1..] == [];
    assert Separated([]);
  }

  /** Reading the SELECT back: its identifiers are exactly the columns, in order, and the table; the table name
      inside its string literal is, once more, an identifier with exactly that name. */
  lemma SelectRoundTrip(table: string, cols: seq<string>)
    requires cols != []
    ensures var ts := Lex(Render(SelectPieces(table, cols)));
            && Names(ts) == cols + [table]
            && LiteralTexts(ts) == ["INSERT INTO ", Quoted(table, '"'), " VALUES(", ")"]
            && Unclosed !in ts
    ensures Lex(Quoted(table, '"')) == [Identifier(table)]
  {
    var ps := SelectPieces(table, cols);
    SelectIsSeparated(table, cols);
    LexRendered(ps);
    NamesOfPieces(ps);
    NamesOfSelect(table, cols, '"');
    NamesOfSelect(table, cols, '\'');
    NothingUnclosed(ps);
    LexQuoted(table, '"', "");
    assert Quoted(table, '"') + "" == Quoted(table, '"');
  }

  lemma {:induction false} NothingUnclosed(ps: seq<Piece>)
    ensures Unclosed !in Tokens(ps)
  {
    if ps != [] {
      NothingUnclosed(ps[1..]);
    }
  }

  lemma NoQuotes(s: string, q: char)
    requires forall i :: 0 <= i < |s| ==> s[i] != q
    ensures Quoted(s, q) == [q] + s + [q]
  {
    NothingToDouble(s, q);
  }

  /** The SELECT for a table with two columns. */
  lemma SelectOfTwo(table: string, a: string, b: string)
    ensures Render(SelectPieces(table, [a, b]))
         == "SELECT 'INSERT INTO ' || " + Quoted(Quoted(table, '"'), '\'') + " || ' VALUES(' || "
            + ("quote(" + Quoted(a, '"') + "), " + ("quote(" + Quoted(b, '"') + ") ")) + "|| ')' FROM  "
            + Quoted(table, '"')
  {
    hide Doubled, Render, SelectPieces, ColumnPieces, Quoted;
    SelectText(table, [a, b]);
    TwoColumns(a, b);
  }

  lemma TwoColumns(a: string, b: string)
    ensures Render(ColumnPieces([a, b])) == "quote(" + Quoted(a, '"') + "), " + ("quote(" + Quoted(b, '"') + ") ")
  {
    var first := [Plain("quote("), Quote(a, '"'), Plain("), ")];
    var second := [Plain("quote("), Quote(b, '"'), Plain(") ")];
    assert [a, b][1..] == [b] && [b][1..] == [] && ColumnPieces([b]) == second + [];
    assert second + [] == second;
    hide Render, Quoted;
    RenderTriple("quote(", a, "), ", '"');
    RenderTriple("quote(", b, ") ", '"');
    RenderAppend(first, second);
  }

  /** Names that are stored as they are, and names that are stored in quotes. */
  lemma TableNameExamples()
    ensures TableName("t") == "t" && TableName("_a1") == "_a1" && TableName("Ab") == "Ab"
    ensures TableName("1a") == "'1a'" && TableName("a b") == "'a b'" && TableName("") == "''"
  {
    NoQuotes("1a", '\'');
    NoQuotes("a b", '\'');
    NoQuotes("", '\'');
    assert ['\''] + "1a" + ['\''] == "'1a'" && ['\''] + "a b" + ['\''] == "'a b'" && ['\''] + "" + ['\''] == "''";
    hide Doubled;
    assert !IsNameChar("a b"[1]);
  }
}
