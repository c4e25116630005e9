/** How SQL reads the literals of a VALUES list, and the round trip of INSERT output mode through it. */
module SqlLiterals {
  import opened CStrings
  import opened Quoting
  import opened Shell
  import opened InsertMode

  // ---------------------------------------------------------------- the lexical rules of SQL

  datatype Value = NullValue | TextValue(text: string) | NumberValue(digits: string) | BlobValue(bytes: seq<byte>)

  /** The literal at the start of a text and its length. */
  datatype Lexed = NoLiteral | Lexed(v: Value, length: nat)

  /** Pairs of hexadecimal digits. */
  function HexBytes(s: string): Option<seq<byte>> {
    if s == "" then Some([])
    else if |s| == 1 || HexDigitValue(s[0]) < 0 || HexDigitValue(s[1]) < 0 then None
    else
      match HexBytes(s[2..])
      case None => None
      case Some(rest) => Some([HexDigitValue(s[0]) * 16 + HexDigitValue(s[1])] + rest)
  }

  function LexText(s: string): Lexed {
    var n := ClosingQuote(s, APOSTROPHE);
    if n < |s| then Lexed(TextValue(Undoubled(s[..n], APOSTROPHE)), n + 1) else NoLiteral
  }

  function LexBlob(s: string): Lexed {
    var n := ClosingQuote(s, APOSTROPHE);
    if n < |s| && HexBytes(s[..n]).Some? then Lexed(BlobValue(HexBytes(s[..n]).value), n + 1) else NoLiteral
  }

  function LexNumber(s: string): Lexed {
    var n := NumberLength(s);
    if n > 0 then Lexed(NumberValue(s[..n]), n) else NoLiteral
  }

  function Shift(l: Lexed, n: nat): Lexed {
    if l.NoLiteral? then l else l.(length := l.length + n)
  }

  function LexLiteral(s: string): Lexed {
    if s != "" && s[0] == APOSTROPHE then Shift(LexText(s[1..]), 1)
    else if |s| > 1 && ToUpper(s[0]) == 'X' && s[1] == APOSTROPHE then Shift(LexBlob(s[2..]), 2)
    else if |s| >= 4 && Upper(s[..4]) == "NULL" then Lexed(NullValue, 4)
    else LexNumber(s)
  }

  datatype ListLexed = BadList | Values(vs: seq<Value>, rest: string)

  /** Literals separated by commas and closed by a parenthesis. */
  function LexList(s: string): ListLexed
    decreases |s|
  {
    var l := LexLiteral(s);
    if l.NoLiteral? || l.length >= |s| then BadList
    else if s[l.length] == ')' then Values([l.v], s[l.length + 1..])
    else if s[l.length] != ',' then BadList
    else
      match LexList(s[l.length + 1..])
      case BadList => BadList
      case Values(vs, rest) => Values([l.v] + vs, rest)
  }

  // ---------------------------------------------------------------- round trip

  /** The value that a printed cell must be read back as. Without type information a text that looks like a number is
      taken for one. */
  function CellValue(c: Cell, typed: bool, hasStmt: bool): Value {
    if c.arg.None? || (typed && c.ty == NULL) then NullValue
    else if typed && c.ty == TEXT then TextValue(c.arg.value)
    else if typed && (c.ty == INTEGER || c.ty == FLOAT) then NumberValue(c.arg.value)
    else if typed && c.ty == BLOB && hasStmt then BlobValue(c.blob)
    else if IsNumberText(c.arg.value) then NumberValue(c.arg.value)
    else TextValue(c.arg.value)
  }

  /** An integer or float cell whose text is not a number, such as an infinity: it is printed as it is. */
  predicate Unprintable(c: Cell, typed: bool) {
    typed && (c.ty == INTEGER || c.ty == FLOAT) && c.arg.Some? && !IsNumberText(c.arg.value)
  }

  /** A list element is followed by a comma or the closing parenthesis. */
  predicate EndsElement(rest: string) {
    rest != "" && (rest[0] == ',' || rest[0] == ')')
  }

  lemma HexDigitRoundTrip(n: nat)
    ensures HexDigitValue(HexDigit(n)) == n % 16
  {
  }

  lemma Nibbles(b: byte)
    ensures var high, low := HexDigitValue(HexDigit(b / 16)), HexDigitValue(HexDigit(b));
            high >= 0 && low >= 0 && high * 16 + low == b
  {
    HexDigitRoundTrip(b / 16);
    HexDigitRoundTrip(b);
  }

  lemma {:induction false} HexRoundTrip(blob: seq<byte>)
    ensures HexBytes(Hex(blob)) == Some(blob)
  {
    if blob != [] {
      HexStep(blob[0], Hex(blob[1..]));
      hide HexBytes, HexDigit;
      HexRoundTrip(blob[1..]);
      assert blob == [blob[0]] + blob[1..];
    }
  }

  lemma HexStep(b: byte, rest: string)
    ensures HexBytes([HexDigit(b / 16), HexDigit(b)] + rest)
         == if HexBytes(rest).None? then None else Some([b] + HexBytes(rest).value)
  {
    hide HexDigit, HexDigitValue;
    Nibbles(b);
    var s := [HexDigit(b / 16), HexDigit(b)] + rest;
    assert s[0] == HexDigit(b / 16) && s[1] == HexDigit(b) && s[2..] == rest;
  }

  lemma {:induction false} HexHasNoQuote(blob: seq<byte>)
    ensures forall i :: 0 <= i < |Hex(blob)| ==> Hex(blob)[i] != APOSTROPHE
  {
    if blob != [] {
      HexHasNoQuote(blob[1..]);
    }
  }

  lemma {:induction false} DigitRunStops(t: string, rest: string)
    requires EndsElement(rest)
    ensures DigitRun(t + rest) == DigitRun(t)
  {
    if t == "" {
      assert t + rest == rest;
    } else {
      assert (t + rest)[1..] == t[1..] + rest;
      DigitRunStops(t[1..], rest);
    }
  }

  lemma FractionStops(t: string, rest: string)
    requires EndsElement(rest)
    ensures FractionLength(t + rest) == FractionLength(t)
  {
    if t != "" {
      assert (t + rest)[1..] == t[1..] + rest;
      DigitRunStops(t[1..], rest);
    }
  }

  lemma ExponentStops(t: string, rest: string)
    requires EndsElement(rest)
    ensures ExponentLength(t + rest) == ExponentLength(t)
  {
    if t != "" {
      var u := t[1..];
      assert (t + rest)[1..] == u + rest;
      var sign := SignLength(u);
      assert SignLength(u + rest) == sign;
      assert (t + rest)[1 + sign..] == t[1 + sign..] + rest;
      DigitRunStops(t[1 + sign..], rest);
    }
  }

  /** A number is read to its end, and not beyond. */
  lemma NumberStops(t: string, rest: string)
    requires EndsElement(rest)
    ensures NumberLength(t + rest) == NumberLength(t)
  {
    hide DigitRun, FractionLength, ExponentLength;
    var s := t + rest;
    var sign := SignLength(t);
    assert SignLength(s) == sign;
    DropConcat(t, rest, sign);
    DigitRunStops(t[sign..], rest);
    var i := sign + DigitRun(t[sign..]);
    DropConcat(t, rest, i);
    FractionStops(t[i..], rest);
    var f := i + FractionLength(t[i..]);
    DropConcat(t, rest, f);
    ExponentStops(t[f..], rest);
  }

  lemma TextRoundTrip(z: string, rest: string)
    requires EndsElement(rest)
    ensures LexLiteral(Quoted(z, APOSTROPHE) + rest) == Lexed(TextValue(z), |Quoted(z, APOSTROPHE)|)
  {
    var d := Doubled(z, APOSTROPHE);
    var s := Quoted(z, APOSTROPHE) + rest;
    assert s[1..] == d + [APOSTROPHE] + rest;
    DoubledIsClosed(z, rest, APOSTROPHE);
    assert s[1..][..|d|] == d;
    DoubledRoundTrip(z, APOSTROPHE);
  }

  lemma BlobRoundTrip(blob: seq<byte>, rest: string)
    requires EndsElement(rest)
    ensures LexLiteral("X'" + Hex(blob) + "'" + rest) == Lexed(BlobValue(blob), |"X'" + Hex(blob) + "'"|)
  {
    hide Hex, HexBytes, ClosingQuote, Doubled;
    var h := Hex(blob);
    var s := "X'" + h + "'" + rest;
    assert s[2..] == h + [APOSTROPHE] + rest;
    HexHasNoQuote(blob);
    NothingToDouble(h, APOSTROPHE);
    DoubledIsClosed(h, rest, APOSTROPHE);
    assert s[2..][..|h|] == h;
    HexRoundTrip(blob);
  }

  lemma NumberStart(z: string)
    requires NumberLength(z) > 0
    ensures z != "" && (IsSign(z[0]) || IsDigit(z[0]))
  {
  }

  lemma NumberRoundTrip(z: string, rest: string)
    requires EndsElement(rest)
    ensures LexLiteral(z + rest) == Lexed(NumberValue(z), |z|) <==> IsNumberText(z)
  {
    hide NumberLength, LexText, LexBlob;
    var s := z + rest;
    NumberStops(z, rest);
    assert s[..|z|] == z;
    if NumberLength(z) > 0 {
      NumberStart(z);
      assert s[0] == z[0];
      assert |s| >= 4 ==> Upper(s[..4])[0] == ToUpper(z[0]) && ToUpper(z[0]) != 'N';
      assert LexLiteral(s) == LexNumber(s);
    } else {
      NotANumber(s);
    }
  }

  lemma NotANumber(s: string)
    requires NumberLength(s) == 0
    ensures forall z, n :: LexLiteral(s) != Lexed(NumberValue(z), n)
  {
    hide NumberLength;
  }

  /** Every printed cell is read back as its value - exactly when it is not an unprintable number. */
  lemma LiteralRoundTrip(c: Cell, typed: bool, hasStmt: bool, rest: string)
    requires EndsElement(rest)
    ensures var z := PrintedLiteral(c, typed, hasStmt);
            LexLiteral(z + rest) == Lexed(CellValue(c, typed, hasStmt), |z|) <==> !Unprintable(c, typed)
  {
    hide LexLiteral, IsNumberText;
    if c.arg.None? || (typed && c.ty == NULL) {
      NullRoundTrip(rest);
    } else if !(typed && c.ty == BLOB && hasStmt) {
      TextRoundTrip(c.arg.value, rest);
      NumberRoundTrip(c.arg.value, rest);
    } else {
      BlobRoundTrip(c.blob, rest);
    }
  }

  /** A float cell that holds an infinity is printed as `Inf`, and no literal is read back. */
  lemma InfinityIsRaw(hasStmt: bool, rest: string)
    requires EndsElement(rest)
    ensures var c := Cell(Some("Inf"), FLOAT, []);
            PrintedLiteral(c, true, hasStmt) == "Inf" && LexLiteral("Inf" + rest) == NoLiteral
  {
    NumberStops("Inf", rest);
    var s := "Inf" + rest;
    assert s[0] == 'I' && (|s| >= 4 ==> Upper(s[..4])[0] == 'I' && "NULL"[0] == 'N');
  }

  lemma NullRoundTrip(rest: string)
    ensures LexLiteral("NULL" + rest) == Lexed(NullValue, 4)
  {
    var s := "NULL" + rest;
    assert s[..4] == "NULL" && Upper("NULL") == "NULL";
  }

  lemma ListStep(z: string, tail: string, v: Value)
    requires EndsElement(tail) && LexLiteral(z + tail) == Lexed(v, |z|)
    ensures LexList(z + tail) ==
            if tail[0] == ')' then Values([v], tail[1..])
            else match LexList(tail[1..])
                 case BadList => BadList
                 case Values(vs, rest) => Values([v] + vs, rest)
  {
    hide LexLiteral;
    var s := z + tail;
    assert s[|z|] == tail[0] && s[|z| + 1..] == tail[1..];
  }

  // ---------------------------------------------------------------- only numbers are read as numbers

  lemma {:induction false} DigitRunPrefix(s: string, k: nat)
    requires DigitRun(s) <= k <= |s|
    ensures DigitRun(s[..k]) == DigitRun(s)
  {
    if k > 0 {
      assert s[..k][1..] == s[1..][..k - 1];
      if IsDigit(s[0]) {
        DigitRunPrefix(s[1..], k - 1);
      }
    }
  }

  lemma FractionPrefix(s: string, k: nat)
    requires FractionLength(s) <= k <= |s|
    ensures FractionLength(s[..k]) == FractionLength(s)
  {
    if k > 0 && s[0] == '.' {
      assert s[..k][1..] == s[1..][..k - 1];
      DigitRunPrefix(s[1..], k - 1);
    }
  }

  lemma ExponentPrefix(s: string)
    ensures ExponentLength(s[..ExponentLength(s)]) == ExponentLength(s)
  {
    var k := ExponentLength(s);
    if k > 0 {
      var sign := SignLength(s[1..]);
      var t := s[..k];
      TakeDrop(s, k, 1);
      TakeDrop(s, k, 1 + sign);
      DigitRunPrefix(s[1 + sign..], k - 1 - sign);
    }
  }

  /** The longest number at the start of a text is a number by itself. */
  lemma NumberPrefix(s: string)
    ensures NumberLength(s[..NumberLength(s)]) == NumberLength(s)
  {
    hide DigitRun, FractionLength, ExponentLength;
    var n := NumberLength(s);
    var t := s[..n];
    if n > 0 {
      var sign := SignLength(s);
      var i := sign + DigitRun(s[sign..]);
      var f := i + FractionLength(s[i..]);
      assert n == f + ExponentLength(s[f..]);
      TakeDrop(s, n, sign);
      DigitRunPrefix(s[sign..], n - sign);
      TakeDrop(s, n, i);
      FractionPrefix(s[i..], n - i);
      TakeDrop(s, n, f);
      ExponentPrefix(s[f..]);
    } else {
      NoNumber();
    }
  }

  lemma NoNumber()
    ensures NumberLength("") == 0
  {
  }

  lemma NumberIsNumber(s: string)
    ensures var l := LexLiteral(s); l.Lexed? && l.v.NumberValue? ==> IsNumberText(l.v.digits)
  {
    hide NumberLength;
    NumberPrefix(s);
  }

  predicate AllNumbers(vs: seq<Value>) {
    forall i :: 0 <= i < |vs| && vs[i].NumberValue? ==> IsNumberText(vs[i].digits)
  }

  /** Every number that is read from a list is a number. */
  lemma {:induction false} NumbersAreNumbers(s: string)
    ensures LexList(s).Values? ==> AllNumbers(LexList(s).vs)
    decreases |s|
  {
    hide LexLiteral, IsNumberText;
    NumberIsNumber(s);
    var l := LexLiteral(s);
    if l.Lexed? && l.length < |s| && s[l.length] == ',' {
      var r := LexList(s[l.length + 1..]);
      NumbersAreNumbers(s[l.length + 1..]);
      if r.Values? {
        assert LexList(s).vs == [l.v] + r.vs;
      }
    }
  }

  // ---------------------------------------------------------------- rows

  /** The values of a row. */
  function CellValues(row: seq<Cell>, typed: bool, hasStmt: bool): (vs: seq<Value>)
    ensures |vs| == |row| && forall i :: 0 <= i < |row| ==> vs[i] == CellValue(row[i], typed, hasStmt)
  {
    if row == [] then [] else [CellValue(row[0], typed, hasStmt)] + CellValues(row[1..], typed, hasStmt)
  }

  predicate Printable(row: seq<Cell>, typed: bool) {
    forall i :: 0 <= i < |row| ==> !Unprintable(row[i], typed)
  }

  /** The whole row: the printed VALUES list, whatever follows it, is read back as the row's cells in order - if and
      only if no cell is an unprintable number. */
  lemma RowRoundTrip(row: seq<Cell>, typed: bool, hasStmt: bool, rest: string)
    requires row != []
    ensures LexList(Joined(Literals(row, typed, hasStmt)) + ")" + rest) == Values(CellValues(row, typed, hasStmt), rest)
       <==> Printable(row, typed)
  {
    hide LexList, Joined, Literals, IsNumberText, CellValue, Unprintable, AllNumbers;
    if Printable(row, typed) {
      PrintableRow(row, typed, hasStmt, rest);
    } else {
      NumbersAreNumbers(Joined(Literals(row, typed, hasStmt)) + ")" + rest);
      SomeBadNumber(row, typed, hasStmt);
    }
  }

  lemma SomeBadNumber(row: seq<Cell>, typed: bool, hasStmt: bool)
    requires !Printable(row, typed)
    ensures !AllNumbers(CellValues(row, typed, hasStmt))
  {
    hide IsNumberText;
    var i :| 0 <= i < |row| && Unprintable(row[i], typed);
    assert CellValues(row, typed, hasStmt)[i] == NumberValue(row[i].arg.value);
  }

  lemma {:induction false} PrintableRow(row: seq<Cell>, typed: bool, hasStmt: bool, rest: string)
    requires row != [] && Printable(row, typed)
    ensures LexList(Joined(Literals(row, typed, hasStmt)) + ")" + rest) == Values(CellValues(row, typed, hasStmt), rest)
  {
    hide LexLiteral, LexList, CellValue, PrintedLiteral, Unprintable;
    var parts := Literals(row, typed, hasStmt);
    var s := Joined(parts) + ")" + rest;
    var list := if |row| == 1 then "" else Joined(parts[1..]) + ")" + rest;
    var tail := if |row| == 1 then ")" + rest else "," + list;
    assert s == parts[0] + tail;
    LiteralRoundTrip(row[0], typed, hasStmt, tail);
    ListStep(parts[0], tail, CellValue(row[0], typed, hasStmt));
    if |row| == 1 {
      assert tail[1..] == rest;
      assert CellValues(row[1..], typed, hasStmt) == [];
    } else {
      assert tail[1..] == list;
      assert parts[1..] == Literals(row[1..], typed, hasStmt);
      PrintableRow(row[1..], typed, hasStmt, rest);
    }
  }
}
