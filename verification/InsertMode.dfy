/** INSERT output mode: SQL literals as the shell prints them, and as SQL reads them back. */
module InsertMode {
  import opened CStrings
  import opened Quoting
  import opened Shell

  const APOSTROPHE: char := '\''

  datatype SqlType = INTEGER | FLOAT | TEXT | BLOB | NULL

  /** A result cell: its text (a null pointer for NULL), its type, and its bytes. */
  datatype Cell = Cell(arg: Option<string>, ty: SqlType, blob: seq<byte>)

  // ---------------------------------------------------------------- numbers

  predicate IsSign(c: char) {
    c == '-' || c == '+'
  }

  function SignLength(s: string): (n: nat)
    ensures n <= |s|
  {
    if s != "" && IsSign(s[0]) then 1 else 0
  }

  function FractionLength(s: string): (n: nat)
    ensures n <= |s|
  {
    if s != "" && s[0] == '.' && DigitRun(s[1..]) > 0 then 1 + DigitRun(s[1..]) else 0
  }

  function ExponentLength(s: string): (n: nat)
    ensures n <= |s|
  {
    if s == "" || (s[0] != 'e' && s[0] != 'E') then 0
    else
      var sign := SignLength(s[1..]);
      var digits := DigitRun(s[1 + sign..]);
      if digits > 0 then 1 + sign + digits else 0
  }

  /** The length of the longest number at the start of a text, 0 if there is none. */
  function NumberLength(s: string): (n: nat)
    ensures n <= |s|
  {
    var sign := SignLength(s);
    var digits := DigitRun(s[sign..]);
    if digits == 0 then 0
    else
      var i := sign + digits;
      var f := i + FractionLength(s[i..]);
      f + ExponentLength(s[f..])
  }

  predicate IsNumberText(z: string) {
    z != "" && NumberLength(z) == |z|
  }

  /** The fraction part of `isNumber`: fails on a point without digits. */
  method SkipFraction(z: string, i: nat) returns (ok: bool, next: nat)
    requires i <= |z|
    ensures ok == (i == |z| || z[i] != '.' || FractionLength(z[i..]) > 0)
    ensures next == i + FractionLength(z[i..])
  {
    if i == |z| || z[i] != '.' {
      return true, i;
    }
    assert z[i..][1..] == z[i + 1..];
    next := SkipDigits(z, i + 1);
    if next == i + 1 {
      return false, i;
    }
    ok := true;
  }

  /** The exponent part of `isNumber`: fails on an `e` without digits. */
  method SkipExponent(z: string, i: nat) returns (ok: bool, next: nat)
    requires i <= |z|
    ensures ok == (i == |z| || (z[i] != 'e' && z[i] != 'E') || ExponentLength(z[i..]) > 0)
    ensures next == i + ExponentLength(z[i..])
  {
    if i == |z| || (z[i] != 'e' && z[i] != 'E') {
      return true, i;
    }
    var j := i + 1;
    assert z[i..][1..] == z[j..];
    if j < |z| && IsSign(z[j]) {
      assert z[i..][2..] == z[j + 1..];
      j := j + 1;
    }
    next := SkipDigits(z, j);
    if next == j {
      return false, i;
    }
    ok := true;
  }

  /** `isNumber`: the text is a number from its first to its last character. */
  method IsNumber(z: string) returns (r: bool)
    ensures r == IsNumberText(z)
  {
    hide FractionLength, ExponentLength;
    var i := 0;
    if i < |z| && IsSign(z[i]) {
      i := i + 1;
    }
    var j := SkipDigits(z, i);
    if j == i {
      return false;
    }
    var ok, k := SkipFraction(z, j);
    if !ok {
      PointOnly(z[j..]);
      return false;
    }
    var end;
    ok, end := SkipExponent(z, k);
    return ok && end == |z|;
  }

  lemma PointOnly(s: string)
    requires s != "" && s[0] == '.'
    ensures ExponentLength(s) == 0
  {
  }

  // ---------------------------------------------------------------- numbers, put together from their parts

  predicate AllDigits(s: string) {
    s != "" && forall i :: 0 <= i < |s| ==> '0' <= s[i] <= '9'
  }

  predicate SignText(s: string) {
    s == "" || s == "+" || s == "-"
  }

  predicate FractionText(s: string) {
    s == "" || (s[0] == '.' && AllDigits(s[1..]))
  }

  ghost predicate ExponentText(s: string) {
    s == "" ||
    ((s[0] == 'e' || s[0] == 'E') &&
     exists sign, digits :: s[1..] == sign + digits && SignText(sign) && AllDigits(digits))
  }

  ghost predicate MadeOf(z: string, sign: string, whole: string, fraction: string, exponent: string) {
    && z == sign + (whole + (fraction + exponent))
    && SignText(sign) && AllDigits(whole) && FractionText(fraction) && ExponentText(exponent)
  }

  lemma DigitsThenOther(d: string, rest: string)
    requires AllDigits(d) && (rest == "" || !('0' <= rest[0] <= '9'))
    ensures DigitRun(d + rest) == |d| && (d + rest)[|d|..] == rest && (d + rest)[0] == d[0]
  {
    DigitRunAppend(d, rest);
  }

  lemma ExponentIsRead(exponent: string)
    requires ExponentText(exponent)
    ensures ExponentLength(exponent) == |exponent|
  {
    if exponent != "" {
      hide DigitRun;
      var sign, digits :| exponent[1..] == sign + digits && SignText(sign) && AllDigits(digits);
      SignedDigits(exponent[1..], sign, digits);
      assert exponent[1..][|sign|..] == exponent[1 + |sign|..];
    }
  }

  lemma SignedDigits(t: string, sign: string, digits: string)
    requires t == sign + digits && SignText(sign) && AllDigits(digits)
    ensures SignLength(t) == |sign| && t[|sign|..] == digits && DigitRun(digits) == |digits| > 0
  {
    DigitsThenOther(digits, "");
    assert digits + "" == digits;
    assert t[0] == if sign == "" then digits[0] else sign[0];
  }

  lemma FractionIsRead(fraction: string, exponent: string)
    requires FractionText(fraction) && ExponentText(exponent)
    ensures FractionLength(fraction + exponent) == |fraction|
    ensures var t := fraction + exponent; t == "" || !('0' <= t[0] <= '9')
  {
    if fraction != "" {
      assert (fraction + exponent)[1..] == fraction[1..] + exponent;
      DigitsThenOther(fraction[1..], exponent);
    } else {
      assert fraction + exponent == exponent;
    }
  }

  /** A text made of an optional sign, digits, an optional point with digits and an optional exponent is a number. */
  lemma MadeIsNumber(z: string, sign: string, whole: string, fraction: string, exponent: string)
    requires MadeOf(z, sign, whole, fraction, exponent)
    ensures IsNumberText(z)
  {
    hide FractionLength, ExponentLength, NumberLength, DigitRun, FractionText, ExponentText;
    var tail := fraction + exponent;
    var n, i, f := |sign|, |sign| + |whole|, |sign| + |whole| + |fraction|;
    FractionIsRead(fraction, exponent);
    ExponentIsRead(exponent);
    DigitsThenOther(whole, tail);
    assert z[n..] == whole + tail && z[0] == if sign == "" then whole[0] else sign[0];
    SuffixOf(z, n, whole, tail);
    SuffixOf(z, i, fraction, exponent);
    NumberLengthIs(z, n, i, f);
  }

  lemma SuffixOf(z: string, n: nat, a: string, b: string)
    requires n <= |z| && z[n..] == a + b
    ensures z[n + |a|..] == b && z[n..n + |a|] == a
  {
    assert z[n..][|a|..] == b && z[n..][..|a|] == a;
  }

  lemma NumberLengthIs(z: string, n: nat, i: nat, f: nat)
    requires n == SignLength(z) && n < i <= f <= |z| && DigitRun(z[n..]) == i - n
    requires FractionLength(z[i..]) == f - i && ExponentLength(z[f..]) == |z| - f
    ensures IsNumberText(z)
  {
    hide DigitRun, FractionLength, ExponentLength, SignLength;
  }

  lemma {:induction false} DigitRunIsDigits(s: string)
    ensures forall i :: 0 <= i < DigitRun(s) ==> '0' <= s[i] <= '9'
  {
    if s != "" && IsDigit(s[0]) {
      DigitRunIsDigits(s[1..]);
    }
  }

  lemma FractionParts(s: string)
    ensures FractionText(s[..FractionLength(s)])
  {
    if FractionLength(s) > 0 {
      DigitRunIsDigits(s[1..]);
      assert s[..FractionLength(s)][1..] == s[1..][..DigitRun(s[1..])];
    }
  }

  lemma ExponentParts(s: string)
    requires ExponentLength(s) == |s|
    ensures ExponentText(s)
  {
    if s != "" {
      var n := SignLength(s[1..]);
      var sign, digits := s[1..1 + n], s[1 + n..];
      DigitRunIsDigits(digits);
      assert s[1..] == sign + digits;
      assert n == 1 ==> sign == [s[1]];
    }
  }

  lemma NumberParts(z: string, n: nat, i: nat, f: nat)
    requires IsNumberText(z) && n == SignLength(z) && i == n + DigitRun(z[n..]) && f == i + FractionLength(z[i..])
    ensures MadeOf(z, z[..n], z[n..i], z[i..f], z[f..])
  {
    hide FractionLength, ExponentLength, FractionText, ExponentText, DigitRun, AllDigits;
    FractionParts(z[i..]);
    assert z[i..f] == z[i..][..f - i];
    ExponentParts(z[f..]);
    assert n == 1 ==> z[..n] == [z[0]];
    WholePart(z, n);
    assert SignText(z[..n]);
    hide SignText, SignLength, NumberLength;
    FourParts(z, n, i, f);
  }

  lemma WholePart(z: string, n: nat)
    requires IsNumberText(z) && n == SignLength(z)
    ensures AllDigits(z[n..n + DigitRun(z[n..])])
  {
    DigitRunIsDigits(z[n..]);
    var whole := z[n..n + DigitRun(z[n..])];
    assert forall k :: 0 <= k < |whole| ==> whole[k] == z[n..][k];
  }

  lemma FourParts(z: string, n: nat, i: nat, f: nat)
    requires n <= i <= f <= |z|
    ensures z == z[..n] + (z[n..i] + (z[i..f] + z[f..]))
  {
  }

  /** The numbers are exactly these texts. */
  lemma NumberIff(z: string)
    ensures IsNumberText(z) <==> exists sign, whole, fraction, exponent :: MadeOf(z, sign, whole, fraction, exponent)
  {
    hide MadeOf, IsNumberText;
    if IsNumberText(z) {
      var n := SignLength(z);
      var i := n + DigitRun(z[n..]);
      var f := i + FractionLength(z[i..]);
      NumberParts(z, n, i, f);
      assert MadeOf(z, z[..n], z[n..i], z[i..f], z[f..]);
    }
    forall sign, whole, fraction, exponent | MadeOf(z, sign, whole, fraction, exponent)
      ensures IsNumberText(z)
    {
      MadeIsNumber(z, sign, whole, fraction, exponent);
    }
  }

  // ---------------------------------------------------------------- printed literals

  function HexDigit(n: nat): char {
    if n % 16 < 10 then (48 + n % 16) as char else (87 + n % 16) as char
  }

  function Hex(blob: seq<byte>): string {
    if blob == [] then "" else [HexDigit(blob[0] / 16), HexDigit(blob[0])] + Hex(blob[1..])
  }

  function PrintedLiteral(c: Cell, typed: bool, hasStmt: bool): string {
    if c.arg.None? || (typed && c.ty == NULL) then "NULL"
    else if typed && c.ty == TEXT then Quoted(c.arg.value, APOSTROPHE)
    else if typed && (c.ty == INTEGER || c.ty == FLOAT) then c.arg.value
    else if typed && c.ty == BLOB && hasStmt then "X'" + Hex(c.blob) + "'"
    else if IsNumberText(c.arg.value) then c.arg.value
    else Quoted(c.arg.value, APOSTROPHE)
  }

  function Literals(row: seq<Cell>, typed: bool, hasStmt: bool): (r: seq<string>)
    ensures |r| == |row|
  {
    seq(|row|, i requires 0 <= i < |row| => PrintedLiteral(row[i], typed, hasStmt))
  }

  /** The parts of a list, separated by commas. */
  function Joined(parts: seq<string>): string {
    if parts == [] then ""
    else parts[0] + if |parts| == 1 then "" else "," + Joined(parts[1..])
  }

  /** What is still to be printed before part `i`. */
  function JoinedFrom(parts: seq<string>, i: nat): string
    requires i <= |parts|
  {
    if i == |parts| then "" else (if i > 0 then "," else "") + Joined(parts[i..])
  }

  lemma JoinedFromStep(out: string, parts: seq<string>, i: nat)
    requires i < |parts|
    ensures var sep := if i > 0 then "," else "";
            out + JoinedFrom(parts, i) == out + sep + parts[i] + JoinedFrom(parts, i + 1)
  {
    var sep := if i > 0 then "," else "";
    assert parts[i..][1..] == parts[i + 1..];
    Concat(sep, parts[i], JoinedFrom(parts, i + 1));
    Concat(out, sep, parts[i] + JoinedFrom(parts, i + 1));
    Concat(out + sep, parts[i], JoinedFrom(parts, i + 1));
  }

  method OutputHexBlob(p: ShellState, blob: seq<byte>)
    modifies p`out
    ensures p.out == old(p.out) + ("X'" + Hex(blob) + "'")
  {
    ghost var out0 := p.out;
    p.out := p.out + "X'";
    ghost var start := p.out;
    var i := 0;
    assert blob[0..] == blob;
    while i < |blob|
      invariant 0 <= i <= |blob|
      invariant start + Hex(blob) == p.out + Hex(blob[i..])
    {
      Concat(p.out, [HexDigit(blob[i] / 16), HexDigit(blob[i])], Hex(blob[i + 1..]));
      p.out := p.out + [HexDigit(blob[i] / 16), HexDigit(blob[i])];
      i := i + 1;
    }
    assert p.out == start + Hex(blob);
    Concat(out0, "X'", Hex(blob));
    Concat(out0, "X'" + Hex(blob), "'");
    p.out := p.out + "'";
  }

  /** The length of the run from `s` that holds no quote. */
  method QuoteFreeRun(z: string, s: nat) returns (i: nat)
    requires s <= |z|
    ensures s + i <= |z| && (s + i < |z| ==> z[s + i] == APOSTROPHE)
    ensures Doubled(z[..s + i], APOSTROPHE) == Doubled(z[..s], APOSTROPHE) + z[s..s + i]
  {
    hide Doubled;
    i := 0;
    while s + i < |z| && z[s + i] != APOSTROPHE
      invariant s + i <= |z|
      invariant forall k :: s <= k < s + i ==> z[k] != APOSTROPHE
    {
      i := i + 1;
    }
    NothingToDouble(z[s..s + i], APOSTROPHE);
    DoubledAppend(z[..s], z[s..s + i], APOSTROPHE);
    assert z[..s + i] == z[..s] + z[s..s + i];
  }

  /** The chunked loop of `output_quoted_string`: runs without a quote are copied, each quote is printed twice. */
  method OutputChunks(p: ShellState, z: string)
    modifies p`out
    ensures p.out == old(p.out) + Doubled(z, APOSTROPHE)
  {
    ghost var out0 := p.out;
    var s := 0;
    assert z[..0] == "" && Doubled("", APOSTROPHE) == "";
    hide Doubled;
    while s < |z|
      invariant 0 <= s <= |z|
      invariant p.out == out0 + Doubled(z[..s], APOSTROPHE)
      decreases |z| - s
    {
      var i := QuoteFreeRun(z, s);
      Concat(out0, Doubled(z[..s], APOSTROPHE), z[s..s + i]);
      p.out := p.out + z[s..s + i];
      s := s + i;
      if s < |z| {
        Snoc(z[..s], APOSTROPHE, APOSTROPHE);
        assert z[..s + 1] == z[..s] + [APOSTROPHE];
        Concat(out0, Doubled(z[..s], APOSTROPHE), [APOSTROPHE, APOSTROPHE]);
        p.out := p.out + [APOSTROPHE, APOSTROPHE];
        s := s + 1;
      }
    }
    assert z[..s] == z;
  }

  method OutputQuotedString(p: ShellState, z: string)
    modifies p`out
    ensures p.out == old(p.out) + Quoted(z, APOSTROPHE)
  {
    var i, nSingle := 0, 0;
    while i < |z|
      invariant 0 <= i <= |z|
      invariant nSingle == 0 <==> forall k :: 0 <= k < i ==> z[k] != APOSTROPHE
    {
      if z[i] == APOSTROPHE {
        nSingle := nSingle + 1;
      }
      i := i + 1;
    }
    if nSingle == 0 {
      NothingToDouble(z, APOSTROPHE);
      p.out := p.out + ([APOSTROPHE] + z + [APOSTROPHE]);
    } else {
      ghost var out0 := p.out;
      p.out := p.out + [APOSTROPHE];
      OutputChunks(p, z);
      Concat(out0, [APOSTROPHE], Doubled(z, APOSTROPHE));
      Concat(out0, [APOSTROPHE] + Doubled(z, APOSTROPHE), [APOSTROPHE]);
      p.out := p.out + [APOSTROPHE];
    }
  }

  /** One cell of the VALUES list. */
  method OutputLiteral(p: ShellState, c: Cell, typed: bool, hasStmt: bool)
    modifies p`out
    ensures p.out == old(p.out) + PrintedLiteral(c, typed, hasStmt)
  {
    if c.arg.None? || (typed && c.ty == NULL) {
      p.out := p.out + "NULL";
    } else if typed && c.ty == TEXT {
      OutputQuotedString(p, c.arg.value);
    } else if typed && (c.ty == INTEGER || c.ty == FLOAT) {
      p.out := p.out + c.arg.value;
    } else if typed && c.ty == BLOB && hasStmt {
      OutputHexBlob(p, c.blob);
    } else {
      var number := IsNumber(c.arg.value);
      if number {
        p.out := p.out + c.arg.value;
      } else {
        OutputQuotedString(p, c.arg.value);
      }
    }
  }

  /** The printed row: MODE_Insert of `shell_callback`. */
  function PrintedInsert(table: string, azCol: Option<seq<string>>, row: seq<Cell>, typed: bool, hasStmt: bool): string
  {
    "INSERT INTO " + table + (if azCol.Some? then "(" + Joined(azCol.value) + ")" else "") + " VALUES("
    + Joined(Literals(row, typed, hasStmt)) + ");\n"
  }

  method OutputNames(p: ShellState, azCol: seq<string>)
    modifies p`out
    ensures p.out == old(p.out) + Joined(azCol)
  {
    hide Joined;
    var i := 0;
    JoinedFromStart(azCol);
    while i < |azCol|
      invariant 0 <= i <= |azCol|
      invariant old(p.out) + Joined(azCol) == p.out + JoinedFrom(azCol, i)
    {
      JoinedFromStep(p.out, azCol, i);
      var zSep := if i > 0 then "," else "";
      p.out := p.out + zSep + azCol[i];
      i := i + 1;
    }
  }

  lemma JoinedFromStart(parts: seq<string>)
    ensures Joined(parts) == JoinedFrom(parts, 0)
  {
    assert parts[0..] == parts;
  }

  method OutputList(p: ShellState, row: seq<Cell>, typed: bool, hasStmt: bool)
    modifies p`out
    ensures p.out == old(p.out) + Joined(Literals(row, typed, hasStmt))
  {
    hide PrintedLiteral, Joined;
    ghost var parts := Literals(row, typed, hasStmt);
    var i := 0;
    JoinedFromStart(parts);
    while i < |row|
      invariant 0 <= i <= |row|
      invariant old(p.out) + Joined(parts) == p.out + JoinedFrom(parts, i)
    {
      JoinedFromStep(p.out, parts, i);
      var zSep := if i > 0 then "," else "";
      p.out := p.out + zSep;
      OutputLiteral(p, row[i], typed, hasStmt);
      i := i + 1;
    }
  }

  method ShellCallbackInsert(p: ShellState, azCol: seq<string>, row: seq<Cell>, typed: bool, hasStmt: bool)
    modifies p`out, p`cnt
    ensures p.cnt == old(p.cnt) + 1
    ensures p.out == old(p.out)
                   + PrintedInsert(p.zDestTable, if p.showHeader then Some(azCol) else None, row, typed, hasStmt)
  {
    hide Joined, Literals;
    p.cnt := p.cnt + 1;
    ghost var out0, list := p.out, Joined(Literals(row, typed, hasStmt));
    ghost var text := "INSERT INTO " + p.zDestTable;
    p.out := p.out + ("INSERT INTO " + p.zDestTable);
    if p.showHeader {
      p.out := p.out + "(";
      OutputNames(p, azCol);
      p.out := p.out + ")";
      Concat(out0 + text, "(", Joined(azCol));
      Concat(out0 + text, "(" + Joined(azCol), ")");
      Concat(out0, text, "(" + Joined(azCol) + ")");
      text := text + ("(" + Joined(azCol) + ")");
    } else {
      assert text + "" == text;
    }
    p.out := p.out + " VALUES(";
    OutputList(p, row, typed, hasStmt);
    p.out := p.out + ");\n";
    Concat(out0, text, " VALUES(");
    Concat(out0, text + " VALUES(", list);
    Concat(out0, text + " VALUES(" + list, ");\n");
  }

  /** Blobs are printed with small letters. */
  lemma HexExample()
    ensures Hex([10, 255]) == "0aff"
  {
    assert [10 as byte, 255][1..] == [255 as byte] && [255 as byte][1..] == [];
    assert Hex([255]) == "ff";
    assert Hex([10, 255]) == "0a" + "ff";
  }

  lemma QuotedExample(c: char)
    requires c != APOSTROPHE
    ensures Quoted([c], APOSTROPHE) == [APOSTROPHE, c, APOSTROPHE]
  {
    NothingToDouble([c], APOSTROPHE);
  }

  lemma NumberExample()
    ensures IsNumberText("7") && !IsNumberText("x")
  {
    assert "7"[0..] == "7" && "7"[1..] == "" && DigitRun("7") == 1;
  }

  /** Literals of all kinds, with and without type information. */
  lemma LiteralExamples(blob: seq<byte>, hasStmt: bool, ty: SqlType)
    ensures PrintedLiteral(Cell(None, ty, blob), true, hasStmt) == "NULL"
    ensures PrintedLiteral(Cell(None, ty, blob), false, hasStmt) == "NULL"
    ensures PrintedLiteral(Cell(Some("7"), NULL, blob), true, hasStmt) == "NULL"
    ensures PrintedLiteral(Cell(Some("7"), TEXT, blob), true, hasStmt) == ['\'', '7', '\'']
    ensures PrintedLiteral(Cell(Some("7"), INTEGER, blob), true, hasStmt) == "7"
    ensures PrintedLiteral(Cell(Some("7"), FLOAT, blob), true, hasStmt) == "7"
    ensures PrintedLiteral(Cell(Some("7"), BLOB, [10, 255]), true, true) == "X'0aff'"
    ensures PrintedLiteral(Cell(Some("7"), BLOB, blob), true, false) == "7"
    ensures PrintedLiteral(Cell(Some("7"), ty, blob), false, hasStmt) == "7"
    ensures PrintedLiteral(Cell(Some("x"), ty, blob), false, hasStmt) == ['\'', 'x', '\'']
  {
    hide Quoted, Doubled, Hex, IsNumberText;
    HexExample();
    NumberExample();
    assert "7" == ['7'] && "x" == ['x'];
    QuotedExample('7');
    QuotedExample('x');
  }
}
