/** The column layout of `.tables`: names in columns, filled from top to bottom. */
module TablesLayout {
  import opened CStrings
  import opened Shell

  // ---------------------------------------------------------------- the layout

  function MaxLength(names: seq<string>): nat {
    if names == [] then 0
    else
      var n := MaxLength(names[..|names| - 1]);
      if |names[|names| - 1]| > n then |names[|names| - 1]| else n
  }

  function PrintColumns(maxlen: nat): (c: nat)
    ensures c > 0
  {
    if 80 / (maxlen + 2) < 1 then 1 else 80 / (maxlen + 2)
  }

  function PrintRows(nRow: nat, columns: nat): nat
    requires columns > 0
  {
    (nRow + columns - 1) / columns
  }

  function Spaces(n: nat): (s: string)
    ensures |s| == n
  {
    seq(n, _ => ' ')
  }

  /** `%-*s`: the name, filled up with spaces on the right. */
  function Padded(name: string, width: nat): string {
    if |name| < width then name + Spaces(width - |name|) else name
  }

  /** One name of a line; all but the first have two spaces before them. */
  function Cell(names: seq<string>, i: nat, rows: nat, width: nat): string
    requires i < |names|
  {
    (if i < rows then "" else "  ") + Padded(names[i], width)
  }

  /** The rest of a line, from the name with index `j` on: every `rows`-th name. */
  function LineFrom(names: seq<string>, j: nat, rows: nat, width: nat): string
    requires rows > 0
    decreases |names| - j
  {
    if j >= |names| then ""
    else Cell(names, j, rows, width) + LineFrom(names, j + rows, rows, width)
  }

  /** The lines from line `i` on. */
  function PageFrom(names: seq<string>, i: nat, rows: nat, width: nat): string
    requires i <= rows
    decreases rows - i
  {
    if i == rows then "" else LineFrom(names, i, rows, width) + "\n" + PageFrom(names, i + 1, rows, width)
  }

  // ---------------------------------------------------------------- the printed page, read line by line

  /** The length of the first line of a text. */
  function LineEnd(s: string): (k: nat)
    ensures k <= |s|
  {
    if s == "" || s[0] == '\n' then 0 else 1 + LineEnd(s[1..])
  }

  /** A text split at its line ends. */
  function Lines(s: string): seq<string>
    decreases |s|
  {
    if s == "" then []
    else
      var k := LineEnd(s);
      if k == |s| then [s] else [s[..k]] + Lines(s[k + 1..])
  }

  /** The character in column `x` of line `i`: columns of names are `width + 2` wide, and the name in place `q` of
      the line is the `q * rows`-th after the first. */
  function CharAt(names: seq<string>, rows: nat, width: nat, i: nat, x: nat): char {
    var q, o := x / (width + 2), x % (width + 2);
    var j := i + q * rows;
    if j < |names| && o < |names[j]| then names[j][o] else ' '
  }

  /** As many columns as fit into 80 characters, at least one; as many rows as the names need. */
  ghost predicate IsLayout(names: seq<string>, width: nat, columns: nat, rows: nat) {
    && (forall j :: 0 <= j < |names| ==> |names[j]| <= width)
    && (width == 0 || exists j :: 0 <= j < |names| && |names[j]| == width)
    && columns >= 1 && (columns == 1 || columns * (width + 2) <= 80) && (columns + 1) * (width + 2) > 80
    && |names| <= rows * columns < |names| + columns
  }

  /** Line `i` has exactly the characters of its names, in their columns, with spaces up to the end of the last one. */
  ghost predicate IsLine(line: string, names: seq<string>, i: nat, rows: nat, width: nat) {
    && i < rows && i < |names| && |line| == ((|names| - 1 - i) / rows + 1) * (width + 2) - 2
    && forall x :: 0 <= x < |line| ==> line[x] == CharAt(names, rows, width, i, x)
  }

  /** Every line ends, there are `rows` of them, and nothing else is printed. */
  ghost predicate IsPage(text: string, names: seq<string>) {
    exists width: nat, columns: nat, rows: nat ::
      IsLayout(names, width, columns, rows) && HasLines(text, names, rows, width)
  }

  ghost predicate HasLines(text: string, names: seq<string>, rows: nat, width: nat) {
    && (text == "" || text[|text| - 1] == '\n') && |Lines(text)| == rows
    && forall i :: 0 <= i < rows ==> IsLine(Lines(text)[i], names, i, rows, width)
  }

  predicate NoNewline(s: string) {
    forall i :: 0 <= i < |s| ==> s[i] != '\n'
  }

  // ---------------------------------------------------------------- printing

  method PrintLine(p: ShellState, names: seq<string>, i: nat, rows: nat, maxlen: nat)
    requires rows > 0
    modifies p`out
    ensures p.out == old(p.out) + (LineFrom(names, i, rows, maxlen) + "\n")
  {
    hide Padded;
    ghost var out0 := p.out;
    var j := i;
    while j < |names|
      invariant out0 + LineFrom(names, i, rows, maxlen) == p.out + LineFrom(names, j, rows, maxlen)
      decreases |names| - j
    {
      var zSp := if j < rows then "" else "  ";
      var cell := zSp + Padded(names[j], maxlen);
      Concat(p.out, cell, LineFrom(names, j + rows, rows, maxlen));
      p.out := p.out + cell;
      j := j + rows;
    }
    Concat(out0, LineFrom(names, i, rows, maxlen), "\n");
    p.out := p.out + "\n";
  }

  method ChooseRows(nRow: nat, maxlen: nat) returns (nPrintRow: nat)
    ensures nPrintRow == PrintRows(nRow, PrintColumns(maxlen))
  {
    var nPrintCol := 80 / (maxlen + 2);
    if nPrintCol < 1 {
      nPrintCol := 1;
    }
    nPrintRow := (nRow + nPrintCol - 1) / nPrintCol;
  }

  /** The end of `.tables`: the nested stride loop. */
  method PrintTables(p: ShellState, names: seq<string>)
    modifies p`out
    ensures var maxlen := MaxLength(names);
            p.out == old(p.out) + PageFrom(names, 0, PrintRows(|names|, PrintColumns(maxlen)), maxlen)
    ensures (forall k :: 0 <= k < |names| ==> NoNewline(names[k])) ==>
              old(p.out) <= p.out && IsPage(p.out[|old(p.out)|..], names)
  {
    var i, maxlen := 0, 0;
    while i < |names|
      invariant 0 <= i <= |names| && maxlen == MaxLength(names[..i])
    {
      assert names[..i + 1][..i] == names[..i];
      if |names[i]| > maxlen {
        maxlen := |names[i]|;
      }
      i := i + 1;
    }
    assert names[..i] == names;
    hide PrintRows, PrintColumns, MaxLength, LineFrom, IsPage, NoNewline;
    var nPrintRow := ChooseRows(|names|, maxlen);
    i := 0;
    ghost var out0 := p.out;
    while i < nPrintRow
      invariant 0 <= i <= nPrintRow
      invariant out0 + PageFrom(names, 0, nPrintRow, maxlen) == p.out + PageFrom(names, i, nPrintRow, maxlen)
    {
      Concat(p.out, LineFrom(names, i, nPrintRow, maxlen) + "\n", PageFrom(names, i + 1, nPrintRow, maxlen));
      PrintLine(p, names, i, nPrintRow, maxlen);
      i := i + 1;
    }
    ghost var page := PageFrom(names, 0, nPrintRow, maxlen);
    assert p.out == out0 + page && (out0 + page)[|out0|..] == page;
    if forall k :: 0 <= k < |names| ==> NoNewline(names[k]) {
      PageIsRight(names);
    }
  }

  // ---------------------------------------------------------------- what is on the page

  /** How many names a line holds from index `j` on. */
  function Entries(n: nat, j: nat, rows: nat): nat
    requires rows > 0
    decreases n - j
  {
    if j >= n then 0 else 1 + Entries(n, j + rows, rows)
  }

  /** `q * n`, as repeated addition. */
  ghost function Stride(q: nat, n: nat): nat {
    if q == 0 then 0 else Stride(q - 1, n) + n
  }

  lemma {:induction false} StrideIsProduct(q: nat, n: nat)
    ensures Stride(q, n) == q * n
  {
    if q > 0 {
      StrideIsProduct(q - 1, n);
      assert (q - 1) * n == q * n - n;
    }
  }

  lemma {:induction false} StrideGrows(p: nat, q: nat, n: nat)
    requires p <= q
    ensures Stride(q, n) >= Stride(p, n)
    ensures p < q ==> Stride(q, n) >= Stride(p, n) + n
  {
    if p < q {
      StrideGrows(p, q - 1, n);
    }
  }

  lemma {:induction false} StrideAdds(p: nat, n: nat, m: nat)
    ensures Stride(p, n + m) == Stride(p, n) + Stride(p, m)
  {
    if p > 0 {
      StrideAdds(p - 1, n, m);
    }
  }

  lemma DivisionByStride(j: nat, rows: nat)
    requires rows > 0
    ensures j == j % rows + Stride(j / rows, rows) && j % rows < rows
  {
    StrideIsProduct(j / rows, rows);
  }

  lemma DivisionIsUnique(rows: nat, i: nat, q: nat, i': nat, q': nat)
    requires i < rows && i' < rows && i + Stride(q, rows) == i' + Stride(q', rows)
    ensures i == i' && q == q'
  {
    if q < q' {
      StrideGrows(q, q', rows);
    } else {
      StrideGrows(q', q, rows);
    }
  }

  /** A line holds exactly the names that are a multiple of `rows` further on. */
  lemma {:induction false} EntriesAre(n: nat, j: nat, rows: nat, q: nat)
    requires rows > 0
    ensures q < Entries(n, j, rows) <==> j + Stride(q, rows) < n
    decreases n - j
  {
    if j < n && q > 0 {
      EntriesAre(n, j + rows, rows, q - 1);
    }
  }

  /** Every name has exactly one place on the page: its index gives the line and the column, column by column. */
  lemma OnePlace(n: nat, rows: nat, i: nat, q: nat)
    requires rows > 0 && i < rows
    ensures q < Entries(n, i, rows) <==> i + q * rows < n
    ensures (i + q * rows) % rows == i && (i + q * rows) / rows == q
  {
    var j := i + q * rows;
    StrideIsProduct(q, rows);
    EntriesAre(n, i, rows, q);
    DivisionByStride(j, rows);
    DivisionIsUnique(rows, i, q, j % rows, j / rows);
  }

  lemma {:induction false} MaxLengthIsMax(names: seq<string>)
    ensures forall j :: 0 <= j < |names| ==> |names[j]| <= MaxLength(names)
    ensures names != [] ==> exists j :: 0 <= j < |names| && |names[j]| == MaxLength(names)
  {
    if names != [] {
      var init := names[..|names| - 1];
      MaxLengthIsMax(init);
      if |names[|names| - 1]| > MaxLength(init) || init == [] {
        assert |names[|names| - 1]| == MaxLength(names);
      } else {
        var j :| 0 <= j < |init| && |init[j]| == MaxLength(init);
        assert names[j] == init[j];
      }
    }
  }

  lemma EntriesStep(n: nat, j: nat, rows: nat)
    requires rows > 0 && j < n
    ensures Entries(n, j, rows) == 1 + Entries(n, j + rows, rows)
  {
  }

  lemma LineLength(names: seq<string>, j: nat, rows: nat, width: nat)
    requires rows > 0 && j < |names| && |names[j]| <= width
    ensures |LineFrom(names, j, rows, width)|
         == width + (if j < rows then 0 else 2) + |LineFrom(names, j + rows, rows, width)|
  {
  }

  /** The width of a line: its names, each `width` wide, with two spaces between them. */
  lemma {:induction false} LineWidth(names: seq<string>, j: nat, rows: nat, width: nat)
    requires rows > 0 && forall k :: 0 <= k < |names| ==> |names[k]| <= width
    ensures |LineFrom(names, j, rows, width)|
         == Stride(Entries(|names|, j, rows), width + 2) - if j < rows && j < |names| then 2 else 0
    decreases |names| - j
  {
    if j < |names| {
      hide LineFrom, Stride, Entries;
      EntriesStep(|names|, j, rows);
      LineLength(names, j, rows, width);
      StrideStep(Entries(|names|, j + rows, rows), width + 2);
      LineWidth(names, j + rows, rows, width);
    }
  }

  /** No line is wider than 78 columns, unless a single name is. */
  lemma LinesFit(names: seq<string>, i: nat)
    requires i < PrintRows(|names|, PrintColumns(MaxLength(names)))
    ensures var width := MaxLength(names);
            |LineFrom(names, i, PrintRows(|names|, PrintColumns(width)), width)| <= if width > 78 then width else 78
  {
    hide PrintRows, PrintColumns, MaxLength;
    var width := MaxLength(names);
    var columns := PrintColumns(width);
    var rows := PrintRows(|names|, columns);
    var c := Entries(|names|, i, rows);
    MaxLengthIsMax(names);
    LineWidth(names, i, rows, width);
    EnoughColumns(|names|, columns, rows, i);
    ColumnsFit(width);
    StrideGrows(c, columns, width + 2);
  }

  /** As many columns as fit into 80 characters, at least one. */
  lemma ColumnsFit(width: nat)
    ensures Stride(PrintColumns(width), width + 2) <= if width > 78 then width + 2 else 80
  {
    var columns := PrintColumns(width);
    StrideIsProduct(columns, width + 2);
    if width > 78 {
      assert 80 / (width + 2) == 0;
    } else {
      SomeColumn(width + 2);
    }
  }

  lemma SomeColumn(w: nat)
    requires 0 < w <= 80
    ensures 1 <= 80 / w && 80 / w * w <= 80
  {
  }

  /** Ceiling division: enough rows for `n` names in `columns` columns, and none to spare. */
  lemma RowsAreEnough(n: nat, columns: nat)
    requires columns > 0
    ensures var rows := PrintRows(n, columns);
            n <= Stride(rows, columns) < n + columns
  {
    DivisionByStride(n + columns - 1, columns);
  }

  lemma {:induction false} StrideCommutes(p: nat, q: nat)
    ensures Stride(p, q) == Stride(q, p) && Stride(p, 1) == p
  {
    StrideIsProduct(p, q);
    StrideIsProduct(q, p);
    StrideIsProduct(p, 1);
    assert p * q == q * p;
  }

  /** No line is empty, and none holds more names than there are columns. */
  lemma EnoughColumns(n: nat, columns: nat, rows: nat, i: nat)
    requires columns > 0 && rows == PrintRows(n, columns) && i < rows
    ensures 0 < Entries(n, i, rows) <= columns && i < n
  {
    hide PrintRows, Stride;
    RowsAreEnough(n, columns);
    StrideCommutes(rows, columns);
    EntriesAre(n, i, rows, columns);
    // i + 1 rows hold at least i + 1 names, and the last row is not empty
    StrideGrows(i, rows, columns);
    StrideAdds(i, 1, columns - 1);
    StrideCommutes(i, 1);
  }

  lemma StrideStep(q: nat, n: nat)
    ensures Stride(0, n) == 0 && Stride(q + 1, n) == Stride(q, n) + n
  {
  }

  /** The name `q` places further in a line starts `q` columns further on. */
  lemma {:induction false} NameInLine(names: seq<string>, i: nat, rows: nat, width: nat, q: nat)
    requires rows > 0 && i + Stride(q, rows) < |names|
    requires forall k :: 0 <= k < |names| ==> |names[k]| <= width
    ensures var line := LineFrom(names, i, rows, width);
            var at := Stride(q, width + 2) + if i < rows then 0 else 2;
            at + width <= |line| && line[at..at + width] == Padded(names[i + Stride(q, rows)], width)
    decreases q
  {
    hide Stride, LineFrom, Padded;
    var head := Cell(names, i, rows, width);
    var tail := LineFrom(names, i + rows, rows, width);
    CellWidth(names, i, rows, width);
    if q == 0 {
      StrideStep(0, rows);
      StrideStep(0, width + 2);
      SliceWithin(head, tail, |head| - width, width);
    } else {
      StrideStep(q - 1, rows);
      StrideStep(q - 1, width + 2);
      NameInLine(names, i + rows, rows, width, q - 1);
      SliceAfter(head, tail, Stride(q - 1, width + 2) + 2, width);
    }
  }

  lemma CellWidth(names: seq<string>, i: nat, rows: nat, width: nat)
    requires rows > 0 && i < |names| && |names[i]| <= width
    ensures var cell := Cell(names, i, rows, width);
            && |cell| == width + (if i < rows then 0 else 2)
            && cell[|cell| - width..] == Padded(names[i], width)
            && LineFrom(names, i, rows, width) == cell + LineFrom(names, i + rows, rows, width)
  {
  }

  lemma SliceAfter(head: string, tail: string, from: nat, w: nat)
    requires from + w <= |tail|
    ensures (head + tail)[|head| + from..|head| + from + w] == tail[from..from + w]
  {
  }

  lemma SliceWithin(head: string, tail: string, from: nat, w: nat)
    requires from + w == |head|
    ensures (head + tail)[from..from + w] == head[from..]
  {
  }

  /** Reading the page: the name `q` places down the columns in line `i` stands in that line, in column `q`, and columns
      are `width + 2` characters apart. */
  lemma NameOnPage(names: seq<string>, i: nat, q: nat)
    requires var rows := PrintRows(|names|, PrintColumns(MaxLength(names)));
             i < rows && i + Stride(q, rows) < |names|
    ensures var width := MaxLength(names);
            var rows := PrintRows(|names|, PrintColumns(width));
            var line := LineFrom(names, i, rows, width);
            var at := Stride(q, width + 2);
            at + width <= |line| && line[at..at + width] == Padded(names[i + Stride(q, rows)], width)
  {
    hide MaxLength, PrintColumns, PrintRows, Stride, Padded;
    MaxLengthIsMax(names);
    NameInLine(names, i, PrintRows(|names|, PrintColumns(MaxLength(names))), MaxLength(names), q);
  }

  // ---------------------------------------------------------------- the printed page is right

  lemma {:induction false} LineEndIs(line: string, rest: string)
    requires NoNewline(line)
    ensures LineEnd(line + ("\n" + rest)) == |line|
  {
    if line == "" {
      assert line + ("\n" + rest) == "\n" + rest;
    } else {
      assert (line + ("\n" + rest))[1..] == line[1..] + ("\n" + rest);
      LineEndIs(line[1..], rest);
    }
  }

  lemma LinesCons(line: string, rest: string)
    requires NoNewline(line)
    ensures Lines(line + ("\n" + rest)) == [line] + Lines(rest)
  {
    var s := line + ("\n" + rest);
    LineEndIs(line, rest);
    assert s[..|line|] == line && s[|line| + 1..] == rest;
    hide LineEnd;
  }

  /** The rest of a line without the two spaces in front of it. */
  function Unspaced(names: seq<string>, j: nat, rows: nat, width: nat): string
    requires rows > 0 && j < |names|
  {
    Padded(names[j], width) + LineFrom(names, j + rows, rows, width)
  }

  lemma DivisionStep(x: nat, n: nat)
    requires n > 0 && x >= n
    ensures x / n == (x - n) / n + 1 && x % n == (x - n) % n
  {
    var q, r := (x - n) / n, (x - n) % n;
    assert x == (q + 1) * n + r;
    DivisionIs(x, n, q + 1, r);
  }

  lemma DivisionIs(x: nat, n: nat, q: nat, r: nat)
    requires n > 0 && r < n && x == q * n + r
    ensures x / n == q && x % n == r
  {
    StrideIsProduct(q, n);
    StrideIsProduct(x / n, n);
    DivisionIsUnique(n, r, q, x % n, x / n);
  }

  lemma PaddedIs(name: string, width: nat)
    requires |name| <= width
    ensures |Padded(name, width)| == width
    ensures forall o :: 0 <= o < width ==> Padded(name, width)[o] == if o < |name| then name[o] else ' '
  {
  }

  lemma UnspacedStep(names: seq<string>, j: nat, rows: nat, width: nat)
    requires rows > 0 && j < |names|
    ensures Unspaced(names, j, rows, width)
         == Padded(names[j], width) + if j + rows < |names| then ("  " + Unspaced(names, j + rows, rows, width)) else ""
  {
    hide Padded;
    if j + rows < |names| {
      Concat("  ", Padded(names[j + rows], width), LineFrom(names, j + rows + rows, rows, width));
    }
  }

  /** Every character of a line. */
  lemma {:induction false} CharInLine(names: seq<string>, j: nat, rows: nat, width: nat, x: nat)
    requires rows > 0 && j < |names| && (forall k :: 0 <= k < |names| ==> |names[k]| <= width)
    requires x < |Unspaced(names, j, rows, width)|
    ensures Unspaced(names, j, rows, width)[x] == CharAt(names, rows, width, j, x)
    decreases |names| - j
  {
    hide Unspaced, Padded, CharAt;
    PaddedIs(names[j], width);
    UnspacedStep(names, j, rows, width);
    if x < width + 2 {
      FirstChars(names, rows, width, j, x);
      assert x >= width ==> Unspaced(names, j, rows, width)[x] == ' ';
    } else {
      var y, tail := x - (width + 2), Unspaced(names, j + rows, rows, width);
      Beyond(Padded(names[j], width), tail, y);
      CharInLine(names, j + rows, rows, width, y);
      FurtherChars(names, rows, width, j, x);
    }
  }

  lemma Beyond(head: string, tail: string, y: nat)
    requires y < |tail|
    ensures (head + ("  " + tail))[|head| + 2 + y] == tail[y]
  {
  }

  lemma FirstChars(names: seq<string>, rows: nat, width: nat, j: nat, x: nat)
    requires j < |names| && x < width + 2 && |names[j]| <= width
    ensures CharAt(names, rows, width, j, x) == if x < |names[j]| then names[j][x] else ' '
  {
    DivisionIs(x, width + 2, 0, x);
  }

  lemma FurtherChars(names: seq<string>, rows: nat, width: nat, j: nat, x: nat)
    requires x >= width + 2
    ensures CharAt(names, rows, width, j, x) == CharAt(names, rows, width, j + rows, x - (width + 2))
  {
    DivisionStep(x, width + 2);
    var q := (x - (width + 2)) / (width + 2);
    assert (q + 1) * rows == q * rows + rows;
  }

  lemma {:induction false} EntriesCount(n: nat, j: nat, rows: nat)
    requires rows > 0 && j < n
    ensures Entries(n, j, rows) == (n - 1 - j) / rows + 1
    decreases n - j
  {
    if j + rows < n {
      EntriesCount(n, j + rows, rows);
      DivisionStep(n - 1 - j, rows);
    } else {
      DivisionIs(n - 1 - j, rows, 0, n - 1 - j);
    }
  }

  /** One line of the page. */
  lemma LineIs(names: seq<string>, i: nat, rows: nat, width: nat)
    requires i < rows && i < |names| && forall k :: 0 <= k < |names| ==> |names[k]| <= width && NoNewline(names[k])
    ensures IsLine(LineFrom(names, i, rows, width), names, i, rows, width)
    ensures NoNewline(LineFrom(names, i, rows, width))
  {
    assert Unspaced(names, i, rows, width) == LineFrom(names, i, rows, width) by {
      assert "" + Padded(names[i], width) == Padded(names[i], width);
    }
    hide LineFrom, Unspaced, Padded, CharAt, Entries, Stride;
    var line := LineFrom(names, i, rows, width);
    LineWidth(names, i, rows, width);
    EntriesCount(|names|, i, rows);
    StrideIsProduct(Entries(|names|, i, rows), width + 2);
    forall x | 0 <= x < |line|
      ensures line[x] == CharAt(names, rows, width, i, x) != '\n'
    {
      CharInLine(names, i, rows, width, x);
      NoNewlineAt(names, rows, width, i, x);
    }
  }

  lemma NoNewlineAt(names: seq<string>, rows: nat, width: nat, i: nat, x: nat)
    requires forall k :: 0 <= k < |names| ==> NoNewline(names[k])
    ensures CharAt(names, rows, width, i, x) != '\n'
  {
  }

  /** The lines from line `i` on. */
  function LinesFrom(names: seq<string>, i: nat, rows: nat, width: nat): seq<string>
    requires i <= rows
  {
    seq(rows - i, k requires 0 <= k < rows - i => LineFrom(names, i + k, rows, width))
  }

  lemma LinesFromStep(names: seq<string>, i: nat, rows: nat, width: nat)
    requires i < rows
    ensures LinesFrom(names, i, rows, width)
         == [LineFrom(names, i, rows, width)] + LinesFrom(names, i + 1, rows, width)
  {
    hide LineFrom;
  }

  lemma PageFromStep(names: seq<string>, i: nat, rows: nat, width: nat)
    requires i < rows
    ensures PageFrom(names, i, rows, width)
         == LineFrom(names, i, rows, width) + ("\n" + PageFrom(names, i + 1, rows, width))
  {
    hide LineFrom;
  }

  lemma FirstLine(names: seq<string>, i: nat, rows: nat, width: nat)
    requires i < rows && NoNewline(LineFrom(names, i, rows, width))
    ensures Lines(PageFrom(names, i, rows, width))
         == [LineFrom(names, i, rows, width)] + Lines(PageFrom(names, i + 1, rows, width))
  {
    hide LineFrom, PageFrom, Lines, NoNewline;
    PageFromStep(names, i, rows, width);
    LinesCons(LineFrom(names, i, rows, width), PageFrom(names, i + 1, rows, width));
  }

  lemma {:induction false} PageLines(names: seq<string>, i: nat, rows: nat, width: nat)
    requires i <= rows && forall k :: i <= k < rows ==> NoNewline(LineFrom(names, k, rows, width))
    ensures Lines(PageFrom(names, i, rows, width)) == LinesFrom(names, i, rows, width)
    decreases rows - i
  {
    if i < rows {
      hide LineFrom, PageFrom, Lines, NoNewline, LinesFrom;
      PageLines(names, i + 1, rows, width);
      FirstLine(names, i, rows, width);
      LinesFromStep(names, i, rows, width);
    } else {
      assert Lines("") == [];
    }
  }

  lemma {:induction false} PageEnds(names: seq<string>, i: nat, rows: nat, width: nat)
    requires i <= rows
    ensures var text := PageFrom(names, i, rows, width); text == "" || text[|text| - 1] == '\n'
    decreases rows - i
  {
    if i < rows {
      hide LineFrom;
      PageEnds(names, i + 1, rows, width);
    }
  }

  lemma ColumnsAre(width: nat)
    ensures var columns := PrintColumns(width);
            (columns == 1 || columns * (width + 2) <= 80) && (columns + 1) * (width + 2) > 80
  {
    var c, n := 80 / (width + 2), width + 2;
    DivisionByStride(80, n);
    StrideIsProduct(c, n);
    assert (c + 1) * n == c * n + n;
  }

  lemma LayoutIs(names: seq<string>)
    ensures var width := MaxLength(names);
            var columns := PrintColumns(width);
            IsLayout(names, width, columns, PrintRows(|names|, columns))
  {
    hide MaxLength, PrintRows, PrintColumns;
    var width := MaxLength(names);
    var columns := PrintColumns(width);
    MaxLengthIsMax(names);
    NoNames();
    ColumnsAre(width);
    RowsAreEnough(|names|, columns);
    StrideIsProduct(PrintRows(|names|, columns), columns);
  }

  lemma NoNames()
    ensures MaxLength([]) == 0
  {
  }

  /** What is printed is the page. */
  lemma PageIsRight(names: seq<string>)
    requires forall k :: 0 <= k < |names| ==> NoNewline(names[k])
    ensures var width := MaxLength(names);
            var columns := PrintColumns(width);
            var rows := PrintRows(|names|, columns);
            IsPage(PageFrom(names, 0, rows, width), names)
  {
    hide MaxLength, PrintColumns, PrintRows, LineFrom, PageFrom, Lines, NoNewline, IsLine, IsLayout;
    var width := MaxLength(names);
    var columns := PrintColumns(width);
    var rows := PrintRows(|names|, columns);
    LayoutIs(names);
    MaxLengthIsMax(names);
    forall i | 0 <= i < rows
      ensures IsLine(LineFrom(names, i, rows, width), names, i, rows, width)
      ensures NoNewline(LineFrom(names, i, rows, width))
    {
      EnoughColumns(|names|, columns, rows, i);
      LineIs(names, i, rows, width);
    }
    PageLines(names, 0, rows, width);
    PageEnds(names, 0, rows, width);
    assert HasLines(PageFrom(names, 0, rows, width), names, rows, width);
  }
}
