/** CSV input: the import context, its growing buffer, and `csv_read_one_field`. */
module CsvReader {
  import opened CStrings
  import opened Quoting
  import opened CsvFormat

  class ImportCtx {
    const input: string  // the bytes of the stream
    var pos: nat         // how many of them were read
    var z: array<char>   // accumulated text for a field; length 0 stands for the null pointer
    var n: nat           // number of bytes in z
    var nLine: int       // current line number
    var cTerm: Fgetc     // what terminated the most recent field
    const cColSep: char  // what the separators are compared as
    const cRowSep: char

    ghost predicate Valid()
      reads this
    {
      pos <= |input| && (n < z.Length || n == z.Length == 0)
    }

    constructor (input: string, cColSep: char, cRowSep: char)
      ensures Valid() && fresh(z) && z.Length == 0
      ensures pos == 0 && n == 0 && nLine == 1
      ensures this.input == input && this.cColSep == cColSep && this.cRowSep == cRowSep
    {
      this.input, this.cColSep, this.cRowSep := input, cColSep, cRowSep;
      pos, n, nLine, cTerm := 0, 0, 1, EOF;
      z := new char[0];
    }

    /** The unread part of the stream. */
    ghost function Rest(): string
      reads this`pos
    {
      if pos <= |input| then input[pos..] else ""
    }

    /** The text accumulated so far. */
    ghost function Text(): string
      reads this`z, this`n, z
    {
      if n <= z.Length then z[..n] else ""
    }

    /** `fgetc`, when `k` bytes of a field that starts with `s` have been read. */
    method Getc(ghost s: string, ghost k: nat) returns (c: Fgetc)
      requires Valid() && k <= |s| && Rest() == s[k..]
      modifies this`pos
      ensures Valid() && c == At(s, k) && Rest() == After(s, k)
    {
      if pos < |input| {
        c := Byte(input[pos]);
        pos := pos + 1;
      } else {
        c := EOF;
      }
    }

    /** `fgetc` in a quoted field, which also counts lines. */
    method GetcInQuotes(ghost s: string, ghost k: nat) returns (c: Fgetc)
      requires Valid() && k <= |s| && Rest() == s[k..]
      modifies this`pos, this`nLine
      ensures Valid() && c == At(s, k) && Rest() == After(s, k)
      ensures nLine - old(nLine) == Count(cRowSep, s[..|s| - |After(s, k)|]) - Count(cRowSep, s[..k])
    {
      c := Getc(s, k);
      CountStep(cRowSep, s, k);
      if c == Byte(cRowSep) {
        nLine := nLine + 1;
      }
    }

    /** Append one byte, growing the buffer so that a terminating NUL always fits as well. */
    method AppendChar(c: char)
      requires Valid()
      modifies this`z, this`n, z
      ensures Valid() && (z == old(z) || fresh(z))
      ensures z.Length >= old(z.Length) && n == old(n) + 1 && n < z.Length
      ensures Text() == old(Text()) + [c]
    {
      if n + 1 >= z.Length {
        var grown := new char[z.Length + z.Length + 100];
        forall i | 0 <= i < z.Length {
          grown[i] := z[i];
        }
        assert grown[..n] == z[..n];
        z := grown;
      }
      z[n] := c;
      n := n + 1;
    }

    /** The backward search for the closing quote, when a field whose text so far is `body[..k]` closes. On every
        stream it stops at one of the last two bytes stored. */
    method DropClosingQuote(ghost body: string, ghost k: nat)
      requires Valid() && k <= |body| && Text() == Undoubled(body[..k], QUOTE)
      requires OddTail(body[..k], QUOTE) || ClosesAfterCr(body, k, cRowSep)
      modifies this`n
      ensures Valid() && Text() == QuotedText(body, k, cRowSep)
      ensures old(n) - 2 <= n < old(n)
    {
      UnpairedQuoteIsStored(body, k, cRowSep);
      ghost var u := z[..n];
      n := n - 1;
      while z[n] != QUOTE
        invariant 0 <= n < z.Length
        invariant n == |u| - 1 || (n == |u| - 2 && !OddTail(body[..k], QUOTE))
        invariant z[..|u|] == u
        decreases n
      {
        assert u[n] != QUOTE;
        n := n - 1;
      }
      assert u[n] == QUOTE && z[..n] == u[..n];
    }

    /** The quoted branch. Its opening quote has been read. */
    method ReadQuoted()
      requires Valid() && Text() == ""
      modifies this`pos, this`z, this`n, this`nLine, this`cTerm, z
      ensures Valid() && (z == old(z) || fresh(z)) && z.Length >= old(z.Length)
      ensures var body := old(Rest());
              var e := QuotedEnd(body, 0, cColSep, cRowSep);
              && Text() == QuotedText(body, e, cRowSep)
              && Rest() == After(body, e)
              && cTerm == At(body, e)
              && nLine == old(nLine) + Count(cRowSep, body[..|body| - |After(body, e)|])
    {
      hide Undoubled, OddTail, Closes, Terminates, LookBack, QuotedText, Count, Text;
      ghost var body, k := Rest(), 0;
      LookBackStart(cRowSep, body);
      var pc, ppc := NUL, NUL;
      var c := GetcInQuotes(body, 0);
      TerminatesWhenClosed(body, k, pc, ppc, cColSep, cRowSep);
      while !Terminates(c, pc, ppc, cColSep, cRowSep)
        invariant Valid() && (z == old(z) || fresh(z)) && z.Length >= old(z.Length)
        invariant k <= |body| && c == At(body, k) && Rest() == After(body, k)
        invariant Terminates(c, pc, ppc, cColSep, cRowSep) <==> k == |body| || Closes(body, k, cColSep, cRowSep)
        invariant QuotedEnd(body, 0, cColSep, cRowSep) == QuotedEnd(body, k, cColSep, cRowSep)
        invariant LookBack(body, k, pc, ppc) && (pc == QUOTE <==> OddTail(body[..k], QUOTE))
        invariant Text() == Undoubled(body[..k], QUOTE)
        invariant nLine == old(nLine) + Count(cRowSep, body[..|body| - |After(body, k)|])
        decreases |body| - k
      {
        pc, ppc := StoreInQuotes(c.ch, pc, ppc, body, k);
        k := k + 1;
        c := GetcInQuotes(body, k);
        TerminatesWhenClosed(body, k, pc, ppc, cColSep, cRowSep);
      }
      EndQuoted(c, pc, body, k);
    }

    /** One byte of a quoted field that does not end it: the second quote of a pair is dropped. */
    method StoreInQuotes(c: char, pc: char, ppc: char, ghost body: string, ghost k: nat) returns (pc': char, ppc': char)
      requires Valid() && k < |body| && c == body[k]
      requires LookBack(body, k, pc, ppc) && Text() == Undoubled(body[..k], QUOTE)
      modifies this`z, this`n, z
      ensures Valid() && (z == old(z) || fresh(z)) && z.Length >= old(z.Length)
      ensures LookBack(body, k + 1, pc', ppc') && Text() == Undoubled(body[..k + 1], QUOTE)
    {
      LookBackStep(body, k, pc, ppc);
      if c == QUOTE && pc == QUOTE {
        return NUL, ppc;
      }
      AppendChar(c);
      return c, pc;
    }

    method EndQuoted(c: Fgetc, pc: char, ghost body: string, ghost k: nat)
      requires Valid() && k <= |body| && c == At(body, k) && Text() == Undoubled(body[..k], QUOTE)
      requires k == |body| || Closes(body, k, cColSep, cRowSep)
      requires pc == QUOTE <==> OddTail(body[..k], QUOTE)
      modifies this`n, this`cTerm
      ensures Valid() && Text() == QuotedText(body, k, cRowSep) && cTerm == c
    {
      if c != EOF || pc == QUOTE {
        DropClosingQuote(body, k);
      }
      cTerm := c;
    }

    /** The unquoted branch. Its first byte, or the end of the stream, has been read as `c`. */
    method ReadPlain(c0: Fgetc, ghost s: string)
      requires Valid() && Text() == "" && s != "" && c0 == Byte(s[0]) && Rest() == s[1..]
      modifies this`pos, this`z, this`n, this`nLine, this`cTerm, z
      ensures Valid() && (z == old(z) || fresh(z)) && z.Length >= old(z.Length)
      ensures var e := PlainEnd(s, 0, cColSep, cRowSep);
              && Text() == PlainText(s, e, cRowSep)
              && Rest() == After(s, e)
              && cTerm == At(s, e)
              && nLine == old(nLine) + Count(cRowSep, s[..|s| - |After(s, e)|])
    {
      hide PlainText, Count, Text;
      var c := c0;
      ghost var k := 0;
      while c != EOF && c != Byte(cColSep) && c != Byte(cRowSep)
        invariant Valid() && (z == old(z) || fresh(z)) && z.Length >= old(z.Length)
        invariant k <= |s| && c == At(s, k)
        invariant Rest() == After(s, k)
        invariant Text() == s[..k] && nLine == old(nLine)
        invariant PlainEnd(s, 0, cColSep, cRowSep) == PlainEnd(s, k, cColSep, cRowSep)
        decreases |s| - k
      {
        assert s[..k + 1] == s[..k] + [c.ch];
        AppendChar(c.ch);
        k := k + 1;
        c := Getc(s, k);
      }
      EndPlain(c, s, k);
    }

    /** The end of an unquoted field: a CR before the row separator is dropped. */
    method EndPlain(c: Fgetc, ghost s: string, ghost k: nat)
      requires Valid() && k <= |s| && Text() == s[..k] && c == At(s, k)
      requires k == PlainEnd(s, 0, cColSep, cRowSep)
      modifies this`n, this`nLine, this`cTerm
      ensures Valid() && Text() == PlainText(s, k, cRowSep) && cTerm == c
      ensures nLine == old(nLine) + Count(cRowSep, s[..|s| - |After(s, k)|])
    {
      LinesOfPlain(s, k, cColSep, cRowSep);
      if c == Byte(cRowSep) {
        nLine := nLine + 1;
        if n > 0 && z[n - 1] == CR {
          assert s[k - 1] == z[..n][k - 1];
          n := n - 1;
        }
      }
      cTerm := c;
    }

    /** `csv_read_one_field`. The result says whether a field was found; its text is then `Text()`. */
    method ReadOneField() returns (found: bool)
      requires Valid()
      modifies this`pos, this`z, this`n, this`nLine, this`cTerm, z
      ensures Valid() && (z == old(z) || fresh(z)) && z.Length >= old(z.Length)
      ensures old(Rest()) == "" ==> !found && Rest() == "" && cTerm == EOF && nLine == old(nLine)
      ensures old(Rest()) != "" ==>
                var f := ReadField(old(Rest()), cColSep, cRowSep);
                && Text() == f.text && Rest() == f.rest && cTerm == f.term && nLine == old(nLine) + f.lines
                && found == (z.Length > 0) && (found ==> z[n] == NUL)
    {
      hide QuotedEnd, PlainEnd, QuotedText, PlainText, Count;
      ghost var s := Rest();
      n := 0;
      var c := Getc(s, 0);
      if c == EOF {
        cTerm := EOF;
        return false;
      }
      if c == Byte(QUOTE) {
        ReadQuoted();
      } else {
        ReadPlain(c, s);
      }
      Terminate();
      return z.Length > 0;
    }

    /** `if( p->z ) p->z[p->n] = 0;` */
    method Terminate()
      requires Valid()
      modifies z
      ensures Text() == old(Text()) && (z.Length > 0 ==> z[n] == NUL)
    {
      if z.Length > 0 {
        z[n] := NUL;
      }
    }
  }

  /** An unquoted field spans no row separator but the one that ends it. */
  lemma LinesOfPlain(s: string, e: nat, col: char, row: char)
    requires e == PlainEnd(s, 0, col, row)
    ensures Count(row, s[..|s| - |After(s, e)|]) == if At(s, e) == Byte(row) then 1 else 0
  {
    PlainEndIsFirst(s, 0, e, col, row);
    NoneCounted(row, s[..e]);
    if e < |s| {
      assert s[..e + 1] == s[..e] + [s[e]];
    }
  }

  /** The exit test of the quoted branch, on the current and the two previous bytes. */
  predicate Terminates(c: Fgetc, pc: char, ppc: char, col: char, row: char) {
    if pc == QUOTE then c == EOF || (c != Byte(QUOTE) && (c == Byte(col) || c == Byte(row)))
    else c == EOF || (c == Byte(row) && pc == CR && ppc == QUOTE)
  }

  /** What `pc` and `ppc` know about the text read so far. */
  ghost predicate LookBack(body: string, k: nat, pc: char, ppc: char)
    requires k <= |body|
  {
    && (pc == QUOTE <==> OddTail(body[..k], QUOTE))
    && (pc == CR && ppc == QUOTE <==> k > 0 && body[k - 1] == CR && OddTail(body[..k - 1], QUOTE))
  }

  lemma LookBackStart(row: char, body: string)
    ensures LookBack(body, 0, NUL, NUL) && Undoubled(body[..0], QUOTE) == "" && Count(row, body[..0]) == 0
  {
  }

  /** The exit test recognises exactly the closing positions and the end of the stream. */
  lemma TerminatesWhenClosed(body: string, k: nat, pc: char, ppc: char, col: char, row: char)
    requires k <= |body| && LookBack(body, k, pc, ppc)
    ensures Terminates(At(body, k), pc, ppc, col, row) <==> k == |body| || Closes(body, k, col, row)
    ensures pc == QUOTE <==> OddTail(body[..k], QUOTE)
  {
  }

  lemma LookBackStep(body: string, k: nat, pc: char, ppc: char)
    requires k < |body| && LookBack(body, k, pc, ppc)
    ensures var c := body[k];
            if c == QUOTE && pc == QUOTE then
              LookBack(body, k + 1, NUL, ppc) && Undoubled(body[..k + 1], QUOTE) == Undoubled(body[..k], QUOTE)
            else
              LookBack(body, k + 1, c, pc) && Undoubled(body[..k + 1], QUOTE) == Undoubled(body[..k], QUOTE) + [c]
  {
    assert body[..k + 1] == body[..k] + [body[k]];
    Snoc(body[..k], body[k], QUOTE);
  }

  lemma CountStep(c: char, s: string, k: nat)
    requires k <= |s|
    ensures Count(c, s[..|s| - |After(s, k)|]) == Count(c, s[..k]) + if At(s, k) == Byte(c) then 1 else 0
  {
    if k < |s| {
      assert s[..k + 1] == s[..k] + [s[k]];
    }
  }

  /** When a quoted field closes, the last stored byte, or the one before a stored CR, is its closing quote. */
  lemma UnpairedQuoteIsStored(body: string, k: nat, row: char)
    requires k <= |body|
    requires OddTail(body[..k], QUOTE) || ClosesAfterCr(body, k, row)
    ensures var u := Undoubled(body[..k], QUOTE);
            if OddTail(body[..k], QUOTE) then
              u == Undoubled(body[..k - 1], QUOTE) + [QUOTE]
            else
              k >= 2 && u == Undoubled(body[..k - 2], QUOTE) + [QUOTE, CR]
  {
    var b := if OddTail(body[..k], QUOTE) then body[..k] else body[..k - 1];
    assert b[..|b| - 1] == body[..|b| - 1];
    assert body[..k][..k - 1] == body[..k - 1];
  }

  lemma {:induction false} NoneCounted(c: char, s: string)
    requires forall j :: 0 <= j < |s| ==> s[j] != c
    ensures Count(c, s) == 0
  {
    if s != "" {
      NoneCounted(c, s[..|s| - 1]);
    }
  }
}
