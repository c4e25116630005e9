/** `.schema --indent`: the MODE_Pretty branch of `shell_callback`, two passes over one buffer. */
module PrettySchema {
  import opened CStrings
  import opened Shell

  predicate IsParen(c: char) {
    c == '(' || c == ')'
  }

  /** A text without its whitespace. */
  function Strip(s: string): string {
    if s == "" then "" else (if IsSpace(s[0]) then "" else [s[0]]) + Strip(s[1..])
  }

  lemma {:induction false} StripAppend(s: string, t: string)
    ensures Strip(s + t) == Strip(s) + Strip(t)
  {
    if s == "" {
      assert s + t == t;
    } else {
      assert (s + t)[1..] == s[1..] + t;
      StripAppend(s[1..], t);
    }
  }

  // ---------------------------------------------------------------- first pass: squeezing whitespace

  /** Of every run of whitespace only the first character stays - none at either end of the text, after `(`, or before a
      parenthesis. `prev` is the character before the text, NUL at the start. */
  function Squeezed(prev: char, s: string): string
    decreases |s|
  {
    if s == "" then ""
    else if !IsSpace(s[0]) then [s[0]] + Squeezed(s[0], s[1..])
    else
      var rest := s[SpaceRun(s)..];
      if rest == "" then ""
      else (if prev == NUL || prev == '(' || IsParen(rest[0]) then "" else [s[0]]) + Squeezed(prev, rest)
  }

  /** No whitespace at either end, doubled, after `(`, or before a parenthesis. */
  ghost predicate Normal(t: string) {
    forall i :: 0 <= i < |t| && IsSpace(t[i]) ==>
      && 0 < i < |t| - 1
      && !IsSpace(t[i - 1]) && t[i - 1] != '(' && t[i - 1] != NUL
      && !IsSpace(t[i + 1]) && !IsParen(t[i + 1])
  }

  lemma {:induction false} StripSpaces(s: string)
    ensures Strip(s) == Strip(s[SpaceRun(s)..])
  {
    if s != "" && IsSpace(s[0]) {
      StripSpaces(s[1..]);
      assert s[1..][SpaceRun(s[1..])..] == s[SpaceRun(s)..];
    } else {
      assert s[0..] == s;
    }
  }

  /** Squeezing removes whitespace only. */
  lemma {:induction false} SqueezedConserves(prev: char, s: string)
    ensures Strip(Squeezed(prev, s)) == Strip(s)
    decreases |s|
  {
    if s != "" {
      if !IsSpace(s[0]) {
        SqueezedConserves(s[0], s[1..]);
      } else {
        var rest := s[SpaceRun(s)..];
        StripSpaces(s);
        SqueezedConserves(prev, rest);
        StripAppend([s[0]], Squeezed(prev, rest));
        assert Strip([s[0]]) == Strip([s[0]][1..]) == "";
        StripAppend("", Squeezed(prev, rest));
        assert rest == "" ==> Strip(s) == "";
      }
    }
  }

  /** Squeezing yields the normal form, seen together with the character before the text. */
  lemma {:induction false} SqueezedIsNormalAfter(prev: char, s: string)
    requires !IsSpace(prev)
    ensures Normal([prev] + Squeezed(prev, s))
    decreases |s|
  {
    var t := Squeezed(prev, s);
    if s == "" {
    } else if !IsSpace(s[0]) {
      SqueezedIsNormalAfter(s[0], s[1..]);
      NormalCons(prev, t);
    } else {
      var rest := s[SpaceRun(s)..];
      if rest != "" {
        hide Normal;
        SqueezedIsNormalAfter(prev, rest);
        if t != Squeezed(prev, rest) {
          NormalInsert(prev, s[0], Squeezed(prev, rest));
        }
      }
    }
  }

  lemma NormalCons(c: char, t: string)
    requires Normal(t) && !IsSpace(c)
    ensures Normal([c] + t)
  {
    var u := [c] + t;
    forall i | 0 <= i < |u| && IsSpace(u[i])
      ensures 0 < i < |u| - 1 && !IsSpace(u[i - 1]) && u[i - 1] != '(' && u[i - 1] != NUL
      ensures !IsSpace(u[i + 1]) && !IsParen(u[i + 1])
    {
      assert i > 0 && u[i] == t[i - 1];
      InNormal(t, i - 1);
      assert u[i - 1] == t[i - 2] && u[i + 1] == t[i];
    }
  }

  lemma InNormal(t: string, i: nat)
    requires Normal(t) && i < |t| && IsSpace(t[i])
    ensures 0 < i < |t| - 1 && !IsSpace(t[i - 1]) && t[i - 1] != '(' && t[i - 1] != NUL
    ensures !IsSpace(t[i + 1]) && !IsParen(t[i + 1])
  {
  }

  /** One whitespace fits between two texts, unless a parenthesis forbids it. */
  lemma NormalInsert(prev: char, space: char, t: string)
    requires Normal([prev] + t) && t != "" && !IsSpace(t[0]) && !IsParen(t[0])
    requires IsSpace(space) && !IsSpace(prev) && prev != '(' && prev != NUL
    ensures Normal([prev] + ([space] + t))
  {
    var u, v := [prev] + t, [prev] + ([space] + t);
    assert forall i :: 1 <= i < |u| ==> v[i + 1] == u[i];
    forall i | 0 <= i < |v| && IsSpace(v[i])
      ensures 0 < i < |v| - 1 && !IsSpace(v[i - 1]) && v[i - 1] != '(' && v[i - 1] != NUL
      ensures !IsSpace(v[i + 1]) && !IsParen(v[i + 1])
    {
      if i == 1 {
        assert v[2] == t[0];
      } else {
        assert i > 2 && IsSpace(u[i - 1]) && v[i] == u[i - 1] && v[i - 1] == u[i - 2] && v[i + 1] == u[i];
      }
    }
  }

  lemma SqueezedIsNormal(s: string)
    ensures Normal(Squeezed(NUL, s))
  {
    SqueezedIsNormalAfter(NUL, s);
    NormalTail(NUL, Squeezed(NUL, s));
  }

  lemma NormalTail(c: char, t: string)
    requires Normal([c] + t) && (c == NUL || (t != "" ==> !IsSpace(t[0])))
    ensures Normal(t)
  {
    var u := [c] + t;
    assert forall i :: 0 <= i < |t| ==> u[i + 1] == t[i];
    forall i | 0 <= i < |t| && IsSpace(t[i])
      ensures 0 < i < |t| - 1 && !IsSpace(t[i - 1]) && t[i - 1] != '(' && t[i - 1] != NUL
      ensures !IsSpace(t[i + 1]) && !IsParen(t[i + 1])
    {
      assert IsSpace(u[i + 1]) && u[i] != NUL;
      assert i > 0 && u[i] == t[i - 1] && u[i + 2] == t[i + 1];
    }
  }

  lemma NormalSuffix(s: string, k: nat)
    requires Normal(s) && k <= |s| && (k < |s| ==> !IsSpace(s[k]))
    ensures Normal(s[k..])
  {
    var u := s[k..];
    assert forall i :: 0 <= i < |u| ==> u[i] == s[k + i];
  }

  /** A text in normal form is left alone. */
  lemma {:induction false} NormalIsSqueezed(prev: char, s: string)
    requires Normal(s)
    ensures Squeezed(prev, s) == s
    decreases |s|
  {
    if s != "" {
      assert !IsSpace(s[0]);
      var t := s[1..];
      if t == "" || !IsSpace(t[0]) {
        NormalSuffix(s, 1);
        NormalIsSqueezed(s[0], t);
      } else {
        assert IsSpace(s[1]) && |s| > 2 && s[0] != '(' && s[0] != NUL && !IsSpace(s[2]) && !IsParen(s[2]);
        var u := s[2..];
        NormalSuffix(s, 2);
        hide Normal;
        SpaceRunOne(t);
        assert t[1..] == u;
        NormalIsSqueezed(s[0], u);
        assert Squeezed(s[0], t) == [t[0]] + Squeezed(s[0], u);
      }
    }
  }

  lemma SpaceRunOne(t: string)
    requires |t| > 1 && IsSpace(t[0]) && !IsSpace(t[1])
    ensures SpaceRun(t) == 1
  {
  }

  /** The normal forms are exactly the texts that squeezing leaves alone; squeezing twice is squeezing once. */
  lemma NormalIffSqueezed(s: string)
    ensures Normal(s) <==> Squeezed(NUL, s) == s
    ensures Squeezed(NUL, Squeezed(NUL, s)) == Squeezed(NUL, s)
  {
    SqueezedIsNormal(s);
    if Normal(s) {
      NormalIsSqueezed(NUL, s);
    }
    NormalIsSqueezed(NUL, Squeezed(NUL, s));
  }

  // ---------------------------------------------------------------- the first pass, in place

  /** The text that squeezing still has to produce from `rest`, when `out` is in the buffer. A whitespace at the end
      of the buffer is not settled yet: a parenthesis or the end of the text may take it away. */
  ghost predicate Squeezing(all: string, out: string, rest: string) {
    if out == "" then
      all == Squeezed(NUL, rest) && (rest != "" ==> !IsSpace(rest[0]))
    else
      var c := out[|out| - 1];
      if !IsSpace(c) then c != NUL && all == out + Squeezed(c, rest)
      else
        && |out| > 1 && !IsSpace(out[|out| - 2]) && out[|out| - 2] != '(' && out[|out| - 2] != NUL
        && all == out[..|out| - 1] + Squeezed(out[|out| - 2], [c] + rest)
  }

  lemma SqueezingStart(s: string)
    ensures Squeezing(Squeezed(NUL, s), "", s[SpaceRun(s)..])
  {
    assert s[0..] == s;
  }

  /** A whitespace is dropped after another one or after `(`. */
  lemma SqueezingDrop(all: string, out: string, c: char, rest: string)
    requires Squeezing(all, out, [c] + rest) && out != "" && IsSpace(c)
    requires IsSpace(out[|out| - 1]) || out[|out| - 1] == '('
    ensures Squeezing(all, out, rest)
  {
    var d := out[|out| - 1];
    if IsSpace(d) {
      DropSecondSpace(out[|out| - 2], d, c, rest);
    } else {
      DropSpaceAfterParen(c, rest);
    }
  }

  lemma DropSecondSpace(prev: char, d: char, c: char, rest: string)
    requires IsSpace(c) && IsSpace(d)
    ensures Squeezed(prev, [d] + ([c] + rest)) == Squeezed(prev, [d] + rest)
  {
    var long, short := [d] + ([c] + rest), [d] + rest;
    assert long[1..] == [c] + rest && long[1..][1..] == rest && short[1..] == rest;
    assert SpaceRun(long) == 2 + SpaceRun(rest) && SpaceRun(short) == 1 + SpaceRun(rest);
    assert long[2 + SpaceRun(rest)..] == rest[SpaceRun(rest)..] == short[1 + SpaceRun(rest)..];
  }

  lemma DropSpaceAfterParen(c: char, rest: string)
    requires IsSpace(c)
    ensures Squeezed('(', [c] + rest) == Squeezed('(', rest)
  {
    var long := [c] + rest;
    assert long[1..] == rest;
    assert SpaceRun(long) == 1 + SpaceRun(rest);
    assert long[1 + SpaceRun(rest)..] == rest[SpaceRun(rest)..];
    if SpaceRun(rest) == 0 {
      assert rest[0..] == rest;
    }
  }

  /** Any other whitespace is kept for now. */
  lemma SqueezingKeep(all: string, out: string, c: char, rest: string)
    requires Squeezing(all, out, [c] + rest) && out != "" && IsSpace(c)
    requires !IsSpace(out[|out| - 1]) && out[|out| - 1] != '('
    ensures Squeezing(all, out + [c], rest)
  {
    assert (out + [c])[..|out|] == out;
  }

  /** A parenthesis takes the place of a whitespace before it; anything else is appended. */
  lemma SqueezingAppend(all: string, out: string, c: char, rest: string)
    requires Squeezing(all, out, [c] + rest) && !IsSpace(c) && c != NUL
    ensures var kept := if IsParen(c) && out != "" && IsSpace(out[|out| - 1]) then out[..|out| - 1] else out;
            Squeezing(all, kept + [c], rest)
  {
    assert ([c] + rest)[1..] == rest;
    if out != "" && IsSpace(out[|out| - 1]) {
      var prev, d := out[|out| - 2], out[|out| - 1];
      var long := [d] + ([c] + rest);
      assert long[1..] == [c] + rest && SpaceRun([c] + rest) == 0 && SpaceRun(long) == 1;
      var next := Squeezed(c, rest);
      if IsParen(c) {
        assert Squeezed(prev, long) == [c] + next;
        Concat(out[..|out| - 1], [c], next);
      } else {
        assert Squeezed(prev, long) == [d] + ([c] + next);
        assert out == out[..|out| - 1] + [d];
        Concat(out[..|out| - 1], [d], [c] + next);
        Concat(out, [c], next);
      }
    } else {
      Concat(out, [c], Squeezed(c, rest));
    }
  }

  /** At the end of the text a whitespace at the end of the buffer goes. */
  lemma SqueezingEnd(all: string, out: string)
    requires Squeezing(all, out, "")
    ensures all == if out != "" && IsSpace(out[|out| - 1]) then out[..|out| - 1] else out
    ensures |out| > 1 && IsSpace(out[|out| - 1]) ==> !IsSpace(out[|out| - 2])
  {
    if out != "" && IsSpace(out[|out| - 1]) {
      var d := out[|out| - 1];
      assert [d] + "" == [d] && [d][1..] == "" && SpaceRun([d]) == 1;
    }
  }

  method SkipLeading(z: array<char>, i0: nat, ghost s: string) returns (i: nat)
    requires z.Length == |s| + 1 && i0 <= |s| && z[i0..] == s[i0..] + [NUL]
    ensures i == i0 + SpaceRun(s[i0..]) && i <= |s|
  {
    i := i0;
    assert forall k :: i0 <= k < |s| ==> z[k] == z[i0..][k - i0] == s[k];
    assert z[|s|] == z[i0..][|s| - i0] == NUL;
    while IsSpace(z[i])
      invariant i0 <= i <= |s|
      invariant i0 + SpaceRun(s[i0..]) == i + SpaceRun(s[i..])
      decreases |s| - i
    {
      assert s[i..][1..] == s[i + 1..];
      i := i + 1;
    }
  }

  /** The character at read index `i` is dealt with; `next` is the new write index. */
  method SqueezeOne(z: array<char>, i: nat, j: nat, ghost s: string, ghost all: string) returns (next: nat)
    requires z.Length == |s| + 1 && j <= i < |s| && z[i] == s[i] != NUL
    requires Squeezing(all, z[..j], s[i..])
    requires j == 0 ==> !IsSpace(s[i])
    modifies z
    ensures 0 < next <= i + 1 && Squeezing(all, z[..next], s[i + 1..])
    ensures forall k :: i < k <= |s| ==> z[k] == old(z[k])
  {
    hide Squeezing;
    var c := z[i];
    next := j;
    ghost var out, rest := z[..j], s[i + 1..];
    assert s[i..] == [c] + rest;
    if IsSpace(c) {
      if IsSpace(z[j - 1]) || z[j - 1] == '(' {
        SqueezingDrop(all, out, c, rest);
        return;
      }
      SqueezingKeep(all, out, c, rest);
    } else {
      SqueezingAppend(all, out, c, rest);
      if IsParen(c) && j > 0 && IsSpace(z[j - 1]) {
        next := j - 1;
      }
    }
    ghost var kept := z[..next];
    assert kept == out[..next] && out[..j] == out;
    z[next] := c;
    next := next + 1;
    assert z[..next] == kept + [c];
  }

  /** The first pass, in place: the write index `j` never passes the read index `i`. */
  method Squeeze(z: array<char>, ghost s: string) returns (j: nat)
    requires z.Length == |s| + 1 && z[..] == s + [NUL] && NulFree(s)
    modifies z
    ensures j <= |s| && z[..j] == Squeezed(NUL, s) && z[j] == NUL
  {
    hide Squeezing, Squeezed;
    ghost var all := Squeezed(NUL, s);
    assert s[0..] == s;
    assert forall k :: 0 <= k <= |s| ==> z[k] == z[..][k];
    var i := SkipLeading(z, 0, s);
    SqueezingStart(s);
    j := 0;
    assert z[..0] == "";
    while z[i] != NUL
      invariant j <= i <= |s| && Squeezing(all, z[..j], s[i..])
      invariant j == 0 ==> i == |s| || !IsSpace(s[i])
      invariant z[|s|] == NUL && forall k :: i <= k < |s| ==> z[k] == s[k]
      decreases |s| - i
    {
      j := SqueezeOne(z, i, j, s, all);
      i := i + 1;
    }
    assert s[i..] == "";
    SqueezingEnd(all, z[..j]);
    while j > 0 && IsSpace(z[j - 1])
      invariant j <= |s|
      invariant all == if j > 0 && IsSpace(z[j - 1]) then z[..j - 1] else z[..j]
      invariant j > 1 && IsSpace(z[j - 1]) ==> !IsSpace(z[j - 2])
    {
      j := j - 1;
    }
    z[j] := NUL;
  }

  // ---------------------------------------------------------------- second pass: breaking lines

  const LINE_LIMIT: nat := 79

  /** The quote that the scan is in after reading `c`, NUL if none. Parentheses count inside quotes as well. */
  function QuoteState(cEnd: char, c: char): char {
    if c == cEnd then NUL
    else if c == '"' || c == '\'' || c == '`' then c
    else if c == '[' then ']'
    else cEnd
  }

  function Depth(cEnd: char, c: char, nParen: int): int {
    if c == cEnd then nParen
    else if c == '(' then nParen + 1
    else if c == ')' then nParen - 1
    else nParen
  }

  /** The line is printed before `c`: a closing parenthesis of the outermost level starts a line of its own. */
  predicate BreaksBefore(cEnd: char, c: char, nParen: int, nLine: nat, line: string) {
    c != cEnd && c == ')' && nLine > 0 && nParen == 1 && line != ""
  }

  /** The line is printed after `c`: at depth one, after a parenthesis or a comma, or instead of a newline. */
  predicate BreaksAfter(c: char, depth: int) {
    depth == 1 && (c == '(' || c == ',' || c == '\n')
  }

  /** One character: what is printed, and what then waits in the buffer. */
  function Printed(line: string, c: char, cEnd: char, nParen: int, nLine: nat): string {
    (if BreaksBefore(cEnd, c, nParen, nLine, line) then line + "\n" else "") +
    if BreaksAfter(c, Depth(cEnd, c, nParen)) then
      Kept(line, c, cEnd, nParen, nLine) + (if c == '\n' then "" else [c]) + "\n  "
    else ""
  }

  function Kept(line: string, c: char, cEnd: char, nParen: int, nLine: nat): string {
    if BreaksBefore(cEnd, c, nParen, nLine, line) then "" else line
  }

  /** What is still to be printed of `rest` when `line` is waiting in the buffer. Whitespace after a break is
      skipped. */
  function Broken(line: string, rest: string, cEnd: char, nParen: int, nLine: nat): string
    decreases |rest|
  {
    if rest == "" then line + ";\n"
    else
      var c := rest[0];
      var depth := Depth(cEnd, c, nParen);
      Printed(line, c, cEnd, nParen, nLine) +
      if BreaksAfter(c, depth) then
        Broken("", rest[1..][SpaceRun(rest[1..])..], QuoteState(cEnd, c), depth, nLine + 1)
      else
        Broken(Kept(line, c, cEnd, nParen, nLine) + [c], rest[1..], QuoteState(cEnd, c), depth, nLine)
  }

  lemma StripOfBreak(s: string)
    ensures Strip(s + "\n") == Strip(s) && Strip(s + "\n  ") == Strip(s)
    ensures Strip(s + ";\n") == Strip(s) + ";"
  {
    StripAppend(s, "\n");
    StripAppend(s, "\n  ");
    StripAppend(s, ";\n");
    assert "\n"[1..] == "" && Strip("\n") == "";
    assert "\n  "[1..] == "  " && "  "[1..] == " " && " "[1..] == "" && Strip(" ") == "" && Strip("  ") == "";
    assert ";\n"[1..] == "\n" && Strip(";\n") == ";";
  }

  lemma StripChar(c: char)
    ensures Strip([c]) == if IsSpace(c) then "" else [c]
  {
    assert [c][1..] == "" && Strip("") == "";
  }

  lemma StripNothing()
    ensures Strip("") == ""
  {
  }

  lemma PrintedConserves(line: string, c: char, cEnd: char, nParen: int, nLine: nat)
    ensures var kept := if BreaksAfter(c, Depth(cEnd, c, nParen)) then "" else Kept(line, c, cEnd, nParen, nLine) + [c];
            Strip(Printed(line, c, cEnd, nParen, nLine)) + Strip(kept) == Strip(line) + Strip([c])
  {
    hide Strip, BreaksBefore, BreaksAfter, Depth;
    StripNothing();
    var first := if BreaksBefore(cEnd, c, nParen, nLine, line) then line + "\n" else "";
    var kept := Kept(line, c, cEnd, nParen, nLine);
    StripOfBreak(line);
    StripChar(c);
    StripAppend(kept, [c]);
    assert Strip(first) + Strip(kept) == Strip(line);
    if BreaksAfter(c, Depth(cEnd, c, nParen)) {
      var last := kept + (if c == '\n' then "" else [c]);
      StripAppend(kept, if c == '\n' then "" else [c]);
      StripOfBreak(last);
      StripAppend(first, last + "\n  ");
      Concat(Strip(first), Strip(kept), Strip([c]));
    } else {
      assert first + "" == first;
      Concat(Strip(first), Strip(kept), Strip([c]));
    }
  }

  /** Breaking lines adds and removes whitespace only. */
  lemma {:induction false} BrokenConserves(line: string, rest: string, cEnd: char, nParen: int, nLine: nat)
    ensures Strip(Broken(line, rest, cEnd, nParen, nLine)) == Strip(line) + Strip(rest) + ";"
    decreases |rest|
  {
    hide Strip, Printed, Kept, Depth, QuoteState;
    StripNothing();
    if rest == "" {
      StripOfBreak(line);
    } else {
      var c, tail := rest[0], rest[1..];
      var depth, kept := Depth(cEnd, c, nParen), Kept(line, c, cEnd, nParen, nLine) + [c];
      var printed := Printed(line, c, cEnd, nParen, nLine);
      PrintedConserves(line, c, cEnd, nParen, nLine);
      assert rest == [c] + tail;
      StripAppend([c], tail);
      Concat(Strip(line), Strip([c]), Strip(tail));
      if BreaksAfter(c, depth) {
        StripSpaces(tail);
        BrokenConserves("", tail[SpaceRun(tail)..], QuoteState(cEnd, c), depth, nLine + 1);
        StripAppend(printed, Broken("", tail[SpaceRun(tail)..], QuoteState(cEnd, c), depth, nLine + 1));
        Concat(Strip(printed), Strip(tail), ";");
      } else {
        BrokenConserves(kept, tail, QuoteState(cEnd, c), depth, nLine);
        StripAppend(printed, Broken(kept, tail, QuoteState(cEnd, c), depth, nLine));
        Concat(Strip(printed), Strip(kept) + Strip(tail), ";");
        Concat(Strip(printed), Strip(kept), Strip(tail));
      }
    }
  }

  /** The part of the buffer that has not been read yet. */
  ghost predicate Unread(z: array<char>, i: nat, t: string)
    reads z
  {
    i <= |t| < z.Length && z[|t|] == NUL && forall k :: i <= k < |t| ==> z[k] == t[k] && t[k] != NUL
  }

  method SkipUnread(z: array<char>, i0: nat, ghost t: string) returns (i: nat)
    requires Unread(z, i0, t)
    ensures i == i0 + SpaceRun(t[i0..]) && i <= |t|
  {
    i := i0;
    while IsSpace(z[i])
      invariant i0 <= i <= |t|
      invariant i0 + SpaceRun(t[i0..]) == i + SpaceRun(t[i..])
      decreases |t| - i
    {
      assert t[i..][1..] == t[i + 1..];
      i := i + 1;
    }
  }

  /** The branches on the character `c`, before it is stored: a line may be printed. */
  method BreakBefore(p: ShellState, z: array<char>, c: char, j: nat, cEnd: char, nParen: int, nLine: nat)
    returns (j': nat, cEnd': char, nParen': int)
    requires j <= z.Length
    modifies p`out
    ensures j' <= j && cEnd' == QuoteState(cEnd, c) && nParen' == Depth(cEnd, c, nParen)
    ensures z[..j'] == Kept(z[..j], c, cEnd, nParen, nLine)
    ensures p.out == old(p.out) + if BreaksBefore(cEnd, c, nParen, nLine, z[..j]) then z[..j] + "\n" else ""
  {
    j', cEnd', nParen' := j, cEnd, nParen;
    if c == cEnd {
      cEnd' := NUL;
    } else if c == '"' || c == '\'' || c == '`' {
      cEnd' := c;
    } else if c == '[' {
      cEnd' := ']';
    } else if c == '(' {
      nParen' := nParen + 1;
    } else if c == ')' {
      nParen' := nParen - 1;
      if nLine > 0 && nParen' == 0 && j > 0 {
        p.out := p.out + (z[..j] + "\n");
        j' := 0;
      }
    }
  }

  /** One turn of the second pass. */
  method BreakOne(p: ShellState, z: array<char>, i: nat, j: nat, cEnd: char, nParen: int, nLine: nat, ghost t: string)
    returns (i': nat, j': nat, cEnd': char, nParen': int, nLine': nat)
    requires Unread(z, i, t) && i < |t| && j <= i
    modifies p`out, z
    ensures i < i' && j' <= i' && Unread(z, i', t)
    ensures p.out + Broken(z[..j'], t[i'..], cEnd', nParen', nLine')
         == old(p.out) + Broken(old(z[..j]), t[i..], cEnd, nParen, nLine)
  {
    hide Broken, QuoteState, Depth, Kept, BreaksBefore, SpaceRun;
    ghost var out0, line, rest := p.out, z[..j], t[i + 1..];
    var c := z[i];
    assert t[i..][0] == c && t[i..][1..] == rest;
    j', cEnd', nParen' := BreakBefore(p, z, c, j, cEnd, nParen, nLine);
    ghost var first := if BreaksBefore(cEnd, c, nParen, nLine, line) then line + "\n" else "";
    ghost var kept := z[..j'];
    z[j'] := c;
    j' := j' + 1;
    assert z[..j'] == kept + [c];
    i', nLine' := i + 1, nLine;
    if nParen' == 1 && (c == '(' || c == ',' || c == '\n') {
      if c == '\n' {
        j' := j' - 1;
      }
      assert z[..j'] == kept + (if c == '\n' then "" else [c]);
      ghost var last := z[..j'] + "\n  ";
      Concat(out0, first, last);
      p.out := p.out + (z[..j'] + "\n  ");
      j', nLine' := 0, nLine + 1;
      i' := SkipUnread(z, i', t);
      assert t[i'..] == rest[SpaceRun(rest)..];
      assert z[..0] == "";
    } else {
      assert first + "" == first;
    }
    BrokenStep(line, t[i..], cEnd, nParen, nLine);
    Concat(out0, Printed(line, c, cEnd, nParen, nLine), Broken(z[..j'], t[i'..], cEnd', nParen', nLine'));
  }

  lemma BrokenStep(line: string, rest: string, cEnd: char, nParen: int, nLine: nat)
    requires rest != ""
    ensures var c, tail := rest[0], rest[1..];
            var depth := Depth(cEnd, c, nParen);
            Broken(line, rest, cEnd, nParen, nLine) ==
            Printed(line, c, cEnd, nParen, nLine) +
            if BreaksAfter(c, depth) then
              Broken("", tail[SpaceRun(tail)..], QuoteState(cEnd, c), depth, nLine + 1)
            else
              Broken(Kept(line, c, cEnd, nParen, nLine) + [c], tail, QuoteState(cEnd, c), depth, nLine)
  {
    hide Printed, Kept, QuoteState, Depth;
  }

  /** The second pass, in place: a line is collected in the part of the buffer that was already read. */
  method PrintBroken(p: ShellState, z: array<char>, ghost t: string)
    requires Unread(z, 0, t)
    modifies p`out, z
    ensures p.out == old(p.out) + Broken("", t, NUL, 0, 0)
  {
    ghost var goal := p.out + Broken("", t, NUL, 0, 0);
    var i, j := 0, 0;
    var cEnd, nParen, nLine := NUL, 0, 0;
    assert t[0..] == t && z[..0] == "";
    while z[i] != NUL
      invariant 0 <= j <= i && 0 <= nLine && Unread(z, i, t)
      invariant goal == p.out + Broken(z[..j], t[i..], cEnd, nParen, nLine)
      decreases |t| - i
    {
      i, j, cEnd, nParen, nLine := BreakOne(p, z, i, j, cEnd, nParen, nLine, t);
    }
    assert t[i..] == "";
    p.out := p.out + (z[..j] + ";\n");
  }

  // ---------------------------------------------------------------- the whole branch

  /** Views and triggers are printed as they are: `CREATE VIEW%` and `CREATE TRIG%`, in any letter case. */
  predicate IsViewOrTrigger(s: string) {
    |s| >= 11 && (Upper(s[..11]) == "CREATE VIEW" || Upper(s[..11]) == "CREATE TRIG")
  }

  function Pretty(s: string): string {
    if IsViewOrTrigger(s) then s + ";\n"
    else
      var t := Squeezed(NUL, s);
      if |t| >= LINE_LIMIT then Broken("", t, NUL, 0, 0) else t + ";\n"
  }

  /** MODE_Pretty of `shell_callback`, for a schema text that is not a null pointer. */
  method ShellCallbackPretty(p: ShellState, azArg0: string)
    requires NulFree(azArg0)
    modifies p`out
    ensures p.out == old(p.out) + Pretty(azArg0)
  {
    hide Squeezed, Broken;
    if IsViewOrTrigger(azArg0) {
      p.out := p.out + (azArg0 + ";\n");
      return;
    }
    var z := new char[|azArg0| + 1](k => if 0 <= k < |azArg0| then azArg0[k] else NUL);
    assert z[..] == azArg0 + [NUL];
    var j := Squeeze(z, azArg0);
    ghost var t := Squeezed(NUL, azArg0);
    SqueezedIsNulFree(NUL, azArg0);
    assert forall k :: 0 <= k < |t| ==> z[..j][k] == t[k];
    if j >= LINE_LIMIT {
      PrintBroken(p, z, t);
    } else {
      p.out := p.out + (z[..j] + ";\n");
    }
  }

  /** The first eleven characters are these, letters in either case. */
  predicate StartsWith(s: string, head: string) {
    |s| >= |head| &&
    forall i :: 0 <= i < |head| ==> s[i] == head[i] || ('A' <= head[i] <= 'Z' && s[i] as int == head[i] as int + 32)
  }

  lemma UpperStarts(s: string, head: string)
    requires |head| <= |s| && forall i :: 0 <= i < |head| ==> head[i] == ' ' || 'A' <= head[i] <= 'Z'
    ensures Upper(s[..|head|]) == head <==> StartsWith(s, head)
  {
    if StartsWith(s, head) {
      assert Upper(s[..|head|]) == head;
    }
  }

  /** A schema text that starts with CREATE VIEW or CREATE TRIG, in any letter case, is printed as it is; any other is
      squeezed, and broken into lines if it then has 79 characters or more. */
  lemma ViewsAndTriggers(s: string)
    ensures var t := Squeezed(NUL, s);
            Pretty(s) == if StartsWith(s, "CREATE VIEW") || StartsWith(s, "CREATE TRIG") then s + ";\n"
                         else if |t| < 79 then t + ";\n" else Broken("", t, NUL, 0, 0)
  {
    hide Squeezed, Broken, Upper, StartsWith;
    ShortStarts(s);
    if |s| >= 11 {
      UpperStarts(s, "CREATE VIEW");
      UpperStarts(s, "CREATE TRIG");
    }
  }

  lemma ShortStarts(s: string)
    ensures StartsWith(s, "CREATE VIEW") || StartsWith(s, "CREATE TRIG") ==> |s| >= 11
  {
  }

  lemma {:induction false} SqueezedIsNulFree(prev: char, s: string)
    requires NulFree(s)
    ensures NulFree(Squeezed(prev, s))
    decreases |s|
  {
    if s != "" {
      if !IsSpace(s[0]) {
        SqueezedIsNulFree(s[0], s[1..]);
      } else {
        SqueezedIsNulFree(prev, s[SpaceRun(s)..]);
      }
    }
  }

  /** Conservation: apart from whitespace, the output is the input followed by a semicolon. */
  lemma PrettyConserves(s: string)
    ensures Strip(Pretty(s)) == Strip(s) + ";"
  {
    hide Broken, Squeezed, Strip;
    StripNothing();
    StripOfBreak(s);
    var t := Squeezed(NUL, s);
    SqueezedConserves(NUL, s);
    StripOfBreak(t);
    BrokenConserves("", t, NUL, 0, 0);
    assert "" + Strip(t) == Strip(t);
  }
}
