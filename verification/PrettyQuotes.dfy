/** Where `.schema --indent` drops whitespace and breaks lines, position by position, and what stands in quotes. Both
    passes look for whitespace, commas and parentheses without regard to quotes, so a quoted text may lose whitespace in
    the first pass and gain line breaks in the second. */
module PrettyQuotes {
  import opened CStrings
  import opened PrettySchema

  // ---------------------------------------------------------------- the quoted part of a schema text

  /** The quote that must close the text after `c`, NUL outside quotes. */
  function Next(q: char, c: char): char {
    if q != NUL then if c == q then NUL else q
    else if c == '"' || c == '\'' || c == '`' then c
    else if c == '[' then ']'
    else NUL
  }

  predicate IsState(q: char) {
    q == NUL || q == '"' || q == '\'' || q == '`' || q == ']'
  }

  function State(q: char, s: string): (r: char)
    ensures IsState(q) ==> IsState(r)
    decreases |s|
  {
    if s == "" then q else State(Next(q, s[0]), s[1..])
  }

  /** Everything that stands in quotes, the quotes included, when the text starts in state `q`. */
  function Spans(q: char, s: string): string
    decreases |s|
  {
    if s == "" then ""
    else (if q != NUL || Next(q, s[0]) != NUL then [s[0]] else "") + Spans(Next(q, s[0]), s[1..])
  }

  /** Every quote is closed. */
  predicate Closed(s: string) {
    State(NUL, s) == NUL
  }

  lemma {:induction false} SpansAppend(q: char, s: string, t: string)
    ensures State(q, s + t) == State(State(q, s), t)
    ensures Spans(q, s + t) == Spans(q, s) + Spans(State(q, s), t)
    decreases |s|
  {
    if s == "" {
      assert s + t == t;
    } else {
      var c := s[0];
      assert (s + t)[0] == c && (s + t)[1..] == s[1..] + t;
      SpansAppend(Next(q, c), s[1..], t);
      Concat(if q != NUL || Next(q, c) != NUL then [c] else "", Spans(Next(q, c), s[1..]), Spans(State(q, s), t));
    }
  }

  lemma SpansOfOne(q: char, c: char)
    ensures State(q, [c]) == Next(q, c) && Spans(q, [c]) == if q != NUL || Next(q, c) != NUL then [c] else ""
  {
    assert [c][1..] == "";
    assert State(Next(q, c), "") == Next(q, c) && Spans(Next(q, c), "") == "";
  }

  /** Whitespace neither opens nor closes a quote. */
  lemma {:induction false} SpansOfSpaces(q: char, s: string)
    requires IsState(q) && SpaceRun(s) == |s|
    ensures State(q, s) == q && Spans(q, s) == if q != NUL then s else ""
  {
    if s != "" {
      SpansOfSpaces(q, s[1..]);
      assert s == [s[0]] + s[1..];
    }
  }

  lemma StateSnoc(s: string, i: nat)
    requires i < |s|
    ensures State(NUL, s[..i + 1]) == Next(State(NUL, s[..i]), s[i])
    ensures IsState(State(NUL, s[..i]))
  {
    assert s[..i + 1] == s[..i] + [s[i]];
    SpansAppend(NUL, s[..i], [s[i]]);
    SpansOfOne(State(NUL, s[..i]), s[i]);
  }

  /** Whitespace in front of a text, with the quoted part that it makes. */
  lemma SpansAfterSpaces(q: char, a: string, s: string)
    requires IsState(q) && SpaceRun(a) == |a|
    ensures Spans(q, a + s) == (if q != NUL then a else "") + Spans(q, s) && State(q, a + s) == State(q, s)
  {
    hide Spans, State;
    SpansAppend(q, a, s);
    SpansOfSpaces(q, a);
  }

  lemma BreakIsSpace()
    ensures SpaceRun("\n  ") == 3 && SpaceRun("\n") == 1 && SpaceRun("") == 0
  {
    assert "\n  "[1..] == "  " && "  "[1..] == " " && " "[1..] == "" && "\n"[1..] == "";
  }

  /** The four ways to quote in SQL. */
  predicate IsQuotePair(open: char, close: char) {
    (open == close && (open == '"' || open == '\'' || open == '`')) || (open == '[' && close == ']')
  }

  /** A text without `"`, `'`, a backquote or `[` holds no quotes. */
  lemma {:induction false} NothingQuoted(s: string)
    requires forall i :: 0 <= i < |s| ==> s[i] != '"' && s[i] != '\'' && s[i] != '`' && s[i] != '['
    ensures Spans(NUL, s) == "" && Closed(s)
  {
    if s != "" {
      NothingQuoted(s[1..]);
    }
  }

  lemma {:induction false} InsideQuotes(close: char, body: string)
    requires close != NUL && close !in body
    ensures Spans(close, body) == body && State(close, body) == close
  {
    if body != "" {
      InsideQuotes(close, body[1..]);
      assert body == [body[0]] + body[1..];
    }
  }

  /** A quoted text reaches to the next closing quote, quotes of other kinds inside it or not; without one it reaches to
      the end. */
  lemma QuotedTextIsSpan(open: char, close: char, body: string, rest: string)
    requires IsQuotePair(open, close) && close !in body
    ensures Spans(NUL, [open] + body + [close] + rest) == [open] + body + [close] + Spans(NUL, rest)
    ensures Closed([open] + body + [close] + rest) <==> Closed(rest)
    ensures Spans(NUL, [open] + body) == [open] + body && !Closed([open] + body)
  {
    hide Spans, State;
    var a := [open] + body;
    SpansOfOne(NUL, open);
    InsideQuotes(close, body);
    SpansAppend(NUL, [open], body);
    SpansOfOne(close, close);
    SpansAppend(NUL, a, [close]);
    SpansAppend(NUL, a + [close], rest);
  }

  // ---------------------------------------------------------------- first pass: which whitespace stays

  /** The end of the whitespace at `i`. */
  function RunEnd(s: string, i: nat): (j: nat)
    requires i <= |s|
    ensures i <= j <= |s| && (i < |s| && IsSpace(s[i]) ==> i < j)
  {
    i + SpaceRun(s[i..])
  }

  /** A whitespace character stays if it is the first of its run, the run does not follow `(`, and something other
      than a parenthesis follows the run. Other characters always stay. */
  predicate StaysAt(s: string, i: nat)
    requires i < |s|
  {
    !IsSpace(s[i]) ||
    (0 < i && !IsSpace(s[i - 1]) && s[i - 1] != '(' && s[i - 1] != NUL
     && RunEnd(s, i) < |s| && s[RunEnd(s, i)] != '(' && s[RunEnd(s, i)] != ')')
  }

  function Staying(s: string, i: nat): string
    requires i <= |s|
    decreases |s| - i
  {
    if i == |s| then "" else (if StaysAt(s, i) then [s[i]] else "") + Staying(s, i + 1)
  }

  lemma {:induction false} NothingStays(s: string, i: nat, j: nat)
    requires 0 < i <= j <= |s| && forall k :: i - 1 <= k < j ==> IsSpace(s[k])
    ensures Staying(s, i) == Staying(s, j)
    decreases j - i
  {
    if i < j {
      NothingStays(s, i + 1, j);
      assert "" + Staying(s, i + 1) == Staying(s, i + 1);
    }
  }

  lemma RunIsSpace(s: string, i: nat)
    requires i <= |s|
    ensures forall k :: i <= k < RunEnd(s, i) ==> IsSpace(s[k])
    ensures RunEnd(s, i) < |s| ==> !IsSpace(s[RunEnd(s, i)])
    decreases |s| - i
  {
    if i < |s| && IsSpace(s[i]) {
      RunIsSpace(s, i + 1);
      assert s[i..][1..] == s[i + 1..];
    }
  }

  function Before(s: string, i: nat): char
    requires i <= |s|
  {
    if i == 0 then NUL else s[i - 1]
  }

  lemma SqueezedStep(s: string, i: nat)
    requires i < |s|
    ensures !IsSpace(s[i]) ==> Squeezed(Before(s, i), s[i..]) == [s[i]] + Squeezed(s[i], s[i + 1..])
    ensures IsSpace(s[i]) ==>
              var j := RunEnd(s, i);
              Squeezed(Before(s, i), s[i..]) ==
              if j == |s| then "" else (if StaysAtStart(s, i) then [s[i]] else "") + Squeezed(Before(s, i), s[j..])
  {
    hide IsSpace, SpaceRun, IsParen;
    var t := s[i..];
    assert t[0] == s[i] && t[1..] == s[i + 1..] && t[SpaceRun(t)..] == s[RunEnd(s, i)..];
  }

  /** For whitespace at the start of a run. */
  predicate StaysAtStart(s: string, i: nat)
    requires i < |s|
  {
    Before(s, i) != NUL && Before(s, i) != '(' && RunEnd(s, i) < |s| && !IsParen(s[RunEnd(s, i)])
  }

  /** Squeezing keeps exactly the characters that stay. */
  lemma {:induction false} SqueezedIsStaying(s: string, i: nat)
    requires i <= |s| && (i < |s| && IsSpace(s[i]) && i > 0 ==> !IsSpace(s[i - 1]))
    ensures Squeezed(Before(s, i), s[i..]) == Staying(s, i)
    decreases |s| - i
  {
    if i < |s| {
      hide Squeezed, RunEnd, IsSpace, Staying, StaysAt, StaysAtStart;
      SqueezedStep(s, i);
      StayingStep(s, i);
      StartOfRun(s, i);
      if !IsSpace(s[i]) {
        SqueezedIsStaying(s, i + 1);
      } else {
        var j := RunEnd(s, i);
        RunIsSpace(s, i);
        SqueezedIsStaying(s, j);
        NothingStays(s, i + 1, j);
        RestIsSqueezed(s, i, j);
        assert "" + Staying(s, j) == Staying(s, j);
      }
    } else {
      assert s[i..] == "";
    }
  }

  lemma StartOfRun(s: string, i: nat)
    requires i < |s| && (IsSpace(s[i]) && i > 0 ==> !IsSpace(s[i - 1]))
    ensures !IsSpace(s[i]) ==> StaysAt(s, i)
    ensures IsSpace(s[i]) ==> (StaysAt(s, i) <==> StaysAtStart(s, i))
    ensures RunEnd(s, i) == |s| ==> !StaysAtStart(s, i)
  {
  }

  /** What follows a run is squeezed without regard to what precedes it. */
  lemma RestIsSqueezed(s: string, i: nat, j: nat)
    requires i <= |s| && j <= |s| && (j < |s| ==> !IsSpace(s[j]))
    ensures Squeezed(Before(s, i), s[j..]) == Squeezed(Before(s, j), s[j..])
    ensures j == |s| ==> Squeezed(Before(s, j), s[j..]) == ""
  {
  }

  lemma StayingStep(s: string, i: nat)
    requires i < |s|
    ensures Staying(s, i) == if StaysAt(s, i) then [s[i]] + Staying(s, i + 1) else Staying(s, i + 1)
  {
    hide StaysAt;
    assert "" + Staying(s, i + 1) == Staying(s, i + 1);
  }

  // ---------------------------------------------------------------- second pass: where lines are broken

  /** How many parentheses are open before position `i`, quoted ones counted. */
  function DepthAt(t: string, i: nat): int
    requires i <= |t|
  {
    if i == 0 then 0
    else DepthAt(t, i - 1) + if t[i - 1] == '(' then 1 else if t[i - 1] == ')' then -1 else 0
  }

  /** A line ends after `(` or `,` at depth one, or instead of a newline that does not itself follow such a comma. */
  predicate BreaksAfterAt(t: string, i: nat)
    requires i < |t|
  {
    DepthAt(t, i + 1) == 1 && (t[i] == '(' || t[i] == ',' || (t[i] == '\n' && !(i > 0 && t[i - 1] == ',')))
  }

  predicate Follows(t: string, i: nat)
    requires i <= |t|
  {
    i > 0 && BreaksAfterAt(t, i - 1)
  }

  ghost predicate Broke(t: string, i: nat)
    requires i <= |t|
  {
    exists j :: 0 <= j < i && BreaksAfterAt(t, j)
  }

  /** A line ends before the `)` that closes the outermost parenthesis, unless it would be empty or the only one. */
  ghost predicate BreaksBeforeAt(t: string, i: nat)
    requires i < |t|
  {
    t[i] == ')' && DepthAt(t, i) == 1 && Broke(t, i) && !Follows(t, i)
  }

  /** Whitespace after the end of a line. */
  predicate SkippedAt(t: string, i: nat)
    requires i < |t|
  {
    IsSpace(t[i]) && Follows(t, i)
  }

  ghost function PrintedAt(t: string, i: nat): string
    requires i < |t|
  {
    if BreaksAfterAt(t, i) then (if t[i] == '\n' then "" else [t[i]]) + "\n  "
    else if SkippedAt(t, i) then ""
    else (if BreaksBeforeAt(t, i) then "\n" else "") + [t[i]]
  }

  ghost function PrintedFrom(t: string, i: nat): string
    requires i <= |t|
    decreases |t| - i
  {
    if i == |t| then ";\n" else PrintedAt(t, i) + PrintedFrom(t, i + 1)
  }

  /** What the scan of the second pass knows at position `i`. */
  ghost predicate Scanning(t: string, i: nat, line: string, cEnd: char, nParen: int, nLine: nat) {
    && i <= |t| && IsState(cEnd) && nParen == DepthAt(t, i) && (nLine > 0 <==> Broke(t, i))
    && (i < |t| ==> !SkippedAt(t, i) && (t[i] == ')' ==> (line == "" <==> i == 0 || Follows(t, i))))
  }

  lemma BrokeStep(t: string, i: nat)
    requires i < |t|
    ensures Broke(t, i + 1) <==> Broke(t, i) || BreaksAfterAt(t, i)
  {
    hide BreaksAfterAt;
  }

  /** The guards of the scan are the guards at its position. */
  lemma GuardsAgree(t: string, i: nat, line: string, cEnd: char, nParen: int, nLine: nat)
    requires i < |t| && Scanning(t, i, line, cEnd, nParen, nLine)
    ensures Depth(cEnd, t[i], nParen) == DepthAt(t, i + 1)
    ensures BreaksAfter(t[i], DepthAt(t, i + 1)) <==> BreaksAfterAt(t, i)
    ensures BreaksBefore(cEnd, t[i], nParen, nLine, line) <==> BreaksBeforeAt(t, i)
    ensures IsState(QuoteState(cEnd, t[i]))
  {
    assert i == 0 ==> !Broke(t, i);
    hide Broke;
    if i > 0 && t[i] == '\n' && t[i - 1] == ',' {
      assert DepthAt(t, i + 1) == DepthAt(t, i);
    }
  }

  /** In squeezed text at most one whitespace character follows the end of a line, and only after a comma. */
  lemma SkippedOnce(t: string, i: nat)
    requires Normal(t) && i < |t| && BreaksAfterAt(t, i)
    ensures RunEnd(t, i + 1) <= i + 2
    ensures RunEnd(t, i + 1) == i + 2 ==>
              i + 2 < |t| && SkippedAt(t, i + 1) && !BreaksAfterAt(t, i + 1) && !BreaksBeforeAt(t, i + 1)
              && !SkippedAt(t, i + 2) && t[i + 2] != ')' && DepthAt(t, i + 2) == DepthAt(t, i + 1)
    ensures RunEnd(t, i + 1) == i + 1 < |t| ==> !SkippedAt(t, i + 1)
  {
    hide DepthAt, Broke;
    RunIsSpace(t, i + 1);
    if i + 1 < |t| && IsSpace(t[i + 1]) {
      assert t[i] == ',' && i + 2 < |t| && !IsSpace(t[i + 2]) && !IsParen(t[i + 2]);
      OneSpace(t, i + 1);
      SameDepth(t, i + 1);
    }
  }

  lemma OneSpace(t: string, i: nat)
    requires i + 1 < |t| && IsSpace(t[i]) && !IsSpace(t[i + 1])
    ensures RunEnd(t, i) == i + 1
  {
    assert t[i..][1..] == t[i + 1..] && SpaceRun(t[i + 1..]) == 0;
  }

  lemma SameDepth(t: string, i: nat)
    requires i < |t| && t[i] != '(' && t[i] != ')'
    ensures DepthAt(t, i + 1) == DepthAt(t, i)
  {
  }

  /** The scan goes on after position `i`. */
  lemma ScanStep(t: string, i: nat, line: string, cEnd: char, nParen: int, nLine: nat, kept: string)
    requires Normal(t) && i < |t| && Scanning(t, i, line, cEnd, nParen, nLine) && kept != ""
    ensures var r, depth := QuoteState(cEnd, t[i]), DepthAt(t, i + 1);
            if BreaksAfterAt(t, i) then Scanning(t, RunEnd(t, i + 1), "", r, depth, nLine + 1)
            else Scanning(t, i + 1, kept, r, depth, nLine)
  {
    hide BreaksAfterAt, Normal, DepthAt, Broke, QuoteState;
    GuardsAgree(t, i, line, cEnd, nParen, nLine);
    BrokeStep(t, i);
    if BreaksAfterAt(t, i) {
      SkippedOnce(t, i);
      if RunEnd(t, i + 1) == i + 2 {
        BrokeStep(t, i + 1);
      }
    }
  }

  /** What is printed from position `i` on, when the scan does not skip it. */
  lemma PrintedStep(t: string, i: nat)
    requires Normal(t) && i < |t| && !SkippedAt(t, i)
    ensures PrintedFrom(t, i) ==
            if BreaksAfterAt(t, i) then
              (if t[i] == '\n' then "" else [t[i]]) + "\n  " + PrintedFrom(t, RunEnd(t, i + 1))
            else (if BreaksBeforeAt(t, i) then "\n" else "") + [t[i]] + PrintedFrom(t, i + 1)
  {
    hide BreaksAfterAt, BreaksBeforeAt, SkippedAt, Normal, RunEnd;
    if BreaksAfterAt(t, i) {
      SkippedOnce(t, i);
      if RunEnd(t, i + 1) == i + 2 {
        assert PrintedAt(t, i + 1) == "" && PrintedFrom(t, i + 1) == "" + PrintedFrom(t, i + 2);
      }
    }
  }

  /** Breaking lines rewrites a squeezed text character by character. */
  lemma {:induction false} BrokenIsPrinted(t: string, i: nat, line: string, cEnd: char, nParen: int, nLine: nat)
    requires Normal(t) && Scanning(t, i, line, cEnd, nParen, nLine)
    ensures Broken(line, t[i..], cEnd, nParen, nLine) == line + PrintedFrom(t, i)
    decreases |t| - i
  {
    if i == |t| {
      assert t[i..] == "";
    } else {
      hide Normal, Scanning, Broken, PrintedFrom, BreaksAfterAt, BreaksBeforeAt, SkippedAt, QuoteState, Depth, RunEnd,
           BreaksAfter, BreaksBefore, DepthAt;
      var c, r, depth := t[i], QuoteState(cEnd, t[i]), DepthAt(t, i + 1);
      var kept := Kept(line, c, cEnd, nParen, nLine) + [c];
      ScanStep(t, i, line, cEnd, nParen, nLine, kept);
      if BreaksAfterAt(t, i) {
        BrokenIsPrinted(t, RunEnd(t, i + 1), "", r, depth, nLine + 1);
        LineEnds(t, i, line, cEnd, nParen, nLine);
      } else {
        BrokenIsPrinted(t, i + 1, kept, r, depth, nLine);
        LineGoesOn(t, i, line, cEnd, nParen, nLine);
      }
    }
  }

  lemma LineEnds(t: string, i: nat, line: string, cEnd: char, nParen: int, nLine: nat)
    requires Normal(t) && i < |t| && Scanning(t, i, line, cEnd, nParen, nLine) && BreaksAfterAt(t, i)
    ensures var j := RunEnd(t, i + 1);
            Broken("", t[j..], QuoteState(cEnd, t[i]), DepthAt(t, i + 1), nLine + 1) == "" + PrintedFrom(t, j) ==>
              Broken(line, t[i..], cEnd, nParen, nLine) == line + PrintedFrom(t, i)
  {
    GuardsAgree(t, i, line, cEnd, nParen, nLine);
    assert !SkippedAt(t, i) && !BreaksBeforeAt(t, i);
    assert t[i + 1..][SpaceRun(t[i + 1..])..] == t[RunEnd(t, i + 1)..];
    hide Normal, Scanning, Broken, PrintedFrom, BreaksAfterAt, BreaksBeforeAt, SkippedAt, QuoteState, Depth, RunEnd,
         BreaksAfter, BreaksBefore, DepthAt;
    BrokenAt(t, i, line, cEnd, nParen, nLine);
    PrintedStep(t, i);
    var last := if t[i] == '\n' then "" else [t[i]];
    var rest := PrintedFrom(t, RunEnd(t, i + 1));
    assert "" + rest == rest && "" + (line + last + "\n  ") == line + last + "\n  ";
    Concat(line, last + "\n  ", rest);
    Concat(line, last, "\n  ");
  }

  lemma LineGoesOn(t: string, i: nat, line: string, cEnd: char, nParen: int, nLine: nat)
    requires Normal(t) && i < |t| && Scanning(t, i, line, cEnd, nParen, nLine) && !BreaksAfterAt(t, i)
    ensures var kept := Kept(line, t[i], cEnd, nParen, nLine) + [t[i]];
            Broken(kept, t[i + 1..], QuoteState(cEnd, t[i]), DepthAt(t, i + 1), nLine)
              == kept + PrintedFrom(t, i + 1) ==>
              Broken(line, t[i..], cEnd, nParen, nLine) == line + PrintedFrom(t, i)
  {
    GuardsAgree(t, i, line, cEnd, nParen, nLine);
    assert !SkippedAt(t, i);
    hide Normal, Scanning, Broken, PrintedFrom, BreaksAfterAt, BreaksBeforeAt, SkippedAt, QuoteState, Depth, RunEnd,
         BreaksAfter, BreaksBefore, DepthAt;
    BrokenAt(t, i, line, cEnd, nParen, nLine);
    PrintedStep(t, i);
    LineBefore(line, BreaksBeforeAt(t, i), t[i], PrintedFrom(t, i + 1));
  }

  lemma LineBefore(line: string, breaks: bool, c: char, rest: string)
    ensures (if breaks then line + "\n" else "") + ((if breaks then "" else line) + [c] + rest)
         == line + ((if breaks then "\n" else "") + [c] + rest)
  {
  }

  lemma BrokenAt(t: string, i: nat, line: string, cEnd: char, nParen: int, nLine: nat)
    requires i < |t|
    ensures var c, tail := t[i], t[i + 1..];
            var depth := Depth(cEnd, c, nParen);
            Broken(line, t[i..], cEnd, nParen, nLine) ==
            if BreaksAfter(c, depth) then
              (if BreaksBefore(cEnd, c, nParen, nLine, line) then line + "\n" else "") +
              (Kept(line, c, cEnd, nParen, nLine) + (if c == '\n' then "" else [c]) + "\n  ") +
              Broken("", tail[SpaceRun(tail)..], QuoteState(cEnd, c), depth, nLine + 1)
            else
              (if BreaksBefore(cEnd, c, nParen, nLine, line) then line + "\n" else "") +
              Broken(Kept(line, c, cEnd, nParen, nLine) + [c], tail, QuoteState(cEnd, c), depth, nLine)
  {
    hide Broken, Kept, QuoteState, Depth, BreaksAfter, BreaksBefore;
    BrokenStep(line, t[i..], cEnd, nParen, nLine);
    assert t[i..][0] == t[i] && t[i..][1..] == t[i + 1..];
  }

  lemma ScanStart(t: string)
    ensures Scanning(t, 0, "", NUL, 0, 0) && (t != "" ==> !SkippedAt(t, 0))
  {
    assert !Broke(t, 0);
  }
}
