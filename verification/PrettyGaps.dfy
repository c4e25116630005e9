/** Exactly which schema texts keep their quoted parts under `.schema --indent`. Both passes are seen as a rewriting of
    the gaps, the possibly empty runs of whitespace before each other character and at the end of the text. */
module PrettyGaps {
  import opened CStrings
  import opened PrettySchema
  import opened PrettyQuotes

  /** A gap starts at `i`. */
  predicate GapAt(s: string, i: nat) {
    i <= |s| && (i == 0 || !IsSpace(s[i - 1]))
  }

  /** What the first pass leaves of the gap at `i`. */
  function Left(s: string, i: nat): (r: string)
    requires i <= |s|
    ensures |r| <= 1 && (r != "" ==> IsSpace(r[0]))
  {
    if i < |s| && IsSpace(s[i]) && StaysAt(s, i) then [s[i]] else ""
  }

  /** What is printed in place of the gap at `i`: a line break after `(` or `,` at depth one; nothing at the end of the
      text; a line break for a newline, and one before `)`, at depth one; otherwise what the first pass leaves. Lines
      are broken in long texts only. */
  function Gap(s: string, i: nat, long: bool): string
    requires i <= |s|
  {
    var j, breaks := RunEnd(s, i), long && DepthAt(s, i) == 1;
    if breaks && i > 0 && (s[i - 1] == '(' || s[i - 1] == ',') then "\n  "
    else if j == |s| then ""
    else if breaks && Left(s, i) == "\n" then "\n  "
    else if breaks && s[j] == ')' then "\n"
    else Left(s, i)
  }

  /** The text from `i` on with its gaps rewritten, and the semicolon. */
  function Out(s: string, i: nat, long: bool): string
    requires i <= |s|
    decreases |s| - i
  {
    var j := RunEnd(s, i);
    Gap(s, i, long) + if j == |s| then ";\n" else [s[j]] + Out(s, j + 1, long)
  }

  /** The gap at `i` is printed as it is. */
  predicate GapKept(s: string, i: nat, long: bool)
    requires i <= |s|
  {
    Gap(s, i, long) == s[i..RunEnd(s, i)]
  }

  /** Every quoted gap from `i` on is printed as it is. */
  ghost predicate GapsKept(s: string, i: nat, long: bool) {
    forall k :: i <= k && GapAt(s, k) && State(NUL, s[..k]) != NUL ==> GapKept(s, k, long)
  }

  // ---------------------------------------------------------------- both passes rewrite the gaps

  lemma {:induction false} DepthOfRun(s: string, i: nat, j: nat)
    requires i <= |s| && i <= j <= RunEnd(s, i)
    ensures DepthAt(s, j) == DepthAt(s, i)
    decreases j
  {
    if i < j {
      RunIsSpace(s, i);
      DepthOfRun(s, i, j - 1);
    }
  }

  /** At depth one a line has been ended: the depth got there from zero. */
  lemma {:induction false} DeepIsBroken(t: string, i: nat)
    requires i <= |t| && DepthAt(t, i) >= 1
    ensures Broke(t, i)
  {
    if DepthAt(t, i - 1) >= 1 {
      DeepIsBroken(t, i - 1);
    } else {
      assert BreaksAfterAt(t, i - 1);
    }
  }

  /** What stays of the text from the gap at `i` on. */
  lemma StayingGap(s: string, i: nat)
    requires GapAt(s, i)
    ensures var j := RunEnd(s, i);
            Staying(s, i) == if j == |s| then "" else Left(s, i) + ([s[j]] + Staying(s, j + 1))
  {
    hide StaysAt, RunEnd, IsSpace, Staying, SpaceRun;
    var j := RunEnd(s, i);
    RunIsSpace(s, i);
    if i < j {
      NothingStays(s, i + 1, j);
      StayingStep(s, i);
      EndStays(s, i);
    }
    AfterGap(s, j);
    assert "" + Staying(s, j) == Staying(s, j);
  }

  lemma AfterGap(s: string, j: nat)
    requires j <= |s| && (j < |s| ==> !IsSpace(s[j]))
    ensures Staying(s, j) == if j == |s| then "" else [s[j]] + Staying(s, j + 1)
  {
    hide IsSpace;
    if j < |s| {
      StayingStep(s, j);
      EndStays(s, j);
    }
  }

  lemma EndStays(s: string, i: nat)
    requires i < |s|
    ensures !IsSpace(s[i]) ==> StaysAt(s, i)
    ensures IsSpace(s[i]) && RunEnd(s, i) == |s| ==> !StaysAt(s, i)
  {
  }

  /** Position `k` of the squeezed text `t` is position `i` of `s`. */
  ghost predicate SamePlace(s: string, i: nat, t: string, k: nat) {
    && GapAt(s, i) && k <= |t| && t[k..] == Staying(s, i) && DepthAt(t, k) == DepthAt(s, i)
    && (k > 0 <==> i > 0) && (i > 0 ==> t[k - 1] == s[i - 1])
  }

  /** The line break that belongs to the gap before `k`. */
  ghost function Pending(t: string, k: nat): string
    requires k <= |t|
  {
    if Follows(t, k) then "\n  " else ""
  }

  lemma NextPlace(s: string, i: nat, t: string, k: nat)
    requires SamePlace(s, i, t, k) && RunEnd(s, i) < |s|
    ensures var j, left, m := RunEnd(s, i), Left(s, i), k + |Left(s, i)|;
            && m < |t| && t[k..m] == left && t[m] == s[j] && !IsSpace(s[j])
            && DepthAt(t, m) == DepthAt(s, i) && SamePlace(s, j + 1, t, m + 1)
  {
    var j, left, m := RunEnd(s, i), Left(s, i), k + |Left(s, i)|;
    hide Left, Staying, IsSpace, RunEnd, SpaceRun, DepthAt;
    StayingGap(s, i);
    RunIsSpace(s, i);
    DepthOfRun(s, i, j);
    SplitSuffix(t, k, left, s[j], Staying(s, j + 1));
    if left != "" {
      LeftIsNoParen(s, i);
      SameDepth(t, k);
    }
    DepthStep(s, j, t, m);
  }

  lemma DepthStep(s: string, j: nat, t: string, m: nat)
    requires j < |s| && m < |t| && s[j] == t[m] && DepthAt(s, j) == DepthAt(t, m)
    ensures DepthAt(s, j + 1) == DepthAt(t, m + 1)
  {
    assert DepthAt(s, j + 1) - DepthAt(s, j) == DepthAt(t, m + 1) - DepthAt(t, m);
  }

  lemma SplitSuffix(t: string, k: nat, a: string, c: char, x: string)
    requires k <= |t| && t[k..] == a + ([c] + x)
    ensures var m := k + |a|; m < |t| && t[k..m] == a && t[m] == c && t[m + 1..] == x && (a != "" ==> t[k] == a[0])
  {
    var u, m := t[k..], k + |a|;
    assert u[..|a|] == a && u[|a|] == c && u[|a| + 1..] == x;
    assert t[k..m] == u[..|a|] && t[m] == u[|a|] && t[m + 1..] == u[|a| + 1..];
  }

  lemma LeftIsNoParen(s: string, i: nat)
    requires i <= |s| && Left(s, i) != ""
    ensures var c, j := Left(s, i)[0], RunEnd(s, i);
            IsSpace(c) && !IsParen(c) && i > 0 && s[i - 1] != '(' && j < |s| && !IsParen(s[j])
  {
    RunIsSpace(s, i);
  }

  /** A character other than whitespace. */
  lemma PrintedChar(t: string, m: nat)
    requires m < |t| && !IsSpace(t[m])
    ensures PrintedFrom(t, m) ==
            (if BreaksBeforeAt(t, m) then "\n" else "") + ([t[m]] + (Pending(t, m + 1) + PrintedFrom(t, m + 1)))
  {
    assert BreaksAfterAt(t, m) ==> !BreaksBeforeAt(t, m) && t[m] != '\n';
    hide BreaksAfterAt, BreaksBeforeAt;
    var rest := PrintedFrom(t, m + 1);
    var before := if BreaksBeforeAt(t, m) then "\n" else "";
    Concat(before, [t[m]], Pending(t, m + 1) + rest);
    Concat(before + [t[m]], Pending(t, m + 1), rest);
    assert "" + rest == rest && "" + [t[m]] == [t[m]] && before + [t[m]] + "" == before + [t[m]];
  }

  lemma FollowsGap(s: string, i: nat, t: string, k: nat)
    requires SamePlace(s, i, t, k)
    ensures Follows(t, k) <==> i > 0 && DepthAt(s, i) == 1 && (s[i - 1] == '(' || s[i - 1] == ',')
  {
    hide DepthAt;
  }

  /** A gap of which nothing is left. */
  lemma EmptyGap(s: string, i: nat, t: string, k: nat)
    requires SamePlace(s, i, t, k) && RunEnd(s, i) < |s| && Left(s, i) == ""
    ensures k < |t| && Gap(s, i, true) == Pending(t, k) + if BreaksBeforeAt(t, k) then "\n" else ""
  {
    NextPlace(s, i, t, k);
    if DepthAt(t, k) == 1 {
      DeepIsBroken(t, k);
    }
    FollowsGap(s, i, t, k);
  }

  /** A gap of which a character is left. */
  lemma LeftGap(s: string, i: nat, t: string, k: nat)
    requires SamePlace(s, i, t, k) && RunEnd(s, i) < |s| && Left(s, i) != ""
    ensures k + 1 < |t| && !BreaksBeforeAt(t, k + 1)
    ensures Gap(s, i, true) == Pending(t, k) + PrintedAt(t, k)
  {
    NextPlace(s, i, t, k);
    LeftIsNoParen(s, i);
    assert t[k] == t[k..k + 1][0] == Left(s, i)[0];
    assert DepthAt(t, k + 1) == DepthAt(t, k);
    FollowsGap(s, i, t, k);
  }

  /** A gap and the character after it. */
  lemma GapPrinted(s: string, i: nat, t: string, k: nat)
    requires SamePlace(s, i, t, k) && RunEnd(s, i) < |s|
    ensures var j, m := RunEnd(s, i), k + |Left(s, i)|;
            && m < |t| && SamePlace(s, j + 1, t, m + 1)
            && Pending(t, k) + PrintedFrom(t, k)
            == Gap(s, i, true) + ([s[j]] + (Pending(t, m + 1) + PrintedFrom(t, m + 1)))
  {
    hide Left, Gap, RunEnd, BreaksBeforeAt, PrintedAt, SamePlace, Pending, IsSpace, SpaceRun;
    var j, m := RunEnd(s, i), k + |Left(s, i)|;
    NextPlace(s, i, t, k);
    PrintedChar(t, m);
    var rest := [s[j]] + (Pending(t, m + 1) + PrintedFrom(t, m + 1));
    if Left(s, i) == "" {
      EmptyGap(s, i, t, k);
      Concat(Pending(t, k), if BreaksBeforeAt(t, k) then "\n" else "", rest);
    } else {
      LeftGap(s, i, t, k);
      assert "" + rest == rest;
      Concat(Pending(t, k), PrintedAt(t, k), rest);
    }
  }

  lemma LastGapPrinted(s: string, i: nat, t: string, k: nat)
    requires SamePlace(s, i, t, k) && RunEnd(s, i) == |s|
    ensures Pending(t, k) == Gap(s, i, true) && PrintedFrom(t, k) == ";\n"
  {
    hide DepthAt, Left;
    StayingGap(s, i);
    assert k == |t|;
    FollowsGap(s, i, t, k);
  }

  /** A long text: the second pass, run on what the first one leaves. */
  lemma {:induction false} PrintedIsOut(s: string, i: nat, t: string, k: nat)
    requires i <= |s| && k <= |t| && SamePlace(s, i, t, k)
    ensures Pending(t, k) + PrintedFrom(t, k) == Out(s, i, true)
    decreases |s| - i
  {
    hide Left, Gap, RunEnd, PrintedFrom, Out, Staying, SamePlace, Pending, DepthAt;
    var j := RunEnd(s, i);
    OutStep(s, i, true);
    if j == |s| {
      LastGapPrinted(s, i, t, k);
    } else {
      GapPrinted(s, i, t, k);
      PrintedIsOut(s, j + 1, t, k + |Left(s, i)| + 1);
    }
  }

  /** A short text: the first pass alone. */
  lemma {:induction false} StayingIsOut(s: string, i: nat)
    requires GapAt(s, i)
    ensures Staying(s, i) + ";\n" == Out(s, i, false)
    decreases |s| - i
  {
    hide RunEnd, Staying, Out, IsSpace, SpaceRun, StaysAt, DepthAt;
    var j := RunEnd(s, i);
    StayingGap(s, i);
    OutStep(s, i, false);
    if j < |s| {
      RunIsSpace(s, i);
      StayingIsOut(s, j + 1);
      hide Left;
      var left, rest := Left(s, i), Staying(s, j + 1);
      Concat(left, [s[j]] + rest, ";\n");
      Concat([s[j]], rest, ";\n");
    } else {
      assert "" + ";\n" == ";\n";
    }
  }

  lemma OutStep(s: string, i: nat, long: bool)
    requires i <= |s|
    ensures var j := RunEnd(s, i);
            Out(s, i, long) == Gap(s, i, long) + if j == |s| then ";\n" else [s[j]] + Out(s, j + 1, long)
  {
    hide Gap, RunEnd;
  }

  /** Both passes together rewrite the gaps of a text and nothing else. */
  lemma PassesAreOut(s: string)
    ensures var t := Squeezed(NUL, s);
            (if |t| >= LINE_LIMIT then Broken("", t, NUL, 0, 0) else t + ";\n") == Out(s, 0, |t| >= LINE_LIMIT)
  {
    hide Squeezed, Broken, Out, Staying, Scanning;
    var t := Squeezed(NUL, s);
    assert s[0..] == s && t[0..] == t;
    SqueezedIsStaying(s, 0);
    if |t| >= LINE_LIMIT {
      SqueezedIsNormal(s);
      ScanStart(t);
      BrokenIsPrinted(t, 0, "", NUL, 0, 0);
      PrintedIsOut(s, 0, t, 0);
      assert "" + PrintedFrom(t, 0) == PrintedFrom(t, 0);
    } else {
      StayingIsOut(s, 0);
    }
  }

  // ---------------------------------------------------------------- when the quoted part is the same

  lemma {:induction false} GapIsSpace(s: string, i: nat, long: bool)
    requires i <= |s|
    ensures var g := Gap(s, i, long); SpaceRun(g) == |g|
  {
    hide Left, RunEnd, DepthAt;
    BreakIsSpace();
    assert Left(s, i)[..0] == "" && (Left(s, i) != "" ==> Left(s, i)[1..] == "");
  }

  lemma {:induction false} InRun(a: string, i: nat)
    requires SpaceRun(a) == |a| && i < |a|
    ensures IsSpace(a[i])
  {
    if i > 0 {
      InRun(a[1..], i - 1);
    }
  }

  /** What stands in quotes of a gap, the character after it that leads from `q` to `r`, and the rest. */
  function Quoted(q: char, r: char, a: string, c: char, rest: string): string {
    if q != NUL then a + ([c] + rest) else if r != NUL then [c] + rest else rest
  }

  lemma GapSpans(q: char, a: string, c: char, x: string)
    requires IsState(q) && SpaceRun(a) == |a|
    ensures Spans(q, a + ([c] + x)) == Quoted(q, Next(q, c), a, c, Spans(Next(q, c), x))
    ensures State(q, a + ([c] + x)) == State(Next(q, c), x)
  {
    hide Spans, State, Next, SpaceRun;
    SpansAfterSpaces(q, a, [c] + x);
    SpansOfOne(q, c);
    SpansAppend(q, [c], x);
    assert "" + Spans(q, [c] + x) == Spans(q, [c] + x) && "" + Spans(Next(q, c), x) == Spans(Next(q, c), x);
  }

  /** Whitespace, another character and the rest can be told apart. */
  lemma SameQuoted(q: char, r: char, a: string, b: string, c: char, x: string, y: string)
    requires SpaceRun(a) == |a| && SpaceRun(b) == |b| && !IsSpace(c)
    ensures Quoted(q, r, a, c, x) == Quoted(q, r, b, c, y) <==> (q != NUL ==> a == b) && x == y
  {
    hide SpaceRun, IsSpace;
    var u, v := a + ([c] + x), b + ([c] + y);
    assert ([c] + x)[1..] == x && ([c] + y)[1..] == y;
    if u == v {
      assert u[|a|] == c && v[|b|] == c;
      if |a| < |b| {
        InRun(b, |a|);
      } else if |b| < |a| {
        InRun(a, |b|);
      }
      assert u[..|a|] == a && v[..|b|] == b && u[|a| + 1..] == x && v[|b| + 1..] == y;
    }
  }

  /** Two texts that start with a gap and the same character have the same quoted part. */
  lemma SameSpans(q: char, a: string, b: string, c: char, x: string, y: string)
    requires IsState(q) && SpaceRun(a) == |a| && SpaceRun(b) == |b| && !IsSpace(c)
    ensures Spans(q, a + ([c] + x)) == Spans(q, b + ([c] + y)) <==>
            (q != NUL ==> a == b) && Spans(Next(q, c), x) == Spans(Next(q, c), y)
  {
    hide Spans, State, Next, SpaceRun, IsSpace, Quoted;
    GapSpans(q, a, c, x);
    GapSpans(q, b, c, y);
    SameQuoted(q, Next(q, c), a, b, c, Spans(Next(q, c), x), Spans(Next(q, c), y));
  }

  /** The gaps from `i` on: that at `i`, and those after the next character. */
  lemma GapsKeptStep(s: string, i: nat, long: bool)
    requires GapAt(s, i)
    ensures var j := RunEnd(s, i);
            GapsKept(s, i, long) <==>
            (State(NUL, s[..i]) != NUL ==> GapKept(s, i, long)) && (j < |s| ==> GapsKept(s, j + 1, long))
  {
    hide GapKept, RunEnd, State, IsSpace;
    RunIsSpace(s, i);
    var j := RunEnd(s, i);
    forall k | i < k <= j
      ensures !GapAt(s, k)
    {
      assert IsSpace(s[k - 1]);
    }
    if j == |s| && (State(NUL, s[..i]) != NUL ==> GapKept(s, i, long)) {
      assert GapsKept(s, i, long);
    }
  }

  /** The end of a text whose last gap starts at `i`. */
  lemma LastGap(q: char, gap: string, run: string)
    requires IsState(q) && SpaceRun(gap) == |gap| && SpaceRun(run) == |run|
    ensures Spans(q, gap + ";\n") == Spans(q, run) <==> q == NUL
  {
    assert Next(q, ';') == q && !IsSpace(';');
    hide Spans, State, SpaceRun, IsSpace;
    var tail := ";\n";
    SpansAfterSpaces(q, gap, tail);
    SpansOfSpaces(q, run);
    BreakIsSpace();
    SpansOfOne(q, ';');
    SpansAppend(q, [';'], "\n");
    SpansOfSpaces(q, "\n");
    assert tail == [';'] + "\n";
    if q != NUL {
      assert gap + tail == gap + ([';'] + "\n") && (gap + tail)[|gap|] == ';';
      if gap + tail == run {
        InRun(run, |gap|);
      }
    }
  }

  lemma StateOfRun(s: string, i: nat)
    requires i <= |s|
    ensures var j := RunEnd(s, i); State(NUL, s[..j]) == State(NUL, s[..i]) && SpaceRun(s[i..j]) == |s[i..j]|
    ensures IsState(State(NUL, s[..i]))
  {
    hide RunEnd, SpaceRun, IsSpace, State;
    var j := RunEnd(s, i);
    RunIsSpace(s, i);
    assert s[..j] == s[..i] + s[i..j];
    SpansAppend(NUL, s[..i], s[i..j]);
    SpansOfSpaces(State(NUL, s[..i]), s[i..j]);
  }

  /** A gap and the character after it. */
  lemma AroundGap(s: string, i: nat)
    requires GapAt(s, i) && RunEnd(s, i) < |s|
    ensures var q, j := State(NUL, s[..i]), RunEnd(s, i);
            && IsState(q) && SpaceRun(s[i..j]) == |s[i..j]| && !IsSpace(s[j])
            && State(NUL, s[..j + 1]) == Next(q, s[j]) && s[i..] == s[i..j] + ([s[j]] + s[j + 1..])
  {
    hide RunEnd, State, Next, IsSpace, SpaceRun;
    RunIsSpace(s, i);
    StateOfRun(s, i);
    StateSnoc(s, RunEnd(s, i));
  }

  /** From a gap on: the quoted part is the same, if and only if every quote is closed and every quoted gap is kept. */
  lemma {:induction false} OutSpans(s: string, i: nat, long: bool)
    requires GapAt(s, i)
    ensures var q := State(NUL, s[..i]);
            Spans(q, Out(s, i, long)) == Spans(q, s[i..]) <==> Closed(s) && GapsKept(s, i, long)
    decreases |s| - i
  {
    hide Gap, Out, RunEnd, Spans, State, Next, GapsKept, IsSpace, SpaceRun;
    var q, j, gap := State(NUL, s[..i]), RunEnd(s, i), Gap(s, i, long);
    GapsKeptStep(s, i, long);
    OutStep(s, i, long);
    GapIsSpace(s, i, long);
    if j == |s| {
      StateOfRun(s, i);
      assert s[..j] == s && s[i..j] == s[i..];
      LastGap(q, gap, s[i..]);
    } else {
      AroundGap(s, i);
      OutSpans(s, j + 1, long);
      SameSpans(q, gap, s[i..j], s[j], Out(s, j + 1, long), s[j + 1..]);
    }
  }

  ghost predicate QuotesKept(s: string) {
    Spans(NUL, Pretty(s)) == Spans(NUL, s)
  }

  /** Quoted texts come out of `.schema --indent` as they are, if and only if every quote is closed and - views and
      triggers apart - every quoted gap is one that the passes print as it is. */
  lemma QuotesKeptIff(s: string)
    ensures QuotesKept(s) <==>
            Closed(s) && (IsViewOrTrigger(s) || GapsKept(s, 0, |Squeezed(NUL, s)| >= LINE_LIMIT))
  {
    assert forall q :: Spans(q, "") == "";
    hide Out, Spans, Squeezed, Broken, GapsKept, IsViewOrTrigger;
    PassesAreOut(s);
    assert s[..0] == "" && s[0..] == s && State(NUL, "") == NUL;
    if IsViewOrTrigger(s) {
      SpansAppend(NUL, s, ";\n");
      LastGap(State(NUL, s), "", "");
      assert "" + ";\n" == ";\n";
    } else {
      OutSpans(s, 0, |Squeezed(NUL, s)| >= LINE_LIMIT);
    }
  }

  // ---------------------------------------------------------------- each pass by itself

  /** One text is the other, or longer. */
  predicate SameOrLonger(same: bool, a: string, b: string) {
    if same then a == b else |a| > |b|
  }

  lemma QuotedOrder(q: char, r: char, a: string, b: string, kept: bool, c: char, x: string, y: string, same: bool)
    requires SameOrLonger(kept, a, b) && SameOrLonger(same, x, y)
    ensures SameOrLonger(same && (q != NUL ==> kept), Quoted(q, r, a, c, x), Quoted(q, r, b, c, y))
  {
  }

  /** The quoted part of one text is that of the other, or longer; after both the same quote is open. */
  predicate Compared(q: char, same: bool, u: string, v: string) {
    SameOrLonger(same, Spans(q, u), Spans(q, v)) && State(q, u) == State(q, v)
  }

  /** The quoted part of a gap, a character and the rest: longer, if that of the gap or of the rest is. */
  lemma SpansCompared(q: char, a: string, b: string, kept: bool, c: char, x: string, y: string, same: bool)
    requires IsState(q) && SpaceRun(a) == |a| && SpaceRun(b) == |b|
    requires SameOrLonger(kept, a, b) && SameOrLonger(same, Spans(Next(q, c), x), Spans(Next(q, c), y))
    ensures SameOrLonger(same && (q != NUL ==> kept), Spans(q, a + ([c] + x)), Spans(q, b + ([c] + y)))
    ensures State(Next(q, c), x) == State(Next(q, c), y) ==> State(q, a + ([c] + x)) == State(q, b + ([c] + y))
  {
    hide Spans, State, Next, SpaceRun, Quoted, SameOrLonger;
    GapSpans(q, a, c, x);
    GapSpans(q, b, c, y);
    QuotedOrder(q, Next(q, c), a, b, kept, c, Spans(Next(q, c), x), Spans(Next(q, c), y), same);
  }

  /** The first pass makes no gap longer. */
  lemma SqueezedGap(s: string, i: nat)
    requires i <= |s|
    ensures SameOrLonger(GapKept(s, i, false), s[i..RunEnd(s, i)], Gap(s, i, false))
    ensures Gap(s, i, false) == if RunEnd(s, i) == |s| then "" else Left(s, i)
  {
    hide StaysAt;
  }

  /** A text in normal form loses nothing in the second pass. */
  lemma NormalGap(t: string, i: nat, long: bool)
    requires Normal(t) && GapAt(t, i)
    ensures SameOrLonger(GapKept(t, i, long), Gap(t, i, long), t[i..RunEnd(t, i)])
    ensures RunEnd(t, i) == |t| ==> i == |t|
  {
    hide DepthAt;
    RunIsSpace(t, i);
    if i < RunEnd(t, i) {
      assert IsSpace(t[i]) && i + 1 < |t| && !IsSpace(t[i + 1]);
      OneSpace(t, i);
    }
  }

  ghost predicate SqueezedWell(s: string, i: nat)
    requires i <= |s|
  {
    Compared(State(NUL, s[..i]), GapsKept(s, i, false), s[i..], Staying(s, i))
  }

  lemma SqueezedLast(s: string, i: nat)
    requires GapAt(s, i) && RunEnd(s, i) == |s|
    ensures SqueezedWell(s, i)
  {
    assert Gap(s, i, false) == "" && forall q :: Spans(q, "") == "" && State(q, "") == q;
    hide RunEnd, Spans, State, GapsKept, IsSpace, SpaceRun, Staying, Gap;
    GapsKeptStep(s, i, false);
    StayingGap(s, i);
    StateOfRun(s, i);
    assert s[i..|s|] == s[i..];
    SpansOfSpaces(State(NUL, s[..i]), s[i..]);
  }

  lemma SqueezedNext(s: string, i: nat)
    requires GapAt(s, i) && RunEnd(s, i) < |s| && SqueezedWell(s, RunEnd(s, i) + 1)
    ensures SqueezedWell(s, i)
  {
    hide Staying, Left, Gap, GapKept, GapsKept, State, Spans, Next, RunEnd, SpaceRun, SameOrLonger;
    var j := RunEnd(s, i);
    var q, c, run, left := State(NUL, s[..i]), s[j], s[i..j], Left(s, i);
    var x, y, kept, same := s[j + 1..], Staying(s, j + 1), GapKept(s, i, false), GapsKept(s, j + 1, false);
    AroundGap(s, i);
    assert SameOrLonger(kept, run, left) && SpaceRun(left) == |left| by {
      SqueezedGap(s, i);
      GapIsSpace(s, i, false);
    }
    assert Compared(q, same && (q != NUL ==> kept), run + ([c] + x), left + ([c] + y)) by {
      SpansCompared(q, run, left, kept, c, x, y, same);
    }
    assert Staying(s, i) == left + ([c] + y) by {
      StayingGap(s, i);
    }
    assert GapsKept(s, i, false) <==> same && (q != NUL ==> kept) by {
      GapsKeptStep(s, i, false);
    }
  }

  lemma {:induction false} StayingSpans(s: string, i: nat)
    requires GapAt(s, i)
    ensures SqueezedWell(s, i)
    decreases |s| - i
  {
    hide SqueezedWell, RunEnd;
    if RunEnd(s, i) == |s| {
      SqueezedLast(s, i);
    } else {
      RunIsSpace(s, i);
      StayingSpans(s, RunEnd(s, i) + 1);
      SqueezedNext(s, i);
    }
  }

  /** The first pass leaves the quoted part alone, if and only if it keeps all quoted gaps; otherwise it gets
      shorter. */
  lemma SqueezedSpans(s: string)
    ensures SameOrLonger(GapsKept(s, 0, false), Spans(NUL, s), Spans(NUL, Squeezed(NUL, s)))
    ensures Closed(Squeezed(NUL, s)) <==> Closed(s)
  {
    hide Squeezed, Staying, GapsKept;
    assert s[0..] == s && s[..0] == "" && State(NUL, "") == NUL;
    SqueezedIsStaying(s, 0);
    StayingSpans(s, 0);
  }

  ghost predicate PrintedWell(t: string, i: nat, long: bool)
    requires i <= |t|
  {
    var q := State(NUL, t[..i]);
    SameOrLonger(Closed(t) && GapsKept(t, i, long), Spans(q, Out(t, i, long)), Spans(q, t[i..]))
  }

  lemma PrintedLast(t: string, i: nat, long: bool)
    requires Normal(t) && GapAt(t, i) && RunEnd(t, i) == |t|
    ensures PrintedWell(t, i, long)
  {
    assert Spans(State(NUL, t[..i]), "") == "";
    hide RunEnd, Spans, State, GapsKept, Out, Normal, Closed;
    NormalGap(t, i, long);
    OutSpans(t, i, long);
    assert t[i..] == "";
  }

  lemma PrintedNext(t: string, i: nat, long: bool)
    requires Normal(t) && GapAt(t, i) && RunEnd(t, i) < |t| && PrintedWell(t, RunEnd(t, i) + 1, long)
    ensures PrintedWell(t, i, long)
  {
    hide Normal, Out, Gap, GapKept, GapsKept, State, Spans, Next, RunEnd, SpaceRun, SameOrLonger, Closed;
    var j := RunEnd(t, i);
    var q, c, gap, run := State(NUL, t[..i]), t[j], Gap(t, i, long), t[i..j];
    var x, y, kept := Out(t, j + 1, long), t[j + 1..], GapKept(t, i, long);
    var same := Closed(t) && GapsKept(t, j + 1, long);
    AroundGap(t, i);
    assert SameOrLonger(kept, gap, run) && SpaceRun(gap) == |gap| by {
      NormalGap(t, i, long);
      GapIsSpace(t, i, long);
    }
    assert SameOrLonger(same && (q != NUL ==> kept), Spans(q, gap + ([c] + x)), Spans(q, run + ([c] + y))) by {
      SpansCompared(q, gap, run, kept, c, x, y, same);
    }
    assert Out(t, i, long) == gap + ([c] + x) by {
      OutStep(t, i, long);
    }
    assert GapsKept(t, i, long) <==> GapsKept(t, j + 1, long) && (q != NUL ==> kept) by {
      GapsKeptStep(t, i, long);
    }
  }

  lemma {:induction false} NormalSpans(t: string, i: nat, long: bool)
    requires Normal(t) && GapAt(t, i)
    ensures PrintedWell(t, i, long)
    decreases |t| - i
  {
    hide PrintedWell, RunEnd, Normal;
    if RunEnd(t, i) == |t| {
      PrintedLast(t, i, long);
    } else {
      RunIsSpace(t, i);
      NormalSpans(t, RunEnd(t, i) + 1, long);
      PrintedNext(t, i, long);
    }
  }

  /** The second pass, for long texts, leaves the quoted part alone, if and only if every quote is closed and it keeps
      all quoted gaps; otherwise it gets longer. */
  lemma SecondPassSpans(t: string)
    requires Normal(t)
    ensures var long := |t| >= LINE_LIMIT;
            var printed := if long then Broken("", t, NUL, 0, 0) else t + ";\n";
            SameOrLonger(Closed(t) && GapsKept(t, 0, long), Spans(NUL, printed), Spans(NUL, t))
  {
    hide Broken, Out, Spans, Squeezed, Normal, GapsKept;
    assert t[0..] == t && t[..0] == "" && State(NUL, "") == NUL;
    NormalIsSqueezed(NUL, t);
    PassesAreOut(t);
    NormalSpans(t, 0, |t| >= LINE_LIMIT);
  }

  // ---------------------------------------------------------------- tables whose column name is printed changed

  predicate Letters(s: string) {
    forall i :: 0 <= i < |s| ==> IsAlpha(s[i])
  }

  /** A table with one column, whose name is `x`, some text and `y`. */
  function OneColumn(name: string, text: string): string {
    "CREATE TABLE " + name + "(\"x" + text + "y\")"
  }

  /** Where its parenthesis is. */
  function ParenAt(name: string): nat {
    13 + |name|
  }

  lemma OneColumnAt(name: string, text: string)
    requires Letters(name)
    ensures var s, n, m := OneColumn(name, text), ParenAt(name), ParenAt(name) + 3 + |text|;
            && |s| == m + 3 && s[n] == '(' && s[n + 1] == '"' && s[n + 2] == 'x' && s[n + 3..m] == text
            && s[m] == 'y' && s[m + 1] == '"' && s[m + 2] == ')'
            && (forall i :: 0 <= i < n ==> IsAlpha(s[i]) || s[i] == ' ')
            && "CREATE TABLE " <= s
  {
    var head := "CREATE TABLE ";
    assert forall i :: 0 <= i < |head| ==> IsAlpha(head[i]) || head[i] == ' ';
  }

  lemma NotAView(s: string)
    requires "CREATE TABLE " <= s
    ensures !IsViewOrTrigger(s)
  {
    var u := Upper(s[..11]);
    assert s[7] == "CREATE TABLE "[7] == 'T' && s[8] == "CREATE TABLE "[8] == 'A';
    assert u[7] == 'T' && u[8] == 'A' && "CREATE VIEW"[7] == 'V' && "CREATE TRIG"[8] == 'R';
  }

  lemma {:induction false} BeforeQuotes(s: string, k: nat)
    requires k <= |s| && forall i :: 0 <= i < k ==> IsAlpha(s[i]) || s[i] == ' '
    ensures State(NUL, s[..k]) == NUL && DepthAt(s, k) == 0
  {
    if k > 0 {
      BeforeQuotes(s, k - 1);
      StateSnoc(s, k - 1);
    }
  }

  /** The column name is in quotes, at depth one. */
  lemma InsideName(name: string, text: string)
    requires Letters(name)
    ensures var s, n := OneColumn(name, text), ParenAt(name);
            && State(NUL, s[..n + 1]) == NUL && State(NUL, s[..n + 3]) == State(NUL, s[..n + 2]) == '"'
            && DepthAt(s, n + 3) == 1
  {
    var s, n := OneColumn(name, text), ParenAt(name);
    hide State;
    OneColumnAt(name, text);
    BeforeQuotes(s, n);
    StateSnoc(s, n);
    StateSnoc(s, n + 1);
    StateSnoc(s, n + 2);
    assert DepthAt(s, n + 1) == 1;
    SameDepth(s, n + 1);
    SameDepth(s, n + 2);
  }

  lemma RunEndIs(s: string, i: nat, j: nat)
    requires i <= j < |s| && !IsSpace(s[j]) && forall k :: i <= k < j ==> IsSpace(s[k])
    ensures RunEnd(s, i) == j
  {
    hide RunEnd, IsSpace;
    RunIsSpace(s, i);
  }

  /** Between letters the first of two spaces is printed. */
  lemma TwoSpaces(s: string, k: nat, long: bool)
    requires 0 < k < |s| - 2 && IsAlpha(s[k - 1]) && s[k] == s[k + 1] == ' ' && IsAlpha(s[k + 2])
    ensures s[k..RunEnd(s, k)] == "  " && Gap(s, k, long) == " "
  {
    hide DepthAt;
    RunEndIs(s, k, k + 2);
  }

  /** The first pass: of two spaces in the name of a column one is printed. */
  lemma FirstPassExample(name: string, long: bool)
    requires Letters(name)
    ensures var s, k := OneColumn(name, "  "), ParenAt(name) + 3;
            && !QuotesKept(s)
            && State(NUL, s[..k]) != NUL && s[k..RunEnd(s, k)] == "  " && Gap(s, k, long) == " "
  {
    var s, k := OneColumn(name, "  "), ParenAt(name) + 3;
    OneColumnAt(name, "  ");
    assert s[k] == s[k..k + 2][0] == ' ' && s[k + 1] == s[k..k + 2][1] == ' ';
    hide State, OneColumn, QuotesKept, Closed, Squeezed, DepthAt, Gap, RunEnd, IsViewOrTrigger;
    InsideName(name, "  ");
    NotAView(s);
    QuotesKeptIff(s);
    TwoSpaces(s, k, long);
    TwoSpaces(s, k, |Squeezed(NUL, s)| >= LINE_LIMIT);
    assert !GapsKept(s, 0, |Squeezed(NUL, s)| >= LINE_LIMIT);
  }

  lemma {:induction false} LettersStay(s: string)
    requires Letters(s)
    ensures Strip(s) == s
  {
    if s != "" {
      LettersStay(s[1..]);
      assert s == [s[0]] + s[1..];
    }
  }

  lemma {:induction false} StripIsShorter(s: string)
    ensures |Strip(s)| <= |s|
  {
    if s != "" {
      StripIsShorter(s[1..]);
    }
  }

  /** A long name is enough for the second pass. */
  lemma LongEnough(name: string, text: string)
    requires Letters(name)
    ensures |Squeezed(NUL, OneColumn(name, text))| >= |name|
  {
    hide Strip, Squeezed;
    var head, tail := "CREATE TABLE ", "(\"x" + text + "y\")";
    assert OneColumn(name, text) == head + (name + tail);
    StripAppend(head, name + tail);
    StripAppend(name, tail);
    LettersStay(name);
    SqueezedConserves(NUL, OneColumn(name, text));
    StripIsShorter(Squeezed(NUL, OneColumn(name, text)));
  }

  /** The second pass: a line is broken in the name of a column. */
  lemma SecondPassExample(name: string)
    requires Letters(name) && |name| >= LINE_LIMIT
    ensures var s, k := OneColumn(name, ","), ParenAt(name) + 4;
            && !QuotesKept(s)
            && State(NUL, s[..k]) != NUL && s[k..RunEnd(s, k)] == "" && Gap(s, k, true) == "\n  "
  {
    var s, k := OneColumn(name, ","), ParenAt(name) + 4;
    OneColumnAt(name, ",");
    assert s[k - 1] == s[k - 1..k][0] == ',' && !IsSpace(s[k]);
    hide State, OneColumn, QuotesKept, Closed, Squeezed, DepthAt, RunEnd, IsSpace, Left, IsViewOrTrigger;
    InsideName(name, ",");
    StateSnoc(s, k - 1);
    assert State(NUL, s[..k]) == '"';
    SameDepth(s, k - 1);
    RunEndIs(s, k, k);
    assert s[k..k] == "" && Gap(s, k, true) == "\n  " && "\n  " != "";
    assert !GapsKept(s, 0, true);
    NotAView(s);
    LongEnough(name, ",");
    QuotesKeptIff(s);
  }

  /** No whitespace and no line break between two characters. */
  lemma NothingPrinted(s: string, k: nat, long: bool)
    requires 0 < k < |s| && !IsSpace(s[k]) && s[k] != ')' && s[k - 1] != '(' && s[k - 1] != ','
    ensures GapKept(s, k, long)
  {
    hide DepthAt;
    RunEndIs(s, k, k);
  }

  lemma {:induction false} StaysInQuotes(s: string, i: nat, j: nat)
    requires i <= j <= |s| && State(NUL, s[..i]) == '"' && forall k :: i <= k < j ==> s[k] != '"'
    ensures State(NUL, s[..j]) == '"'
  {
    if i < j {
      StaysInQuotes(s, i, j - 1);
      StateSnoc(s, j - 1);
    }
  }

  /** The characters of the table whose column name has a comma and a line break in it. */
  lemma BrokenNameAt(name: string)
    requires Letters(name)
    ensures var s, n := OneColumn(name, ",\n  "), ParenAt(name);
            && |s| == n + 10 && s[n + 1] == '"' && s[n + 2] == 'x' && s[n + 3] == ',' && s[n + 4] == '\n'
            && s[n + 5] == s[n + 6] == ' ' && s[n + 7] == 'y' && s[n + 8] == '"' && s[n + 9] == ')'
            && s[n + 4..n + 7] == "\n  " && (forall i :: 0 <= i < n ==> IsAlpha(s[i]) || s[i] == ' ')
  {
    var s, n, text := OneColumn(name, ",\n  "), ParenAt(name), ",\n  ";
    OneColumnAt(name, text);
    assert forall i :: 0 <= i < 4 ==> s[n + 3 + i] == s[n + 3..n + 7][i] == text[i];
    assert s[n + 4..n + 7] == text[1..] == "\n  ";
  }

  /** Its only gap in quotes with something in it comes out as it is, although the first pass drops two of its
      spaces. */
  lemma BrokenNameGap(name: string)
    requires Letters(name)
    ensures var s, k := OneColumn(name, ",\n  "), ParenAt(name) + 4;
            GapKept(s, k, true) && !GapsKept(s, 0, false)
  {
    var s, k := OneColumn(name, ",\n  "), ParenAt(name) + 4;
    BrokenNameAt(name);
    hide State, OneColumn;
    InsideName(name, ",\n  ");
    StaysInQuotes(s, k - 2, k);
    RunEndIs(s, k, k + 3);
    assert |Gap(s, k, false)| <= 1 && GapAt(s, k) && |s[k..RunEnd(s, k)]| == 3;
    assert !GapKept(s, k, false);
    assert State(NUL, s[..k]) == '"';
  }

  /** After the name the quotes are closed. */
  lemma BrokenNameStates(name: string)
    requires Letters(name)
    ensures var s, n := OneColumn(name, ",\n  "), ParenAt(name);
            State(NUL, s[..n + 1]) == State(NUL, s[..n + 9]) == State(NUL, s[..n + 10]) == NUL && Closed(s)
  {
    var s, n := OneColumn(name, ",\n  "), ParenAt(name);
    BrokenNameAt(name);
    hide State, OneColumn;
    InsideName(name, ",\n  ");
    StaysInQuotes(s, n + 2, n + 8);
    StateSnoc(s, n + 8);
    StateSnoc(s, n + 9);
    assert s[..n + 10] == s;
  }

  lemma BrokenNameKept(name: string, i: nat)
    requires Letters(name)
    requires var s := OneColumn(name, ",\n  "); GapAt(s, i) && State(NUL, s[..i]) != NUL
    ensures var s := OneColumn(name, ",\n  "); GapKept(s, i, true)
  {
    var s, n := OneColumn(name, ",\n  "), ParenAt(name);
    BrokenNameAt(name);
    hide State, OneColumn, DepthAt, GapKept;
    BrokenNameStates(name);
    if i <= n {
      BeforeQuotes(s, i);
    } else if i == n + 4 {
      BrokenNameGap(name);
    } else if i < n + 9 {
      NothingPrinted(s, i, true);
    }
  }

  /** Both passes may change the same quoted text and leave it as it was in the end. */
  lemma PassesCancel(name: string)
    requires Letters(name) && |name| >= LINE_LIMIT
    ensures var s := OneColumn(name, ",\n  ");
            QuotesKept(s) && !GapsKept(s, 0, false) && !GapsKept(Squeezed(NUL, s), 0, true)
  {
    var s := OneColumn(name, ",\n  ");
    OneColumnAt(name, ",\n  ");
    hide State, OneColumn, Squeezed, Broken, Spans, GapKept, IsViewOrTrigger, IsSpace, Closed, Normal;
    NotAView(s);
    LongEnough(name, ",\n  ");
    BrokenNameStates(name);
    BrokenNameGap(name);
    forall i | 0 <= i && GapAt(s, i) && State(NUL, s[..i]) != NUL
      ensures GapKept(s, i, true)
    {
      BrokenNameKept(name, i);
    }
    QuotesKeptIff(s);
    SqueezedSpans(s);
    SqueezedIsNormal(s);
    SecondPassSpans(Squeezed(NUL, s));
  }
}
