/** What the items of a glob pattern match, stated on the characters of the pattern and of the text alone. */
module GlobClasses {
  import opened CStrings
  import opened Glob

  // ---------------------------------------------------------------- bracket classes

  /** Characters as the signed numbers that they are compared as: those from 128 up are negative. */
  predicate Below(a: char, b: char) {
    if (a < '\U{80}') == (b < '\U{80}') then a <= b else b < '\U{80}'
  }

  /** In the text of a class, the `-` at `i` joins the characters before and after it: it has both, the one before is
      not negative, it is not part of a range itself, and it is not a `]` at the start. */
  predicate Joins(m: string, i: nat)
    requires i < |m|
    decreases i
  {
    && m[i] == '-' && 0 < i < |m| - 1 && NUL < m[i - 1] < '\U{80}'
    && !Joins(m, i - 1) && (i > 1 ==> !Joins(m, i - 2)) && !(i == 1 && m[0] == ']')
  }

  /** The character is listed at position `i`: by itself, or in the range around it. */
  predicate ListedAt(m: string, i: nat, c: char)
    requires i < |m|
  {
    if Joins(m, i) then Below(m[i - 1], c) && Below(c, m[i + 1])
    else m[i] == c && (i > 0 ==> !Joins(m, i - 1))
  }

  ghost predicate ListedFrom(m: string, i: nat, c: char) {
    exists k :: i <= k < |m| && ListedAt(m, k, c)
  }

  /** The text between the brackets: only its first character may be a `]`. */
  predicate IsClassText(m: string) {
    m != "" && forall i :: 1 <= i < |m| ==> m[i] != ']'
  }

  /** The character before `i` that a range can start with, NUL if there is none. */
  function PriorAt(m: string, i: nat): char
    requires i <= |m|
  {
    if i == 0 || (i > 1 && Joins(m, i - 2)) || (i == 1 && m[0] == ']') then NUL else m[i - 1]
  }

  lemma ListedStep(m: string, i: nat, c: char)
    requires i < |m|
    ensures ListedFrom(m, i, c) <==> ListedAt(m, i, c) || ListedFrom(m, i + 1, c)
  {
    hide ListedAt;
  }

  lemma BelowIsSigned(a: char, b: char)
    requires a as int < 256 && b as int < 256
    ensures Below(a, b) <==> Signed(a) <= Signed(b)
  {
  }

  /** The members that are read from position `i` of the class text on. */
  lemma {:induction false} MembersAreListed(p: string, start: nat, m: string, i: nat, c: char)
    requires IsText(p) && 0 < c as int < 256 && IsClassText(m)
    requires start + |m| < |p| && p[start..start + |m|] == m && p[start + |m|] == ']'
    requires i <= |m| && (i > 0 ==> !Joins(m, i - 1)) && (i == 0 ==> m[0] != ']')
    ensures var r := Members(p, start + i, PriorAt(m, i));
            && r.Closed? && r.next == start + |m| + 1
            && (InClass(c, r.members) <==> ListedFrom(m, i, c))
    decreases |m| - i
  {
    if i < |m| {
      assert forall k :: 0 <= k < |m| ==> p[start + k] == p[start..start + |m|][k] == m[k];
      hide InClass, ListedFrom, IsText;
      ListedStep(m, i, c);
      if Joins(m, i) {
        ListedStep(m, i + 1, c);
        MembersAreListed(p, start, m, i + 2, c);
        InsertMember(c, Range(m[i - 1], m[i + 1]), Members(p, start + i + 2, NUL).members);
        InRange(p, start + i, c);
      } else {
        MembersAreListed(p, start, m, i + 1, c);
        InsertMember(c, Single(m[i]), Members(p, start + i + 1, m[i]).members);
      }
    }
  }

  lemma InRange(p: string, k: nat, c: char)
    requires IsText(p) && 0 < k < |p| - 1 && c as int < 256
    ensures InMember(c, Range(p[k - 1], p[k + 1])) <==> Below(p[k - 1], c) && Below(c, p[k + 1])
  {
    BelowIsSigned(p[k - 1], c);
    BelowIsSigned(c, p[k + 1]);
  }

  /** A class in a pattern, from its `[` at `g` to its `]`. */
  ghost predicate ClassAt(p: string, g: nat, invert: bool, m: string) {
    && g + 1 < |p| && p[g] == '[' && (p[g + 1] == '^' <==> invert) && IsClassText(m)
    && var start := g + if invert then 2 else 1;
       start + |m| < |p| && p[start..start + |m|] == m && p[start + |m|] == ']'
  }

  lemma ClassIsListed(p: string, g: nat, invert: bool, m: string, c: char)
    requires IsText(p) && 0 < c as int < 256 && ClassAt(p, g, invert, m)
    ensures var start, cl := g + if invert then 2 else 1, ClassMembers(p, g + 1);
            && ClassStart(p, g + 1) == start
            && cl.Closed? && cl.next == start + |m| + 1
            && (InClass(c, cl.members) <==> ListedFrom(m, 0, c))
  {
    var start := g + if invert then 2 else 1;
    assert p[start] == p[start..start + |m|][0] == m[0];
    hide InClass, ListedFrom, Members, IsText;
    if m[0] == ']' {
      ListedStep(m, 0, c);
      MembersAreListed(p, start, m, 1, c);
      InsertMember(c, Single(']'), Members(p, start + 1, NUL).members);
    } else {
      MembersAreListed(p, start, m, 0, c);
    }
  }

  /** A class matches one character, if and only if the character is listed in it - or is not, after `^` - and the
      rest of the pattern matches the rest of the text. */
  lemma ClassMatches(p: string, g: nat, invert: bool, m: string, t: string)
    requires IsText(p) && IsText(t) && ClassAt(p, g, invert, m)
    ensures var next := g + (if invert then 3 else 2) + |m|;
            Matches(Parse(p, g), t) <==>
            t != "" && ListedFrom(m, 0, t[0]) != invert && Matches(Parse(p, next), t[1..])
  {
    hide ClassMembers, InClass, ListedFrom, Matches, IsClassText;
    var (item, next) := ItemAt(p, g);
    MatchesItem(item, Parse(p, next), t);
    if t != "" {
      ClassIsListed(p, g, invert, m, t[0]);
    } else {
      ClassIsListed(p, g, invert, m, ' ');
    }
  }

  /** Without a `]` after its first character a class matches nothing. */
  lemma UnclosedMatchesNothing(p: string, g: nat, t: string)
    requires g < |p| && p[g] == '[' && forall k :: g + 1 < k < |p| && !(k == g + 2 && p[g + 1] == '^') ==> p[k] != ']'
    ensures !Matches(Parse(p, g), t)
  {
    hide Matches;
    var j := ClassStart(p, g + 1);
    NeverClosed(p, if j < |p| && p[j] == ']' then j + 1 else j, NUL);
    MatchesItem(Unclosed, Parse(p, |p|), t);
  }

  lemma {:induction false} NeverClosed(p: string, i: nat, prior: char)
    requires i <= |p| && forall k :: i <= k < |p| ==> p[k] != ']'
    ensures Members(p, i, prior) == Open
    decreases |p| - i
  {
    if i < |p| {
      NeverClosed(p, i + 1, p[i]);
      if i + 1 < |p| {
        NeverClosed(p, i + 2, NUL);
      }
    }
  }

  predicate IsAscii(c: char) {
    NUL < c < '\U{80}'
  }

  /** A single range. Its first character is listed as well when the range is empty. */
  lemma RangeMatches(lo: char, hi: char, c: char)
    requires IsAscii(lo) && IsAscii(hi) && 0 < c as int < 256
    requires lo != ']' && lo != '^' && lo != '-' && hi != ']' && hi != '^' && hi != '-'
    ensures Matches(Parse(['[', lo, '-', hi, ']'], 0), [c]) <==> lo <= c <= hi || c == lo
    ensures Matches(Parse(['[', '^', lo, '-', hi, ']'], 0), [c]) <==> !(lo <= c <= hi || c == lo)
  {
    var m := [lo, '-', hi];
    assert ['[', lo, '-', hi, ']'][1..4] == m && ['[', '^', lo, '-', hi, ']'][2..5] == m;
    hide Matches, Parse;
    RangeIsListed(lo, hi, c);
    EndMatches(['[', lo, '-', hi, ']'], "");
    EndMatches(['[', '^', lo, '-', hi, ']'], "");
    ClassMatches(['[', lo, '-', hi, ']'], 0, false, m, [c]);
    ClassMatches(['[', '^', lo, '-', hi, ']'], 0, true, m, [c]);
    assert [c][1..] == "";
  }

  lemma RangeIsListed(lo: char, hi: char, c: char)
    requires IsAscii(lo) && IsAscii(hi) && lo != ']' && lo != '-' && hi != '-'
    ensures ListedFrom([lo, '-', hi], 0, c) <==> lo <= c <= hi || c == lo
  {
    var m := [lo, '-', hi];
    assert !Joins(m, 0) && Joins(m, 1) && !Joins(m, 2);
    assert ListedAt(m, 0, c) <==> c == lo;
    assert ListedAt(m, 1, c) <==> Below(lo, c) && Below(c, hi);
    assert !ListedAt(m, 2, c);
    hide ListedAt;
    ListedStep(m, 0, c);
    ListedStep(m, 1, c);
    ListedStep(m, 2, c);
  }

  // ---------------------------------------------------------------- the other items

  predicate IsWhite(c: char) {
    c == ' ' || c == '\t' || c == '\n' || c == '\U{0b}' || c == '\U{0c}' || c == '\r'
  }

  predicate White(t: string) {
    forall i :: 0 <= i < |t| ==> IsWhite(t[i])
  }

  lemma {:induction false} WhiteIsRun(t: string)
    ensures White(t) <==> SpaceRun(t) == |t|
  {
    if t != "" {
      WhiteIsRun(t[1..]);
      assert White(t) <==> IsWhite(t[0]) && White(t[1..]);
    }
  }

  /** At its end a pattern ignores whitespace. */
  lemma EndMatches(p: string, t: string)
    ensures Matches(Parse(p, |p|), t) <==> White(t)
  {
    WhiteIsRun(t);
  }

  predicate IsDecimal(c: char) {
    '0' <= c <= '9'
  }

  /** Digits, perhaps with a sign in front. */
  predicate IsSignedNumber(u: string) {
    var sign := if u != "" && (u[0] == '+' || u[0] == '-') then 1 else 0;
    sign < |u| && forall i :: sign <= i < |u| ==> IsDecimal(u[i])
  }

  predicate IsSpecial(c: char) {
    IsWhite(c) || c == '*' || c == '?' || c == '[' || c == '#'
  }

  /** A character that is not special matches itself. */
  lemma LiteralMatches(p: string, g: nat, t: string)
    requires g < |p| && !IsSpecial(p[g])
    ensures Matches(Parse(p, g), t) <==> t != "" && t[0] == p[g] && Matches(Parse(p, g + 1), t[1..])
  {
    MatchesItem(Lit(p[g]), Parse(p, g + 1), t);
    hide Matches, Parse;
  }

  /** `?` matches any one character. */
  lemma AnyMatches(p: string, g: nat, t: string)
    requires g < |p| && p[g] == '?'
    ensures Matches(Parse(p, g), t) <==> t != "" && Matches(Parse(p, g + 1), t[1..])
  {
    hide Matches;
    MatchesItem(AnyChar, Parse(p, g + 1), t);
  }

  /** The part of a text that a number or a span takes: it ends where the next character would not go on with it. */
  predicate TakenNumber(t: string, n: nat) {
    n <= |t| && IsSignedNumber(t[..n]) && (n < |t| ==> !IsDecimal(t[n]))
  }

  predicate TakenSpan(t: string, n: nat) {
    0 < n <= |t| && White(t[..n]) && (n < |t| ==> !IsWhite(t[n]))
  }

  lemma {:induction false} DigitRunIs(t: string, n: nat)
    requires n <= |t|
    ensures DigitRun(t) == n <==> (forall i :: 0 <= i < n ==> IsDecimal(t[i])) && (n < |t| ==> !IsDecimal(t[n]))
  {
    if t != "" && n > 0 {
      DigitRunIs(t[1..], n - 1);
    }
  }

  lemma {:induction false} SpaceRunIs(t: string, n: nat)
    requires n <= |t|
    ensures SpaceRun(t) == n <==> White(t[..n]) && (n < |t| ==> !IsWhite(t[n]))
  {
    if t != "" && n > 0 {
      SpaceRunIs(t[1..], n - 1);
      var u := t[..n];
      assert u[1..] == t[1..][..n - 1];
      assert White(u) <==> IsWhite(u[0]) && White(u[1..]);
    }
  }

  lemma NumberRunIs(t: string, n: nat)
    requires 0 < n <= |t|
    ensures NumberRun(t) == n <==> TakenNumber(t, n)
  {
    var u := t[..n];
    assert forall i :: 0 <= i < n ==> u[i] == t[i];
    if t[0] == '+' || t[0] == '-' {
      var d := t[1..];
      assert forall i :: 0 <= i < |d| ==> d[i] == t[i + 1];
      assert forall i :: 1 <= i < n ==> u[i] == d[i - 1];
      DigitRunIs(d, n - 1);
      assert DigitRun(t) == 0;
    } else {
      DigitRunIs(t, n);
    }
  }

  /** `#` matches the longest number at the start of the text. */
  lemma NumberMatches(p: string, g: nat, t: string)
    requires g < |p| && p[g] == '#'
    ensures Matches(Parse(p, g), t) <==> exists n: nat :: TakenNumber(t, n) && Matches(Parse(p, g + 1), t[n..])
  {
    hide Matches, TakenNumber, NumberRun;
    MatchesItem(Number, Parse(p, g + 1), t);
    var n := NumberRun(t);
    if n > 0 {
      NumberRunIs(t, n);
    }
    forall k: nat | TakenNumber(t, k)
      ensures 0 < k <= |t| && k == n
    {
      TakenIsSome(t, k);
      NumberRunIs(t, k);
    }
  }

  lemma TakenIsSome(t: string, n: nat)
    requires TakenNumber(t, n)
    ensures 0 < n <= |t|
  {
  }

  /** Whitespace matches the longest whitespace at the start of the text. */
  lemma SpanMatches(p: string, g: nat, h: nat, t: string)
    requires g < h <= |p| && TakenSpan(p[g..], h - g)
    ensures Matches(Parse(p, g), t) <==> exists n: nat :: TakenSpan(t, n) && Matches(Parse(p, h), t[n..])
  {
    SpaceRunIs(p[g + 1..], h - g - 1);
    assert p[g..][..h - g][0] == p[g] && p[g..][..h - g][1..] == p[g + 1..][..h - g - 1];
    assert ItemAt(p, g) == (Span, h);
    hide Matches, ItemAt, SpaceRun;
    MatchesItem(Span, Parse(p, h), t);
    var n := SpaceRun(t);
    SpaceRunIs(t, n);
    forall k: nat | TakenSpan(t, k)
      ensures k == n
    {
      SpaceRunIs(t, k);
    }
  }

  /** A star at the end of the pattern matches any text. */
  lemma LastStarMatches(p: string, g: nat, t: string)
    requires g + 1 == |p| && p[g] == '*'
    ensures Matches(Parse(p, g), t)
  {
    StarEnd(t);
  }

  lemma LiteralAfterStar(p: string, g: nat, t: string, k: nat)
    requires g < |p| && p[g] != '*' && p[g] != '?' && p[g] != '[' && k <= |t|
    ensures Matches(AfterStar(p, g), t[k..]) <==> k < |t| && t[k] == p[g] && Matches(Parse(p, g + 1), t[k + 1..])
  {
    MatchesItem(Lit(p[g]), Parse(p, g + 1), t[k..]);
    hide Matches, Parse;
    assert k < |t| ==> t[k..][1..] == t[k + 1..];
  }

  /** A star before a class skips any text, and before any other character that is no star and no question mark any text
      up to that character. */
  lemma StarMatches(p: string, g: nat, t: string)
    requires g + 1 < |p| && p[g] == '*' && p[g + 1] != '*' && p[g + 1] != '?'
    ensures p[g + 1] == '[' ==>
              (Matches(Parse(p, g), t) <==> exists k :: 0 <= k <= |t| && Matches(Parse(p, g + 1), t[k..]))
    ensures p[g + 1] != '[' ==>
              (Matches(Parse(p, g), t) <==>
               exists k :: 0 <= k < |t| && t[k] == p[g + 1] && Matches(Parse(p, g + 2), t[k + 1..]))
  {
    hide Matches, ItemAt;
    StarSplits(AfterStar(p, g + 1), t);
    if p[g + 1] != '[' {
      if Matches(Parse(p, g), t) {
        var k :| 0 <= k <= |t| && Matches(AfterStar(p, g + 1), t[k..]);
        LiteralAfterStar(p, g + 1, t, k);
      } else if k :| 0 <= k < |t| && t[k] == p[g + 1] && Matches(Parse(p, g + 2), t[k + 1..]) {
        LiteralAfterStar(p, g + 1, t, k);
      }
    }
  }

  /** In a star run a further star changes nothing, and a question mark takes one character. */
  lemma StarRunMatches(p: string, g: nat, t: string)
    requires g + 1 < |p| && p[g] == '*' && (p[g + 1] == '*' || p[g + 1] == '?')
    ensures p[g + 1] == '*' ==> (Matches(Parse(p, g), t) <==> Matches(Parse(p, g + 1), t))
    ensures p[g + 1] == '?' ==>
              (Matches(Parse(p, g), t) <==> t != "" && Matches(Then(Star, AfterStar(p, g + 2)), t[1..]))
  {
    hide Matches;
    StarStar(AfterStar(p, g + 2), t);
    StarAny(AfterStar(p, g + 2), t);
  }
}
