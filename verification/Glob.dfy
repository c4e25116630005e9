/** The glob matcher of the shell's test cases: `testcase_glob`, proved against a declarative meaning of patterns. */
module Glob {
  import opened CStrings

  /** A `char` compared as the signed number the compiler takes it for. */
  function Signed(c: char): int {
    if c as int < 128 then c as int else c as int - 256
  }

  datatype Member = Single(c: char) | Range(lo: char, hi: char)

  datatype Item =
    | Span                                      // whitespace: any other whitespace
    | Star                                      // any text
    | AnyChar                                   // any one character
    | Class(invert: bool, members: set<Member>) // one character in (or, inverted, not in) the members
    | Unclosed                                  // a class without ']': matches nothing
    | Number                                    // digits with an optional sign
    | Lit(c: char)

  datatype Pattern = End | Then(item: Item, rest: Pattern)

  // ---------------------------------------------------------------- meaning

  predicate InMember(c: char, m: Member) {
    match m
    case Single(d) => c == d
    case Range(lo, hi) => Signed(lo) <= Signed(c) <= Signed(hi)
  }

  ghost predicate InClass(c: char, members: set<Member>) {
    exists m :: m in members && InMember(c, m)
  }

  /** The length of the longest number at the start, 0 if there is none. */
  function NumberRun(t: string): (n: nat)
    ensures n <= |t|
  {
    if t != "" && (t[0] == '-' || t[0] == '+') && DigitRun(t[1..]) > 0 then 1 + DigitRun(t[1..]) else DigitRun(t)
  }

  /** How much of the text an item other than a star takes; -1 if it does not match there. */
  ghost function Takes(item: Item, t: string): (n: int)
    ensures -1 <= n <= |t|
  {
    match item
    case Span => if SpaceRun(t) > 0 then SpaceRun(t) else -1
    case Star => -1
    case AnyChar => if t != "" then 1 else -1
    case Class(invert, members) => if t != "" && InClass(t[0], members) != invert then 1 else -1
    case Unclosed => -1
    case Number => if NumberRun(t) > 0 then NumberRun(t) else -1
    case Lit(c) => if t != "" && t[0] == c then 1 else -1
  }

  /** The whole text matches the pattern; whitespace at its end is ignored. */
  ghost predicate Matches(pat: Pattern, t: string)
    decreases pat
  {
    match pat
    case End => SpaceRun(t) == |t|
    case Then(item, rest) =>
      if item == Star then exists k :: 0 <= k <= |t| && Matches(rest, t[k..])
      else Takes(item, t) >= 0 && Matches(rest, t[Takes(item, t)..])
  }

  // ---------------------------------------------------------------- reading patterns

  datatype ClassText = Open | Closed(members: set<Member>, next: nat)

  /** The members from position `i` to the closing `]`. A `-` between two members makes a range, except after a range or
      at the start (`prior` is then NUL) and except before the closing bracket. */
  function Members(p: string, i: nat, prior: char): (r: ClassText)
    requires i <= |p|
    ensures r.Closed? ==> i < r.next <= |p|
    decreases |p| - i
  {
    if i == |p| then Open
    else if p[i] == ']' then Closed({}, i + 1)
    else
      var range := p[i] == '-' && i + 1 < |p| && p[i + 1] != ']' && Signed(prior) > 0;
      var r := if range then Members(p, i + 2, NUL) else Members(p, i + 1, p[i]);
      if r.Open? then Open
      else Closed({if range then Range(prior, p[i + 1]) else Single(p[i])} + r.members, r.next)
  }

  /** Where the members start, after `[` or `[^`; a `]` there is a member itself. */
  function ClassStart(p: string, i: nat): (j: nat)
    requires i <= |p|
    ensures i <= j <= |p|
  {
    if i < |p| && p[i] == '^' then i + 1 else i
  }

  function ClassMembers(p: string, i: nat): (r: ClassText)
    requires i <= |p|
    ensures r.Closed? ==> i < r.next <= |p|
  {
    var j := ClassStart(p, i);
    if j < |p| && p[j] == ']' then
      var r := Members(p, j + 1, NUL);
      if r.Open? then Open else r.(members := {Single(']')} + r.members)
    else Members(p, j, NUL)
  }

  /** The item at position `i`, and where the next one starts. */
  function ItemAt(p: string, i: nat): (r: (Item, nat))
    requires i < |p|
    ensures i < r.1 <= |p|
  {
    var c := p[i];
    if IsSpace(c) then (Span, i + 1 + SpaceRun(p[i + 1..]))
    else if c == '*' then (Star, i + 1)
    else if c == '?' then (AnyChar, i + 1)
    else if c == '[' then
      var cl := ClassMembers(p, i + 1);
      if cl.Open? then (Unclosed, |p|) else (Class(ClassStart(p, i + 1) != i + 1, cl.members), cl.next)
    else if c == '#' then (Number, i + 1)
    else (Lit(c), i + 1)
  }

  /** The items of a pattern as its documentation reads it. */
  function Documented(p: string, i: nat): Pattern
    requires i <= |p|
    decreases |p| - i
  {
    if i == |p| then End else Then(ItemAt(p, i).0, Documented(p, ItemAt(p, i).1))
  }

  /** The pattern as the matcher reads it: after a star run, anything but a class is a literal. */
  function Parse(p: string, i: nat): Pattern
    requires i <= |p|
    decreases |p| - i, 0
  {
    if i == |p| then End
    else if p[i] == '*' then Then(Star, AfterStar(p, i + 1))
    else Then(ItemAt(p, i).0, Parse(p, ItemAt(p, i).1))
  }

  function AfterStar(p: string, i: nat): Pattern
    requires i <= |p|
    decreases |p| - i, 1
  {
    if i == |p| then End
    else if p[i] == '*' then Then(Star, AfterStar(p, i + 1))
    else if p[i] == '?' then Then(AnyChar, AfterStar(p, i + 1))
    else if p[i] == '[' then Parse(p, i)
    else Then(Lit(p[i]), Parse(p, i + 1))
  }

  /** No star run is directly followed by whitespace or `#`. */
  predicate PlainAfterStars(p: string, i: nat, inRun: bool)
    requires i <= |p|
    decreases |p| - i
  {
    i == |p| ||
    (!(inRun && (IsSpace(p[i]) || p[i] == '#')) &&
     PlainAfterStars(p, ItemAt(p, i).1, p[i] == '*' || (inRun && p[i] == '?')))
  }

  /** The matcher reads the documented items if and only if no star run is directly followed by whitespace or `#`. */
  lemma {:induction false} DocumentedIffPlain(p: string, i: nat, inRun: bool)
    requires i <= |p|
    ensures (if inRun then AfterStar(p, i) else Parse(p, i)) == Documented(p, i) <==> PlainAfterStars(p, i, inRun)
    decreases |p| - i, inRun
  {
    if i < |p| {
      hide ClassMembers;
      if p[i] == '*' || (inRun && p[i] == '?') {
        DocumentedIffPlain(p, i + 1, true);
      } else {
        DocumentedIffPlain(p, ItemAt(p, i).1, false);
      }
    }
  }

  // ---------------------------------------------------------------- one item of a pattern

  lemma StarSplits(rest: Pattern, t: string)
    ensures Matches(Then(Star, rest), t) <==> exists k :: 0 <= k <= |t| && Matches(rest, t[k..])
  {
  }

  lemma AnyCharTakes(rest: Pattern, t: string)
    ensures Matches(Then(AnyChar, rest), t) <==> t != "" && Matches(rest, t[1..])
  {
  }

  lemma MatchesItem(item: Item, rest: Pattern, t: string)
    requires item != Star
    ensures Matches(Then(item, rest), t) == (Takes(item, t) >= 0 && Matches(rest, t[Takes(item, t)..]))
  {
  }

  // ---------------------------------------------------------------- the documented meaning

  predicate IsDigits(u: string) {
    u != "" && DigitRun(u) == |u|
  }

  /** The texts that the documentation lets an item match. A number and a span of whitespace may be any, not only the
      longest one. */
  ghost predicate Admits(item: Item, u: string) {
    match item
    case Span => u != "" && SpaceRun(u) == |u|
    case Star => true
    case AnyChar => |u| == 1
    case Class(invert, members) => |u| == 1 && InClass(u[0], members) != invert
    case Unclosed => false
    case Number => IsDigits(u) || (u != "" && (u[0] == '-' || u[0] == '+') && IsDigits(u[1..]))
    case Lit(c) => u == [c]
  }

  /** The documented meaning: some way to divide the text among the items. Whitespace at its end is ignored. */
  ghost predicate DocMatches(pat: Pattern, t: string)
    decreases pat
  {
    match pat
    case End => SpaceRun(t) == |t|
    case Then(item, rest) => exists n :: 0 <= n <= |t| && Admits(item, t[..n]) && DocMatches(rest, t[n..])
  }

  /** A text that a C string can hold. */
  ghost predicate IsText(z: string) {
    forall i :: 0 <= i < |z| ==> 0 < z[i] as int < 256
  }

  /** What the longest match of an item goes on with. */
  predicate Continues(item: Item, c: char) {
    (item == Number && IsDigit(c)) || (item == Span && IsSpace(c))
  }

  function SkipStars(pat: Pattern): Pattern {
    if pat.Then? && pat.item == Star then SkipStars(pat.rest) else pat
  }

  /** The item after the stars can start with a character that the longest match before it takes away. */
  ghost predicate TakenFrom(item: Item, next: Pattern) {
    next.Then? && exists c :: Continues(item, c) && Admits(next.item, [c])
  }

  /** A number or a span of whitespace is followed, stars aside, by an item that can start with a digit, or with
      whitespace. */
  ghost predicate Clashes(item: Item, rest: Pattern) {
    TakenFrom(item, SkipStars(rest))
  }

  ghost predicate NoClash(pat: Pattern) {
    pat.Then? ==> !Clashes(pat.item, pat.rest) && NoClash(pat.rest)
  }

  /** The item matches something. */
  ghost predicate Alive(item: Item) {
    item == Star || exists c :: 0 < c as int < 256 && Admits(item, [c])
  }

  /** No item is a class without `]`, or one that no character is in. */
  ghost predicate Live(pat: Pattern) {
    pat.Then? ==> Alive(pat.item) && Live(pat.rest)
  }

  // ------------------------------------------------ where longest first is right

  lemma {:induction false} RunPrefix(t: string, n: nat)
    requires n <= |t|
    ensures SpaceRun(t[..n]) == n <==> n <= SpaceRun(t)
    ensures DigitRun(t[..n]) == n <==> n <= DigitRun(t)
    ensures forall j :: 0 <= j < SpaceRun(t) ==> IsSpace(t[j])
    ensures forall j :: 0 <= j < DigitRun(t) ==> IsDigit(t[j])
  {
    if t != "" {
      if n > 0 {
        assert t[..n][1..] == t[1..][..n - 1];
        RunPrefix(t[1..], n - 1);
      } else {
        RunPrefix(t[1..], 0);
      }
      assert forall j :: 1 <= j < |t| ==> t[j] == t[1..][j - 1];
    }
  }

  /** A number at the start of a text: a prefix of the longest one. */
  lemma NumberPrefix(t: string, n: nat)
    requires n <= |t|
    ensures Admits(Number, t[..n]) ==> n <= NumberRun(t) && forall j :: n <= j < NumberRun(t) ==> IsDigit(t[j])
    ensures n == NumberRun(t) > 0 ==> Admits(Number, t[..n])
  {
    assert forall u :: u != "" && (u[0] == '-' || u[0] == '+') ==> DigitRun(u) == 0;
    hide DigitRun;
    RunPrefix(t, n);
    if n > 0 {
      assert t[..n][1..] == t[1..][..n - 1];
      RunPrefix(t[1..], n - 1);
      assert forall j :: 1 <= j < |t| ==> t[j] == t[1..][j - 1];
    }
  }

  /** What the matcher lets an item take is the longest of the texts that the documentation admits there. */
  lemma TakesLongest(item: Item, t: string, n: nat)
    requires item != Star && n <= |t|
    ensures Admits(item, t[..n]) ==>
              0 < n <= Takes(item, t) && forall j :: n <= j < Takes(item, t) ==> Continues(item, t[j])
    ensures n == Takes(item, t) ==> n > 0 && Admits(item, t[..n])
  {
    hide SpaceRun, NumberRun, DigitRun, InClass;
    if item == Span {
      RunPrefix(t, n);
    } else if item == Number {
      NumberPrefix(t, n);
    } else if n == 1 {
      assert t[..n] == [t[0]];
    }
  }

  /** The matcher accepts nothing that the documented meaning of the items it reads does not accept. */
  lemma {:induction false} MatchesIsDocumented(pat: Pattern, t: string)
    requires Matches(pat, t)
    ensures DocMatches(pat, t)
    decreases pat
  {
    if pat.Then? {
      if pat.item == Star {
        var k :| 0 <= k <= |t| && Matches(pat.rest, t[k..]);
        MatchesIsDocumented(pat.rest, t[k..]);
        assert Admits(pat.item, t[..k]);
      } else {
        var n := Takes(pat.item, t);
        TakesLongest(pat.item, t, n);
        MatchesIsDocumented(pat.rest, t[n..]);
        assert Admits(pat.item, t[..n]);
      }
    }
  }

  /** The first character of a text that an item takes could be all of it, or starts a number or a span. */
  lemma AdmitsFirst(item: Item, u: string, prior: Item)
    requires item != Star && Admits(item, u) && u != "" && Continues(prior, u[0])
    ensures Admits(item, [u[0]])
  {
    hide InClass;
    assert [u[0]][1..] == "";
    if |u| == 1 {
      assert u == [u[0]];
    }
  }

  lemma StartsClash(prior: Item, rest: Pattern, u: string)
    requires rest.Then? && rest.item != Star && Admits(rest.item, u) && u != "" && Continues(prior, u[0])
    ensures Clashes(prior, rest)
  {
    hide Admits;
    AdmitsFirst(rest.item, u, prior);
  }

  /** When the next item cannot start with it, the longest match may have the first character too. */
  lemma {:induction false} GiveFirst(prior: Item, rest: Pattern, t: string)
    requires t != "" && Continues(prior, t[0]) && !Clashes(prior, rest)
    requires DocMatches(rest, t)
    ensures DocMatches(rest, t[1..])
    decreases rest
  {
    assert forall u :: Admits(Star, u);
    hide Admits;
    if rest == End {
    } else {
      var n :| 0 <= n <= |t| && Admits(rest.item, t[..n]) && DocMatches(rest.rest, t[n..]);
      if rest.item != Star {
        TakesLongest(rest.item, t, n);
        StartsClash(prior, rest, t[..n]);
      } else if n == 0 {
        assert t[0..] == t;
        GiveFirst(prior, rest.rest, t);
        assert t[1..][0..] == t[1..] && Admits(Star, t[1..][..0]);
      } else {
        assert t[1..][n - 1..] == t[n..] && Admits(Star, t[1..][..n - 1]);
      }
    }
  }

  lemma {:induction false} GiveAll(prior: Item, rest: Pattern, t: string, n: nat)
    requires n <= |t| && (forall j :: 0 <= j < n ==> Continues(prior, t[j])) && !Clashes(prior, rest)
    requires DocMatches(rest, t)
    ensures DocMatches(rest, t[n..])
  {
    if n == 0 {
      assert t[0..] == t;
    } else {
      GiveFirst(prior, rest, t);
      GiveAll(prior, rest, t[1..], n - 1);
      assert t[1..][n - 1..] == t[n..];
    }
  }

  /** The rest matches after the longest text of an item, if it matches after a shorter one. */
  lemma LongestLeaves(item: Item, rest: Pattern, t: string, n: nat)
    requires item != Star && n <= |t| && Admits(item, t[..n]) && DocMatches(rest, t[n..]) && !Clashes(item, rest)
    ensures n <= Takes(item, t) && DocMatches(rest, t[Takes(item, t)..])
  {
    hide Admits, Takes, Clashes, DocMatches, Continues;
    var m := Takes(item, t);
    TakesLongest(item, t, n);
    assert forall j :: 0 <= j < m - n ==> t[n..][j] == t[n + j];
    GiveAll(item, rest, t[n..], m - n);
    assert t[n..][m - n..] == t[m..];
  }

  /** Without a clash, taking the longest number or span first loses no match. */
  lemma {:induction false} DocumentedIsMatched(pat: Pattern, t: string)
    requires NoClash(pat) && DocMatches(pat, t)
    ensures Matches(pat, t)
    decreases pat
  {
    if pat.Then? {
      hide Admits, Takes, Clashes;
      var n :| 0 <= n <= |t| && Admits(pat.item, t[..n]) && DocMatches(pat.rest, t[n..]);
      if pat.item == Star {
        DocumentedIsMatched(pat.rest, t[n..]);
      } else {
        LongestLeaves(pat.item, pat.rest, t, n);
        DocumentedIsMatched(pat.rest, t[Takes(pat.item, t)..]);
      }
    }
  }

  // ------------------------------------------------ where it is not

  /** How many characters a match needs: one for every item that is not a star. */
  function Length(pat: Pattern): nat {
    if pat == End then 0 else (if pat.item == Star then 0 else 1) + Length(pat.rest)
  }

  /** The text has just one character for every item that needs one. */
  ghost predicate Fits(pat: Pattern, z: string)
    decreases pat
  {
    if pat == End then z == ""
    else if pat.item == Star then Fits(pat.rest, z)
    else z != "" && Admits(pat.item, [z[0]]) && Fits(pat.rest, z[1..])
  }

  /** And the matcher lets every item take just that character. */
  ghost predicate FitsLongest(pat: Pattern, z: string)
    decreases pat
  {
    if pat == End then z == ""
    else if pat.item == Star then FitsLongest(pat.rest, z)
    else Takes(pat.item, z) == 1 && FitsLongest(pat.rest, z[1..])
  }

  lemma {:induction false} FitIsDocumented(pat: Pattern, z: string)
    requires Fits(pat, z)
    ensures DocMatches(pat, z) && |z| == Length(pat)
    decreases pat
  {
    if pat.Then? {
      assert forall u :: Admits(Star, u);
      hide Admits;
      if pat.item == Star {
        FitIsDocumented(pat.rest, z);
        assert z[0..] == z && Admits(Star, z[..0]);
      } else {
        FitIsDocumented(pat.rest, z[1..]);
        assert z[..1] == [z[0]];
      }
    }
  }

  /** A text that is no longer than a match needs is divided in the only possible way. */
  lemma {:induction false} ShortMatch(pat: Pattern, z: string)
    requires Matches(pat, z)
    ensures |z| >= Length(pat)
    ensures |z| == Length(pat) ==> FitsLongest(pat, z)
    decreases pat
  {
    if pat == End {
    } else if pat.item == Star {
      var k :| 0 <= k <= |z| && Matches(pat.rest, z[k..]);
      ShortMatch(pat.rest, z[k..]);
      if |z| == Length(pat) {
        assert k == 0 && z[0..] == z;
      }
    } else {
      hide Takes;
      var n := Takes(pat.item, z);
      TakesLongest(pat.item, z, n);
      ShortMatch(pat.rest, z[n..]);
    }
  }

  /** A text for every item, and one for a following item that a given character starts. */
  lemma {:induction false} SomeFit(pat: Pattern) returns (z: string)
    requires Live(pat)
    ensures Fits(pat, z) && IsText(z)
  {
    hide Admits;
    if pat == End {
      z := "";
    } else {
      z := SomeFit(pat.rest);
      if pat.item != Star {
        var c :| 0 < c as int < 256 && Admits(pat.item, [c]);
        var w := z;
        z := [c] + w;
        assert z[1..] == w;
      }
    }
  }

  lemma {:induction false} FitFrom(pat: Pattern, c: char) returns (z: string)
    requires Live(pat) && SkipStars(pat).Then? && Admits(SkipStars(pat).item, [c]) && 0 < c as int < 256
    ensures Fits(pat, z) && IsText(z) && z != "" && z[0] == c
  {
    hide Admits;
    if pat.item == Star {
      z := FitFrom(pat.rest, c);
    } else {
      var w := SomeFit(pat.rest);
      z := [c] + w;
      assert z[1..] == w;
    }
  }

  /** The longest match takes both characters. */
  lemma TakesTwo(item: Item, z: string, c: char)
    requires |z| >= 2 && Continues(item, z[1]) && z[0] == c
    requires (item == Number ==> c == '1') && (item == Span ==> c == ' ')
    ensures Admits(item, [c]) && Takes(item, z) != 1
  {
    assert [c][1..] == "";
    assert z[1..][0] == z[1];
  }

  lemma {:induction false} ClashText(pat: Pattern) returns (z: string)
    requires Live(pat) && !NoClash(pat)
    ensures Fits(pat, z) && !FitsLongest(pat, z) && IsText(z)
  {
    hide Admits, Takes;
    if Clashes(pat.item, pat.rest) {
      var c :| Continues(pat.item, c) && Admits(SkipStars(pat.rest).item, [c]);
      var w := FitFrom(pat.rest, c);
      var first := if pat.item == Number then '1' else ' ';
      z := [first] + w;
      assert z[1..] == w;
      TakesTwo(pat.item, z, first);
    } else {
      var w := ClashText(pat.rest);
      z := w;
      if pat.item != Star {
        var c :| 0 < c as int < 256 && Admits(pat.item, [c]);
        z := [c] + w;
        assert z[1..] == w;
      }
    }
  }

  // ------------------------------------------------ after a star run

  /** The items as the matcher reads them. */
  function Read(p: string, i: nat, inRun: bool): Pattern
    requires i <= |p|
  {
    if inRun then AfterStar(p, i) else Parse(p, i)
  }

  lemma SpanItem(p: string, i: nat)
    requires i < |p| && IsSpace(p[i])
    ensures ItemAt(p, i) == (Span, if i + 1 < |p| && IsSpace(p[i + 1]) then ItemAt(p, i + 1).1 else i + 1)
  {
    hide ClassMembers;
    if i + 1 < |p| {
      assert p[i + 1..][1..] == p[i + 2..];
    }
  }

  lemma ReadItem(p: string, i: nat)
    requires i < |p| && p[i] != '*'
    ensures Parse(p, i) == Then(ItemAt(p, i).0, Parse(p, ItemAt(p, i).1))
  {
    hide ItemAt, AfterStar;
  }

  /** What a literal whitespace leaves of a span is a span, or nothing. */
  lemma SpanLeft(p: string, i: nat)
    requires i < |p| && IsSpace(p[i])
    ensures var next := ItemAt(p, i).1;
            Parse(p, i + 1) == if next == i + 1 then Parse(p, next) else Then(Span, Parse(p, next))
  {
    hide ItemAt, Parse;
    SpanItem(p, i);
    if i + 1 < |p| && IsSpace(p[i + 1]) {
      SpanItem(p, i + 1);
      ReadItem(p, i + 1);
    }
  }

  /** The matcher reads what follows whitespace in a star run with one more item, or two. */
  lemma SpaceInRun(p: string, i: nat)
    requires i < |p| && IsSpace(p[i])
    ensures var read, rest := AfterStar(p, i), Parse(p, ItemAt(p, i).1);
            read.Then? && Length(read) > Length(rest) && (Live(read) ==> Live(rest))
    ensures Documented(p, i) == Then(Span, Documented(p, ItemAt(p, i).1))
  {
    hide ItemAt, Parse, Alive;
    SpanItem(p, i);
    SpanLeft(p, i);
    var left := Parse(p, i + 1);
    assert AfterStar(p, i) == Then(Lit(p[i]), left);
    assert Live(Then(Lit(p[i]), left)) ==> Live(left);
    assert left != Parse(p, ItemAt(p, i).1) ==> left == Then(Span, Parse(p, ItemAt(p, i).1));
  }

  lemma ItemKind(p: string, i: nat)
    requires i < |p|
    ensures var (item, next) := ItemAt(p, i);
            && (item == Star <==> p[i] == '*')
            && (p[i] == '?' ==> item == AnyChar) && (p[i] == '#' ==> item == Number)
            && (p[i] == '*' || p[i] == '?' || p[i] == '#' ==> next == i + 1)
            && (!IsSpace(p[i]) && p[i] != '*' && p[i] != '?' && p[i] != '[' && p[i] != '#' ==>
                  item == Lit(p[i]) && next == i + 1)
  {
    hide ClassMembers;
  }

  /** Unless whitespace or `#` follows a star run, both readings have the same item. */
  lemma ItemsAgree(p: string, i: nat, inRun: bool)
    requires i < |p| && !(inRun && (IsSpace(p[i]) || p[i] == '#'))
    ensures var (item, next) := ItemAt(p, i);
            && Documented(p, i) == Then(item, Documented(p, next))
            && Read(p, i, inRun) == Then(item, Read(p, next, p[i] == '*' || (inRun && p[i] == '?')))
  {
    hide ItemAt, Documented;
    DocumentedItem(p, i);
    ItemKind(p, i);
    if inRun && p[i] == '[' {
      hide Parse;
      ReadItem(p, i);
    }
  }

  lemma DocumentedItem(p: string, i: nat)
    requires i < |p|
    ensures Documented(p, i) == Then(ItemAt(p, i).0, Documented(p, ItemAt(p, i).1))
  {
    hide ItemAt;
  }

  lemma NumberInRun(p: string, i: nat)
    requires i < |p| && p[i] == '#'
    ensures AfterStar(p, i) == Then(Lit('#'), Parse(p, i + 1)) && Documented(p, i) == Then(Number, Documented(p, i + 1))
    ensures ItemAt(p, i).1 == i + 1
  {
    hide ItemAt, Parse;
    ItemKind(p, i);
  }

  /** The matcher reads at least as many items, and no fewer that match nothing. */
  lemma {:induction false} ReadIsLonger(p: string, i: nat, inRun: bool)
    requires i <= |p|
    ensures Length(Read(p, i, inRun)) >= Length(Documented(p, i))
    ensures Live(Read(p, i, inRun)) ==> Live(Documented(p, i))
    decreases |p| - i, inRun
  {
    if i < |p| {
      hide ItemAt, Alive, Parse, AfterStar, Documented;
      SpanAndNumberAreAlive();
      if inRun && IsSpace(p[i]) {
        SpaceInRun(p, i);
        ReadIsLonger(p, ItemAt(p, i).1, false);
      } else if inRun && p[i] == '#' {
        NumberInRun(p, i);
        ReadIsLonger(p, i + 1, false);
      } else {
        ItemsAgree(p, i, inRun);
        ReadIsLonger(p, ItemAt(p, i).1, p[i] == '*' || (inRun && p[i] == '?'));
      }
    }
  }

  lemma SpanAndNumberAreAlive()
    ensures Alive(Span) && Alive(Number)
  {
    assert [' '][1..] == "" && ['1'][1..] == "";
    assert Admits(Span, [' ']) && Admits(Number, ['1']);
  }

  lemma LiteralText(p: string, i: nat) returns (z: string)
    requires i < |p| && (IsSpace(p[i]) || p[i] == '#') && Live(Documented(p, i))
    ensures Fits(Documented(p, i), z) && !FitsLongest(AfterStar(p, i), z) && IsText(z)
  {
    hide ClassMembers, Alive, Admits, Takes;
    var w := SomeFit(Documented(p, ItemAt(p, i).1));
    var c := if p[i] == '#' then '1' else if p[i] == ' ' then '\t' else ' ';
    z := [c] + w;
    assert z[1..] == w;
    OtherLiteral(p[i], c, z);
    assert AfterStar(p, i) == Then(Lit(p[i]), Parse(p, i + 1));
  }

  /** The fitting text that a literal whitespace or `#` does not accept. */
  lemma {:induction false} StarRunText(p: string, i: nat, inRun: bool) returns (z: string)
    requires i <= |p| && Live(Documented(p, i)) && !PlainAfterStars(p, i, inRun)
    ensures Fits(Documented(p, i), z) && !FitsLongest(Read(p, i, inRun), z) && IsText(z)
    decreases |p| - i, inRun
  {
    hide ItemAt, Alive, Admits, Takes, Parse, AfterStar, Documented;
    ItemKind(p, i);
    if inRun && (IsSpace(p[i]) || p[i] == '#') {
      z := LiteralText(p, i);
    } else if p[i] == '*' {
      ItemsAgree(p, i, inRun);
      z := StarRunText(p, i + 1, true);
    } else {
      ItemsAgree(p, i, inRun);
      var w := StarRunText(p, ItemAt(p, i).1, inRun && p[i] == '?');
      var c := AliveText(ItemAt(p, i).0);
      z := [c] + w;
      assert z[1..] == w;
    }
  }

  lemma AliveText(item: Item) returns (c: char)
    requires Alive(item) && item != Star
    ensures 0 < c as int < 256 && Admits(item, [c])
  {
    c :| 0 < c as int < 256 && Admits(item, [c]);
  }

  lemma OtherLiteral(d: char, c: char, z: string)
    requires z != "" && z[0] == c && c != d && (d == '#' ==> c == '1') && (d != '#' ==> IsSpace(c))
    ensures Takes(Lit(d), z) == -1 && Admits(if d == '#' then Number else Span, [c])
  {
    assert [c][1..] == "";
  }

  // ------------------------------------------------ when the answer is the documented one

  lemma {:induction false} DeadPattern(pat: Pattern, z: string)
    requires DocMatches(pat, z) && IsText(z)
    ensures Live(pat)
    decreases pat
  {
    hide Admits;
    if pat.Then? {
      var n :| 0 <= n <= |z| && Admits(pat.item, z[..n]) && DocMatches(pat.rest, z[n..]);
      DeadPattern(pat.rest, z[n..]);
      AdmittedIsAlive(pat.item, z[..n]);
    }
  }

  lemma AdmittedIsAlive(item: Item, u: string)
    requires Admits(item, u) && IsText(u)
    ensures Alive(item)
  {
    hide InClass;
    SpanAndNumberAreAlive();
    if |u| == 1 {
      assert u == [u[0]];
    }
  }

  /** What a caller can check of a pattern: no star run is directly followed by whitespace or `#`, and no number or span
      of whitespace by an item that can start with a digit, or with whitespace. */
  ghost predicate Clear(p: string) {
    PlainAfterStars(p, 0, false) && NoClash(Documented(p, 0))
  }

  ghost predicate Agrees(p: string, z: string) {
    Matches(Parse(p, 0), z) <==> DocMatches(Documented(p, 0), z)
  }

  /** For a clear pattern the matcher's answer is the documented one, on every text. */
  lemma ClearAgrees(p: string, z: string)
    requires Clear(p)
    ensures Agrees(p, z)
  {
    hide Matches, DocMatches, Parse, Documented, NoClash;
    DocumentedIffPlain(p, 0, false);
    if Matches(Parse(p, 0), z) {
      MatchesIsDocumented(Parse(p, 0), z);
    }
    if DocMatches(Documented(p, 0), z) {
      DocumentedIsMatched(Documented(p, 0), z);
    }
  }

  /** For a pattern with an item that matches nothing both answers are no. */
  lemma DeadAgrees(p: string, z: string)
    requires !Live(Documented(p, 0)) && IsText(z)
    ensures Agrees(p, z)
  {
    hide Matches, DocMatches, Parse, Documented, Live;
    ReadIsLonger(p, 0, false);
    if Matches(Parse(p, 0), z) {
      MatchesIsDocumented(Parse(p, 0), z);
      DeadPattern(Parse(p, 0), z);
    }
    if DocMatches(Documented(p, 0), z) {
      DeadPattern(Documented(p, 0), z);
    }
  }

  /** For any other pattern there is a text that the documentation accepts and the matcher rejects. */
  lemma UnclearText(p: string) returns (z: string)
    requires Live(Documented(p, 0)) && !Clear(p)
    ensures IsText(z) && DocMatches(Documented(p, 0), z) && !Matches(Parse(p, 0), z)
  {
    hide Matches, DocMatches, Parse, Documented, Live, NoClash, Fits, FitsLongest, Length;
    if !PlainAfterStars(p, 0, false) {
      z := StarRunText(p, 0, false);
    } else {
      DocumentedIffPlain(p, 0, false);
      z := ClashText(Documented(p, 0));
    }
    ReadIsLonger(p, 0, false);
    FitIsDocumented(Documented(p, 0), z);
    if Matches(Parse(p, 0), z) {
      ShortMatch(Parse(p, 0), z);
    }
  }

  lemma Disagrees(p: string, z: string)
    requires DocMatches(Documented(p, 0), z) && !Matches(Parse(p, 0), z)
    ensures !Agrees(p, z)
  {
    hide Matches, DocMatches, Parse, Documented;
  }

  /** The matcher answers as documented on every text, if and only if the pattern is clear or matches nothing at all. */
  lemma AgreesIffClear(p: string)
    ensures (forall z :: IsText(z) ==> Agrees(p, z)) <==> Clear(p) || !Live(Documented(p, 0))
  {
    hide Clear, Live, Agrees;
    if Clear(p) {
      forall z | IsText(z) ensures Agrees(p, z) { ClearAgrees(p, z); }
    } else if !Live(Documented(p, 0)) {
      forall z | IsText(z) ensures Agrees(p, z) { DeadAgrees(p, z); }
    } else {
      var z := UnclearText(p);
      Disagrees(p, z);
    }
  }

  lemma StarNumberItems()
    ensures Documented("*#", 0) == Then(Star, Then(Number, End)) && Parse("*#", 0) == Then(Star, Then(Lit('#'), End))
  {
    var p := "*#";
    assert Documented(p, 2) == End && Parse(p, 2) == End;
    assert Documented(p, 1) == Then(Number, End) && AfterStar(p, 1) == Then(Lit('#'), End);
  }

  /** After a star run the matcher can reject what the documentation accepts, and accept what it rejects. */
  lemma StarNumberDiffers()
    ensures DocMatches(Documented("*#", 0), "5") && !Matches(Parse("*#", 0), "5")
    ensures !DocMatches(Documented("*#", 0), "#") && Matches(Parse("*#", 0), "#")
  {
    hide Matches, DocMatches, Documented, Parse;
    StarNumberItems();
    OneCharacter('5');
    OneCharacter('#');
    MatchesIsDocumented(Then(Star, Then(Number, End)), "5");
    assert SkipStars(End) == End && !Clashes(Number, End) && !Clashes(Star, Then(Number, End));
    if DocMatches(Then(Star, Then(Number, End)), "#") {
      DocumentedIsMatched(Then(Star, Then(Number, End)), "#");
    }
  }

  lemma OneCharacter(c: char)
    requires !IsSpace(c)
    ensures Matches(Then(Star, Then(Number, End)), [c]) <==> IsDigit(c)
    ensures Matches(Then(Star, Then(Lit('#'), End)), [c]) <==> c == '#'
  {
    assert [c][0..] == [c] && [c][1..] == "";
    assert Takes(Number, [c]) == if IsDigit(c) then 1 else -1;
    assert Takes(Lit('#'), [c]) == if c == '#' then 1 else -1;
    StarSplits(Then(Number, End), [c]);
    StarSplits(Then(Lit('#'), End), [c]);
    forall item | item == Number || item == Lit('#')
      ensures Matches(Then(item, End), [c][0..]) == (Takes(item, [c]) == 1) && !Matches(Then(item, End), [c][1..])
    {
      MatchesItem(item, End, [c]);
      MatchesItem(item, End, "");
    }
  }

  /** A number takes all the digits: `#5` does not match `15`, although `#` may stand for the `1`. */
  lemma NumberTakesAll()
    ensures DocMatches(Documented("#5", 0), "15") && !Matches(Parse("#5", 0), "15")
  {
    var p, z := "#5", "15";
    assert Documented(p, 2) == End && Parse(p, 2) == End;
    assert Documented(p, 1) == Then(Lit('5'), End) && Parse(p, 1) == Then(Lit('5'), End);
    assert Documented(p, 0) == Then(Number, Then(Lit('5'), End)) == Parse(p, 0);
    assert z[1..] == "5" && "5"[1..] == "" && ['1'][1..] == "";
    assert Fits(End, "") && Fits(Then(Lit('5'), End), "5");
    assert Fits(Then(Number, Then(Lit('5'), End)), z);
    FitIsDocumented(Documented(p, 0), z);
    TakesTwo(Number, z, '1');
    if Matches(Parse(p, 0), z) {
      ShortMatch(Parse(p, 0), z);
    }
  }

  // ---------------------------------------------------------------- trailing whitespace

  lemma {:induction false} RunsBeforeSpace(t: string, s: string)
    requires SpaceRun(s) == |s|
    ensures SpaceRun(t + s) == if SpaceRun(t) == |t| then |t + s| else SpaceRun(t)
    ensures DigitRun(t + s) == DigitRun(t)
  {
    if t == "" {
      assert t + s == s;
    } else {
      assert (t + s)[1..] == t[1..] + s;
      RunsBeforeSpace(t[1..], s);
    }
  }

  lemma TakesBeforeSpace(item: Item, t: string, s: string)
    requires SpaceRun(s) == |s| && Takes(item, t) >= 0
    ensures Takes(item, t + s) == if item == Span && SpaceRun(t) == |t| then |t + s| else Takes(item, t)
  {
    hide SpaceRun, DigitRun, InClass;
    RunsBeforeSpace(t, s);
    if t != "" {
      assert (t + s)[0] == t[0] && (t + s)[1..] == t[1..] + s;
      RunsBeforeSpace(t[1..], s);
    } else {
      NothingTaken(item);
    }
  }

  lemma NothingTaken(item: Item)
    ensures Takes(item, "") == -1
  {
  }

  lemma AllTaken(item: Item, t: string)
    requires item == Span && SpaceRun(t) == |t| && Takes(item, t) >= 0
    ensures Takes(item, t) == |t|
  {
  }

  /** Extra whitespace at the end of the text is ignored. */
  lemma {:induction false} TrailingSpaceIgnored(pat: Pattern, t: string, s: string)
    requires SpaceRun(s) == |s| && Matches(pat, t)
    ensures Matches(pat, t + s)
    decreases pat
  {
    match pat
    case End =>
      RunsBeforeSpace(t, s);
    case Then(item, rest) =>
      hide Matches, Takes, SpaceRun;
      if item == Star {
        StarSplits(rest, t);
        StarSplits(rest, t + s);
        var k :| 0 <= k <= |t| && Matches(rest, t[k..]);
        TrailingSpaceIgnored(rest, t[k..], s);
        DropConcat(t, s, k);
      } else {
        var n := Takes(item, t);
        MatchesItem(item, rest, t);
        MatchesItem(item, rest, t + s);
        TakesBeforeSpace(item, t, s);
        if Takes(item, t + s) == n {
          TrailingSpaceIgnored(rest, t[n..], s);
          DropConcat(t, s, n);
        } else {
          AllTaken(item, t);
          assert t[n..] == "" == (t + s)[|t + s|..];
        }
      }
  }

  // ---------------------------------------------------------------- star runs

  lemma StarStar(rest: Pattern, t: string)
    ensures Matches(Then(Star, Then(Star, rest)), t) == Matches(Then(Star, rest), t)
  {
    if Matches(Then(Star, Then(Star, rest)), t) {
      var k :| 0 <= k <= |t| && Matches(Then(Star, rest), t[k..]);
      var j :| 0 <= j <= |t[k..]| && Matches(rest, t[k..][j..]);
      assert t[k..][j..] == t[k + j..];
    }
    if Matches(Then(Star, rest), t) {
      assert t[0..] == t;
    }
  }

  lemma StarAny(rest: Pattern, t: string)
    ensures Matches(Then(Star, Then(AnyChar, rest)), t) == (t != "" && Matches(Then(Star, rest), t[1..]))
  {
    hide Matches;
    StarSplits(Then(AnyChar, rest), t);
    if t != "" {
      StarSplits(rest, t[1..]);
    }
    forall k | 0 <= k <= |t|
      ensures Matches(Then(AnyChar, rest), t[k..]) == (k < |t| && Matches(rest, t[1..][k..]))
    {
      AnyCharTakes(rest, t[k..]);
      if k < |t| {
        assert t[k..][1..] == t[1..][k..];
      }
    }
  }

  lemma StarEnd(t: string)
    ensures Matches(Then(Star, End), t)
  {
    assert t[|t|..] == "";
    assert Matches(End, t[|t|..]);
  }

  /** A star tries every position of the text. */
  lemma StarPositions(rest: Pattern, z: string, t: nat)
    requires t <= |z|
    ensures Matches(Then(Star, rest), z[t..]) <==> exists k :: t <= k <= |z| && Matches(rest, z[k..])
  {
    if Matches(Then(Star, rest), z[t..]) {
      var k :| 0 <= k <= |z[t..]| && Matches(rest, z[t..][k..]);
      assert z[t..][k..] == z[t + k..];
    }
    if k :| t <= k <= |z| && Matches(rest, z[k..]) {
      assert z[t..][k - t..] == z[k..];
    }
  }

  // ---------------------------------------------------------------- the matcher

  lemma InsertMember(c: char, m: Member, members: set<Member>)
    ensures InClass(c, {m} + members) <==> InMember(c, m) || InClass(c, members)
  {
    assert m in {m} + members;
  }

  /** The bracket branch, for the text character `c`: does the class match it, and where does the pattern go on? */
  method MatchClass(zGlob: string, g: nat, c: char) returns (ok: bool, next: nat)
    requires g <= |zGlob|
    ensures next <= |zGlob|
    ensures var cl := ClassMembers(zGlob, g);
            if cl.Open? then !ok
            else next == cl.next && ok == (InClass(c, cl.members) != (ClassStart(zGlob, g) != g))
  {
    assert !InClass(c, {});
    hide InClass;
    ghost var cl := ClassMembers(zGlob, g);
    var prior, seen, invert := NUL, false, false;
    next := g;
    if next < |zGlob| && zGlob[next] == '^' {
      invert := true;
      next := next + 1;
    }
    if next < |zGlob| && zGlob[next] == ']' {
      seen := c == ']';
      next := next + 1;
      if cl.Closed? {
        InsertMember(c, Single(']'), Members(zGlob, next, NUL).members);
      }
    }
    while next < |zGlob| && zGlob[next] != ']'
      invariant next <= |zGlob|
      invariant Members(zGlob, next, prior).Open? == cl.Open?
      invariant cl.Closed? ==>
                  var r := Members(zGlob, next, prior);
                  r.next == cl.next && (seen || InClass(c, r.members)) == InClass(c, cl.members)
    {
      ghost var r := Members(zGlob, next, prior);
      if zGlob[next] == '-' && next + 1 < |zGlob| && zGlob[next + 1] != ']' && Signed(prior) > 0 {
        var hi := zGlob[next + 1];
        if cl.Closed? {
          InsertMember(c, Range(prior, hi), Members(zGlob, next + 2, NUL).members);
        }
        if Signed(prior) <= Signed(c) && Signed(c) <= Signed(hi) {
          seen := true;
        }
        prior := NUL;
        next := next + 2;
      } else {
        if cl.Closed? {
          InsertMember(c, Single(zGlob[next]), Members(zGlob, next + 1, zGlob[next]).members);
        }
        if c == zGlob[next] {
          seen := true;
        }
        prior := zGlob[next];
        next := next + 1;
      }
    }
    if next == |zGlob| {
      return false, next;
    }
    return seen != invert, next + 1;
  }

  lemma ItemStep(p: string, g: nat, z: string, t: nat)
    requires g < |p| && p[g] != '*' && t <= |z|
    ensures var (item, next) := ItemAt(p, g);
            var n := Takes(item, z[t..]);
            Matches(Parse(p, g), z[t..]) == (n >= 0 && Matches(Parse(p, next), z[t + n..]))
  {
    hide ItemAt, Takes, Matches;
    var (item, next) := ItemAt(p, g);
    ItemKind(p, g);
    MatchesItem(item, Parse(p, next), z[t..]);
    var n := Takes(item, z[t..]);
    if n >= 0 {
      assert z[t..][n..] == z[t + n..];
    }
  }

  /** `testcase_glob`, on the pattern from `g0` and the text from `t0`. */
  method TestcaseGlob(zGlob: string, g0: nat, z: string, t0: nat) returns (r: bool)
    requires g0 <= |zGlob| && t0 <= |z|
    ensures r == Matches(Parse(zGlob, g0), z[t0..])
    decreases |zGlob| - g0, 1
  {
    hide Takes, ItemAt;
    var g, t := g0, t0;
    while g < |zGlob|
      invariant g0 <= g <= |zGlob| && t0 <= t <= |z|
      invariant Matches(Parse(zGlob, g0), z[t0..]) == Matches(Parse(zGlob, g), z[t..])
    {
      if zGlob[g] == '*' {
        r := MatchStar(zGlob, g + 1, z, t);
        return;
      }
      ItemStep(zGlob, g, z, t);
      var ok, g', t' := MatchItem(zGlob, g, z, t);
      if !ok {
        return false;
      }
      g, t := g', t';
    }
    t := SkipSpaces(z, t);
    return t == |z|;
  }

  /** The branches of the loop for everything but a star. */
  method MatchItem(zGlob: string, g: nat, z: string, t: nat) returns (ok: bool, g': nat, t': nat)
    requires g < |zGlob| && zGlob[g] != '*' && t <= |z|
    ensures var (item, next) := ItemAt(zGlob, g);
            var n := Takes(item, z[t..]);
            ok == (n >= 0) && (ok ==> g' == next && t' == t + n)
  {
    var c := zGlob[g];
    g', t' := g + 1, t;
    if IsSpace(c) {
      if t == |z| || !IsSpace(z[t]) {
        return false, g', t';
      }
      g' := SkipSpaces(zGlob, g');
      t' := SkipSpaces(z, t);
    } else if c == '?' {
      if t == |z| {
        return false, g', t';
      }
      t' := t + 1;
    } else if c == '[' {
      if t == |z| {
        return false, g', t';
      }
      var found, next := MatchClass(zGlob, g', z[t]);
      if !found {
        return false, g', t';
      }
      g', t' := next, t + 1;
    } else if c == '#' {
      t' := SkipNumber(z, t);
      if t' == t {
        return false, g', t';
      }
    } else {
      if t == |z| || z[t] != c {
        return false, g', t';
      }
      t' := t + 1;
    }
    ok := true;
  }

  /** The `#` branch; a result of `t0` means that no number is there. */
  method SkipNumber(z: string, t0: nat) returns (t: nat)
    requires t0 <= |z|
    ensures t == t0 + NumberRun(z[t0..])
  {
    t := t0;
    if t < |z| && (z[t] == '-' || z[t] == '+') && t + 1 < |z| && IsDigit(z[t + 1]) {
      assert z[t0..][1..] == z[t0 + 1..];
      t := t + 1;
    } else if t < |z| {
      assert z[t0..][1..] == z[t0 + 1..];
    }
    t := SkipDigits(z, t);
  }

  /** A further `*` changes nothing; a `?` takes one character. */
  lemma StarRunStep(p: string, g: nat, z: string, t: nat)
    requires g < |p| && (p[g] == '*' || p[g] == '?') && t <= |z|
    ensures Matches(Then(Star, AfterStar(p, g)), z[t..])
         == if p[g] == '*' then Matches(Then(Star, AfterStar(p, g + 1)), z[t..])
            else t < |z| && Matches(Then(Star, AfterStar(p, g + 1)), z[t + 1..])
  {
    if p[g] == '*' {
      StarStar(AfterStar(p, g + 1), z[t..]);
    } else {
      StarAny(AfterStar(p, g + 1), z[t..]);
      if t < |z| {
        assert z[t..][1..] == z[t + 1..];
      }
    }
  }

  /** The `*` branch, after the star: the rest of the star run, then the search for a position where the rest of the
      pattern matches - directly, or by leaping to the next occurrence of the literal that follows the run. */
  method MatchStar(zGlob: string, g0: nat, z: string, t0: nat) returns (r: bool)
    requires g0 <= |zGlob| && t0 <= |z|
    ensures r == Matches(Then(Star, AfterStar(zGlob, g0)), z[t0..])
    decreases |zGlob| - g0, 3
  {
    hide Matches;
    var g, t := g0, t0;
    while g < |zGlob| && (zGlob[g] == '*' || zGlob[g] == '?')
      invariant g0 <= g <= |zGlob| && t0 <= t <= |z|
      invariant Matches(Then(Star, AfterStar(zGlob, g0)), z[t0..]) == Matches(Then(Star, AfterStar(zGlob, g)), z[t..])
    {
      StarRunStep(zGlob, g, z, t);
      if zGlob[g] == '?' {
        if t == |z| {
          return false;
        }
        t := t + 1;
      }
      g := g + 1;
    }
    if g == |zGlob| {
      StarEnd(z[t..]);
      return true;
    }
    StarPositions(AfterStar(zGlob, g), z, t);
    if zGlob[g] == '[' {
      r := SearchClass(zGlob, g, z, t);
    } else {
      r := LeapToLiteral(zGlob, g, z, t);
    }
  }

  method SearchClass(zGlob: string, g: nat, z: string, t0: nat) returns (r: bool)
    requires g < |zGlob| && zGlob[g] == '[' && t0 <= |z|
    ensures r <==> exists k :: t0 <= k <= |z| && Matches(Parse(zGlob, g), z[k..])
    decreases |zGlob| - g, 2
  {
    hide Parse, Matches;
    var t := t0;
    while t < |z|
      invariant t0 <= t <= |z|
      invariant forall k :: t0 <= k < t ==> !Matches(Parse(zGlob, g), z[k..])
    {
      r := TestcaseGlob(zGlob, g, z, t);
      if r {
        return;
      }
      t := t + 1;
    }
    ClassNeedsText(zGlob, g, z);
    return false;
  }

  lemma ClassNeedsText(p: string, g: nat, z: string)
    requires g < |p| && p[g] == '['
    ensures !Matches(Parse(p, g), z[|z|..])
  {
    ItemStep(p, g, z, |z|);
  }

  method LeapToLiteral(zGlob: string, g: nat, z: string, t0: nat) returns (r: bool)
    requires g < |zGlob| && t0 <= |z|
    ensures r <==> exists k :: t0 <= k <= |z| && Matches(Then(Lit(zGlob[g]), Parse(zGlob, g + 1)), z[k..])
    decreases |zGlob| - g, 0
  {
    hide Parse, Matches;
    var c, t := zGlob[g], t0;
    ghost var pat := Then(Lit(c), Parse(zGlob, g + 1));
    while t < |z|
      invariant t0 <= t <= |z|
      invariant forall k :: t0 <= k < t ==> !Matches(pat, z[k..])
      decreases |z| - t
    {
      ghost var from := t;
      while z[t] != c
        invariant from <= t < |z|
        invariant forall k :: t0 <= k < t ==> !Matches(pat, z[k..])
        decreases |z| - t
      {
        LiteralAt(c, pat.rest, z, t);
        t := t + 1;
        if t == |z| {
          LiteralAt(c, pat.rest, z, t);
          return false;
        }
      }
      LiteralAt(c, pat.rest, z, t);
      r := TestcaseGlob(zGlob, g + 1, z, t + 1);
      if r {
        assert Matches(pat, z[t..]);
        return;
      }
      t := t + 1;
    }
    LiteralAt(c, pat.rest, z, t);
    return false;
  }

  lemma LiteralAt(c: char, rest: Pattern, z: string, k: nat)
    requires k <= |z|
    ensures Matches(Then(Lit(c), rest), z[k..]) <==> k < |z| && z[k] == c && Matches(rest, z[k + 1..])
  {
    hide Matches;
    MatchesItem(Lit(c), rest, z[k..]);
    if k < |z| {
      assert z[k..][1..] == z[k + 1..];
    }
  }
}
