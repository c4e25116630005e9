/** C-style quoting and dequoting: `output_c_string` and the in-place `resolve_backslashes`. */
module Escapes {
  import opened CStrings
  import opened Shell

  const BACKSLASH: char := '\\'

  // ---------------------------------------------------------------- quoting

  /** `isprint` in the "C" locale. */
  predicate IsPrint(c: char) {
    ' ' <= c <= '~'
  }

  ghost predicate IsBytes(s: string) {
    forall i :: 0 <= i < |s| ==> s[i] as int < 256
  }

  function OctalDigit(n: nat): char {
    (48 + n % 8) as char
  }

  function EscapedChar(c: char): string {
    if c == BACKSLASH then "\\\\"
    else if c == '"' then "\\\""
    else if c == '\t' then "\\t"
    else if c == '\n' then "\\n"
    else if c == '\r' then "\\r"
    else if !IsPrint(c) then [BACKSLASH, OctalDigit(c as int / 64), OctalDigit(c as int / 8), OctalDigit(c as int)]
    else [c]
  }

  function Escaped(s: string): string {
    if s == "" then "" else EscapedChar(s[0]) + Escaped(s[1..])
  }

  function CQuoted(s: string): string {
    "\"" + Escaped(s) + "\""
  }

  method OutputCString(p: ShellState, z: string)
    requires IsBytes(z)
    modifies p`out
    ensures p.out == old(p.out) + CQuoted(z)
  {
    ghost var out0 := p.out;
    p.out := p.out + "\"";
    ghost var start := p.out;
    var i := 0;
    assert z[0..] == z;
    while i < |z|
      invariant 0 <= i <= |z|
      invariant start + Escaped(z) == p.out + Escaped(z[i..])
    {
      var c := z[i];
      Concat(p.out, EscapedChar(c), Escaped(z[i + 1..]));
      if c == BACKSLASH {
        p.out := p.out + [c, c];
      } else if c == '"' {
        p.out := p.out + [BACKSLASH, '"'];
      } else if c == '\t' {
        p.out := p.out + [BACKSLASH, 't'];
      } else if c == '\n' {
        p.out := p.out + [BACKSLASH, 'n'];
      } else if c == '\r' {
        p.out := p.out + [BACKSLASH, 'r'];
      } else if !IsPrint(c) {
        p.out := p.out + [BACKSLASH, OctalDigit(c as int / 64), OctalDigit(c as int / 8), OctalDigit(c as int)];
      } else {
        p.out := p.out + [c];
      }
      i := i + 1;
    }
    assert p.out == start + Escaped(z);
    Concat(out0, "\"", Escaped(z));
    Concat(out0, "\"" + Escaped(z), "\"");
    p.out := p.out + "\"";
  }

  // ---------------------------------------------------------------- dequoting

  predicate IsOctal(c: char) {
    '0' <= c <= '7'
  }

  /** The letter escapes; any other character stands for itself. There is no `\s`, although its comment lists it. */
  function LetterEscape(c: char): char {
    match c
    case 'a' => '\U{07}'
    case 'b' => '\U{08}'
    case 't' => '\t'
    case 'n' => '\n'
    case 'v' => '\U{0b}'
    case 'f' => '\U{0c}'
    case 'r' => '\r'
    case _ => c
  }

  /** How many octal digits (at most 3) follow a backslash. */
  function OctalRun(s: string): (n: nat)
    ensures n <= 3 && n <= |s|
  {
    if |s| < 1 || !IsOctal(s[0]) then 0
    else if |s| < 2 || !IsOctal(s[1]) then 1
    else if |s| < 3 || !IsOctal(s[2]) then 2
    else 3
  }

  /** The value of octal digits, truncated to a byte. */
  function OctalValue(s: string): nat {
    if s == "" then 0 else OctalValue(s[..|s| - 1]) * 8 + (s[|s| - 1] as int - 48) % 8
  }

  /** The character that an escape stands for, and its length, given what follows the backslash. */
  function Unescape(t: string): (r: (char, nat))
    requires t != ""
    ensures 1 <= r.1 <= |t|
  {
    var n := OctalRun(t);
    if n == 0 then (LetterEscape(t[0]), 1) else ((OctalValue(t[..n]) % 256) as char, n)
  }

  /** The text with its backslash escapes resolved. A backslash at the very end stands for itself. */
  function Resolved(s: string): string {
    if s == "" then ""
    else if s[0] == BACKSLASH && |s| > 1 then
      var (c, n) := Unescape(s[1..]);
      [c] + Resolved(s[1 + n..])
    else [s[0]] + Resolved(s[1..])
  }

  /** `z` holds a C string that starts at `p` and whose NUL is at `e`. */
  ghost predicate CStringIn(z: array<char>, p: nat, e: nat)
    reads z
  {
    p <= e < z.Length && z[e] == NUL && NulFree(z[p..e])
  }

  lemma OctalSnoc(z: array<char>, i: nat, k: nat)
    requires i < k <= z.Length && IsOctal(z[k - 1])
    ensures OctalValue(z[i..k]) == (if k == i + 1 then 0 else OctalValue(z[i..k - 1]) * 8) + (z[k - 1] as int - 48)
  {
    assert z[i..k][..k - i - 1] == z[i..k - 1];
  }

  /** One, two or three octal digits at `i`. */
  method ReadOctal(z: array<char>, i: nat, ghost e: nat) returns (v: nat, next: nat)
    requires CStringIn(z, i, e) && IsOctal(z[i])
    ensures next - i == OctalRun(z[i..e]) && i < next <= e
    ensures v == OctalValue(z[i..next])
  {
    hide OctalValue;
    v, next := z[i] as int - 48, i + 1;
    OctalSnoc(z, i, next);
    if IsOctal(z[next]) {
      v, next := v * 8 + (z[next] as int - 48), next + 1;
      OctalSnoc(z, i, next);
      if IsOctal(z[next]) {
        v, next := v * 8 + (z[next] as int - 48), next + 1;
        OctalSnoc(z, i, next);
      }
    }
  }

  /** What stands after a backslash at `i - 1`. */
  method ReadEscape(z: array<char>, i: nat, ghost e: nat) returns (c: char, next: nat)
    requires CStringIn(z, i, e) && i < e
    ensures i < next <= e && (c, next - i) == Unescape(z[i..e])
  {
    c := z[i];
    if IsOctal(c) {
      var v;
      v, next := ReadOctal(z, i, e);
      assert z[i..e][..next - i] == z[i..next];
      c := (v % 256) as char;
    } else {
      c, next := LetterEscape(c), i + 1;
    }
  }

  /** One character, escaped or not, at `i`; `next` is where the following one starts. */
  method ReadChar(z: array<char>, i: nat, ghost e: nat) returns (c: char, next: nat)
    requires CStringIn(z, i, e) && i < e
    ensures i < next <= e
    ensures Resolved(z[i..e]) == [c] + Resolved(z[next..e])
  {
    hide Unescape;
    assert z[i..e][1..] == z[i + 1..e];
    if z[i] == BACKSLASH && z[i + 1] != NUL {
      c, next := ReadEscape(z, i + 1, e);
      assert z[i..e][next - i..] == z[next..e];
    } else {
      c, next := z[i], i + 1;
    }
  }

  /** The start of the string up to its first backslash is left alone. */
  method SkipPlain(z: array<char>, p: nat, ghost e: nat) returns (i: nat)
    requires CStringIn(z, p, e)
    ensures p <= i <= e && Resolved(z[p..e]) == z[p..i] + Resolved(z[i..e])
  {
    i := p;
    while z[i] != NUL && z[i] != BACKSLASH
      invariant p <= i <= e
      invariant Resolved(z[p..e]) == z[p..i] + Resolved(z[i..e])
      decreases e - i
    {
      assert z[i..e][1..] == z[i + 1..e];
      assert z[p..i + 1] == z[p..i] + [z[i]];
      Concat(z[p..i], [z[i]], Resolved(z[i + 1..e]));
      i := i + 1;
    }
  }

  /** One turn of the loop: the character at read index `i` is stored at write index `j`. */
  method ResolveOne(z: array<char>, ghost p: nat, j: nat, i: nat, ghost e: nat) returns (next: nat)
    requires p <= j <= i < e && CStringIn(z, i, e)
    modifies z
    ensures i < next <= e && CStringIn(z, next, e)
    ensures forall k :: 0 <= k < z.Length && k != j ==> z[k] == old(z[k])
    ensures z[p..j + 1] + Resolved(z[next..e]) == old(z[p..j] + Resolved(z[i..e]))
  {
    hide Resolved;
    var c;
    c, next := ReadChar(z, i, e);
    ghost var rest := z[next..e];
    Concat(z[p..j], [c], Resolved(rest));
    z[j] := c;
    assert z[next..e] == rest && rest == old(z[i..e])[next - i..];
    assert z[p..j + 1] == old(z[p..j]) + [c];
  }

  /** The loop of `resolve_backslashes`, from the first backslash on; the write index never passes the read index. */
  method ResolveFrom(z: array<char>, ghost p: nat, first: nat, ghost e: nat) returns (i: nat, j: nat)
    requires p <= first && CStringIn(z, first, e)
    modifies z
    ensures p <= j <= i == e
    ensures z[p..j] == old(z[p..first] + Resolved(z[first..e]))
    ensures forall k :: 0 <= k < p || e <= k < z.Length ==> z[k] == old(z[k])
  {
    assert Resolved("") == "";
    hide Resolved, NulFree;
    ghost var all := z[p..first] + Resolved(z[first..e]);
    i, j := first, first;
    while z[i] != NUL
      invariant p <= j <= i <= e && CStringIn(z, i, e)
      invariant forall k :: 0 <= k < p || e <= k < z.Length ==> z[k] == old(z[k])
      invariant all == z[p..j] + Resolved(z[i..e])
      decreases e - i
    {
      i := ResolveOne(z, p, j, i, e);
      j := j + 1;
    }
    assert i == e by {
      AtNul(z, i, e);
    }
    assert z[i..e] == "";
  }

  lemma AtNul(z: array<char>, i: nat, e: nat)
    requires CStringIn(z, i, e) && z[i] == NUL
    ensures i == e
  {
  }

  /** `resolve_backslashes` on the C string at `p`, in place. */
  method ResolveBackslashes(z: array<char>, p: nat, ghost e: nat)
    requires CStringIn(z, p, e)
    modifies z
    ensures var r := Resolved(old(z[p..e]));
            p + |r| <= e && z[p..p + |r|] == r && z[p + |r|] == NUL
    ensures forall k :: 0 <= k < p || e <= k < z.Length ==> z[k] == old(z[k])
  {
    hide Resolved;
    var i := SkipPlain(z, p, e);
    assert NulFree(z[i..e]) by {
      assert z[i..e] == z[p..e][i - p..];
    }
    var j;
    i, j := ResolveFrom(z, p, i, e);
    if j < i {
      z[j] := NUL;
    }
  }

  // ---------------------------------------------------------------- round trip

  /** Three octal digits encode a byte, whatever follows them. */
  lemma OctalRoundTrip(c: char, t: string)
    requires c as int < 256
    ensures Unescape([OctalDigit(c as int / 64), OctalDigit(c as int / 8), OctalDigit(c as int)] + t) == (c, 3)
  {
    var d := [OctalDigit(c as int / 64), OctalDigit(c as int / 8), OctalDigit(c as int)];
    assert (d + t)[..3] == d;
    ThreeDigits(c as int);
    hide OctalValue, OctalDigit;
  }

  lemma ThreeDigits(n: nat)
    requires n < 256
    ensures OctalValue([OctalDigit(n / 64), OctalDigit(n / 8), OctalDigit(n)]) == n
    ensures IsOctal(OctalDigit(n / 64)) && IsOctal(OctalDigit(n / 8)) && IsOctal(OctalDigit(n))
  {
    OctalDigitValue(n / 64);
    OctalDigitValue(n / 8);
    OctalDigitValue(n);
    OctalSum(n);
    hide OctalDigit, OctalValue;
    ValueOfThree(OctalDigit(n / 64), OctalDigit(n / 8), OctalDigit(n));
  }

  lemma OctalSum(n: nat)
    requires n < 256
    ensures (n / 64 % 8 * 8 + n / 8 % 8) * 8 + n % 8 == n
  {
    assert n / 64 % 8 == n / 64;
  }

  lemma ValueOfThree(a: char, b: char, c: char)
    requires IsOctal(a) && IsOctal(b) && IsOctal(c)
    ensures OctalValue([a, b, c]) == ((a as int - 48) * 8 + (b as int - 48)) * 8 + (c as int - 48)
    ensures OctalValue([a, b]) == (a as int - 48) * 8 + (b as int - 48) && OctalValue([a]) == a as int - 48
  {
    assert [a, b, c][..2] == [a, b] && [a, b][..1] == [a] && [a][..0] == "";
    assert OctalValue([a]) == a as int - 48;
    assert OctalValue([a, b]) == (a as int - 48) * 8 + (b as int - 48);
  }

  lemma OctalDigitValue(n: nat)
    ensures IsOctal(OctalDigit(n)) && OctalDigit(n) as int - 48 == n % 8
  {
  }

  lemma ResolvedEscapedChar(c: char, t: string)
    requires c as int < 256
    ensures Resolved(EscapedChar(c) + t) == [c] + Resolved(t)
  {
    hide Resolved, OctalDigit, IsPrint;
    if c == BACKSLASH || c == '"' {
      ResolvedPair(c, t);
    } else if c == '\t' {
      ResolvedPair('t', t);
    } else if c == '\n' {
      ResolvedPair('n', t);
    } else if c == '\r' {
      ResolvedPair('r', t);
    } else if !IsPrint(c) {
      ResolvedOctal(c, t);
    } else {
      ResolvedPlain(c, t);
    }
  }

  lemma ResolvedPlain(c: char, t: string)
    requires c != BACKSLASH
    ensures Resolved([c] + t) == [c] + Resolved(t)
  {
    assert ([c] + t)[1..] == t;
  }

  lemma ResolvedPair(x: char, t: string)
    requires !IsOctal(x)
    ensures Resolved([BACKSLASH, x] + t) == [LetterEscape(x)] + Resolved(t)
  {
    var s := [BACKSLASH, x] + t;
    assert s[1..] == [x] + t && s[2..] == t;
    assert Unescape([x] + t) == (LetterEscape(x), 1);
  }

  lemma ResolvedOctal(c: char, t: string)
    requires c as int < 256
    ensures Resolved([BACKSLASH, OctalDigit(c as int / 64), OctalDigit(c as int / 8), OctalDigit(c as int)] + t)
         == [c] + Resolved(t)
  {
    hide OctalDigit, Unescape;
    var d := [OctalDigit(c as int / 64), OctalDigit(c as int / 8), OctalDigit(c as int)];
    var s := [BACKSLASH] + d + t;
    OctalRoundTrip(c, t);
    assert [BACKSLASH] + d == [BACKSLASH, d[0], d[1], d[2]];
    assert s[1..] == d + t && s[4..] == t;
  }

  /** Dequoting undoes quoting, for every byte string. */
  lemma {:induction false} ResolvedEscaped(s: string)
    requires IsBytes(s)
    ensures Resolved(Escaped(s)) == s
  {
    if s != "" {
      ResolvedEscapedChar(s[0], Escaped(s[1..]));
      ResolvedEscaped(s[1..]);
    }
  }

  // ---------------------------------------------------------------- character by character

  /** Five characters are printed as a backslash and a character. */
  lemma PrintedPairs(t: string)
    ensures Escaped([BACKSLASH] + t) == "\\\\" + Escaped(t) && Escaped("\"" + t) == "\\\"" + Escaped(t)
    ensures Escaped("\t" + t) == "\\t" + Escaped(t) && Escaped("\n" + t) == "\\n" + Escaped(t)
    ensures Escaped("\r" + t) == "\\r" + Escaped(t)
  {
    assert ([BACKSLASH] + t)[1..] == ("\"" + t)[1..] == ("\t" + t)[1..] == ("\n" + t)[1..] == ("\r" + t)[1..] == t;
  }

  /** Other characters are printed as they are from space to tilde, and by three octal digits beyond. */
  lemma PrintedOthers(c: char, t: string)
    requires c != BACKSLASH && c != '"' && c != '\t' && c != '\n' && c != '\r' && c as int < 256
    ensures ' ' <= c <= '~' ==> Escaped([c] + t) == [c] + Escaped(t)
    ensures !(' ' <= c <= '~') ==>
              var n, zero := c as int, '0' as int;
              Escaped([c] + t) ==
              [BACKSLASH, (zero + n / 64) as char, (zero + n / 8 % 8) as char, (zero + n % 8) as char] + Escaped(t)
  {
    assert ([c] + t)[1..] == t;
  }

  /** The letters a, b, t, n, v, f and r stand for the characters 7, 8, 9, 10, 11, 12 and 13. */
  lemma LettersDecoded(t: string)
    ensures Resolved("\\a" + t) == [7 as char] + Resolved(t) && Resolved("\\b" + t) == [8 as char] + Resolved(t)
    ensures Resolved("\\t" + t) == [9 as char] + Resolved(t) && Resolved("\\n" + t) == [10 as char] + Resolved(t)
    ensures Resolved("\\v" + t) == [11 as char] + Resolved(t) && Resolved("\\f" + t) == [12 as char] + Resolved(t)
    ensures Resolved("\\r" + t) == [13 as char] + Resolved(t)
  {
    hide Resolved;
    ResolvedPair('a', t);
    ResolvedPair('b', t);
    ResolvedPair('t', t);
    ResolvedPair('n', t);
    ResolvedPair('v', t);
    ResolvedPair('f', t);
    ResolvedPair('r', t);
    assert "\\a" == [BACKSLASH, 'a'] && "\\b" == [BACKSLASH, 'b'] && "\\t" == [BACKSLASH, 't'];
    assert "\\n" == [BACKSLASH, 'n'] && "\\v" == [BACKSLASH, 'v'] && "\\f" == [BACKSLASH, 'f'];
    assert "\\r" == [BACKSLASH, 'r'];
  }

  /** Any other character after a backslash, unless it is an octal digit, stands for itself: the quotes and the
      backslash, but also the s. */
  lemma OthersDecoded(x: char, t: string)
    requires x !in "abtnvfr" && !('0' <= x <= '7')
    ensures Resolved([BACKSLASH, x] + t) == [x] + Resolved(t)
  {
    assert "abtnvfr" == ['a', 'b', 't', 'n', 'v', 'f', 'r'];
    ResolvedPair(x, t);
  }

  /** Without a backslash a character stands for itself; so does a backslash at the end. */
  lemma PlainDecoded(c: char, t: string)
    ensures c != BACKSLASH || t == "" ==> Resolved([c] + t) == [c] + Resolved(t)
  {
    assert ([c] + t)[1..] == t;
  }

  predicate OctalFirst(t: string) {
    t != "" && '0' <= t[0] <= '7'
  }

  /** One, two and three octal digits stand for the character with that number, cut to a byte. */
  lemma OctalDecoded(x: nat, y: nat, z: nat, t: string)
    requires x < 8 && y < 8 && z < 8
    ensures var a, b, c := (48 + x) as char, (48 + y) as char, (48 + z) as char;
            && (!OctalFirst(t) ==> Resolved([BACKSLASH, a] + t) == [x as char] + Resolved(t))
            && (!OctalFirst(t) ==> Resolved([BACKSLASH, a, b] + t) == [(8 * x + y) as char] + Resolved(t))
            && Resolved([BACKSLASH, a, b, c] + t) == [((64 * x + 8 * y + z) % 256) as char] + Resolved(t)
  {
    hide Resolved;
    var a, b, c := (48 + x) as char, (48 + y) as char, (48 + z) as char;
    ValueOfThree(a, b, c);
    if !OctalFirst(t) {
      DigitsDecoded([a], x, t);
      DigitsDecoded([a, b], 8 * x + y, t);
    }
    DigitsDecoded([a, b, c], 64 * x + 8 * y + z, t);
    assert [BACKSLASH] + [a] == [BACKSLASH, a] && [BACKSLASH] + [a, b] == [BACKSLASH, a, b];
    assert [BACKSLASH] + [a, b, c] == [BACKSLASH, a, b, c];
  }

  lemma DigitsDecoded(d: string, v: nat, t: string)
    requires 0 < |d| <= 3 && (forall i :: 0 <= i < |d| ==> IsOctal(d[i])) && (|d| < 3 ==> !OctalFirst(t))
    requires OctalValue(d) == v
    ensures Resolved([BACKSLASH] + d + t) == [(v % 256) as char] + Resolved(t)
  {
    var s := [BACKSLASH] + d + t;
    assert s[1..] == d + t && s[1 + |d|..] == t && (d + t)[..|d|] == d;
    assert forall i :: 0 <= i < |d| ==> (d + t)[i] == d[i];
    assert t != "" ==> (d + t)[|d|] == t[0];
    hide OctalValue;
  }

  // ---------------------------------------------------------------- the decoding that the comment describes

  /** The list of the comment: letters, characters that stand for themselves, and octal numbers. It says nothing about
      letters that it does not list and about octal numbers of less than three digits; the former stand for themselves,
      the latter have their value. A number above 255 is cut to a byte. */
  function CommentUnescape(t: string): (r: (char, nat))
    requires t != ""
    ensures 1 <= r.1 <= |t|
  {
    match t[0]
    case 'a' => (7 as char, 1)
    case 'b' => (8 as char, 1)
    case 't' => (9 as char, 1)
    case 'n' => (10 as char, 1)
    case 'v' => (11 as char, 1)
    case 'f' => (12 as char, 1)
    case 'r' => (13 as char, 1)
    case 's' => (' ', 1)
    case _ =>
      if !OctalFirst(t) then (t[0], 1)
      else
        var x := t[0] as int - '0' as int;
        if !OctalFirst(t[1..]) then (x as char, 1)
        else
          var y := t[1] as int - '0' as int;
          if !OctalFirst(t[2..]) then ((8 * x + y) as char, 2)
          else (((64 * x + 8 * y + (t[2] as int - '0' as int)) % 256) as char, 3)
  }

  function CommentResolved(s: string): string {
    if s == "" then ""
    else if s[0] == BACKSLASH && |s| > 1 then
      var (c, n) := CommentUnescape(s[1..]);
      [c] + CommentResolved(s[1 + n..])
    else [s[0]] + CommentResolved(s[1..])
  }

  /** Some escape of the text is a backslash followed by an `s`. */
  predicate EscapesSpace(s: string) {
    if s == "" then false
    else if s[0] == BACKSLASH && |s| > 1 then s[1] == 's' || EscapesSpace(s[1 + CommentUnescape(s[1..]).1..])
    else EscapesSpace(s[1..])
  }

  lemma SIsNoEscape(t: string)
    requires t != "" && t[0] == 's'
    ensures Unescape(t) == ('s', 1) && CommentUnescape(t) == (' ', 1)
  {
  }

  /** Every other escape is decoded as the comment lists it. */
  lemma ListedIsDecoded(t: string)
    requires t != "" && t[0] != 's'
    ensures Unescape(t) == CommentUnescape(t)
  {
    hide OctalValue;
    var n := OctalRun(t);
    assert t[1..] != "" ==> t[1..][0] == t[1];
    assert |t| > 2 ==> t[2..][0] == t[2];
    if n == 1 {
      assert t[..1] == [t[0]];
      ValueOfThree(t[0], t[0], t[0]);
    } else if n == 2 {
      assert t[..2] == [t[0], t[1]];
      ValueOfThree(t[0], t[1], t[1]);
    } else if n == 3 {
      assert t[..3] == [t[0], t[1], t[2]];
      ValueOfThree(t[0], t[1], t[2]);
    }
  }

  /** The decoder does what its comment says, if and only if no escape of the text is the one for a space. */
  lemma {:induction false} CommentIff(s: string)
    ensures CommentResolved(s) == Resolved(s) <==> !EscapesSpace(s)
  {
    if s != "" {
      hide Unescape, CommentUnescape;
      if s[0] == BACKSLASH && |s| > 1 {
        if s[1] == 's' {
          SIsNoEscape(s[1..]);
          assert CommentResolved(s)[0] == ' ' && Resolved(s)[0] == 's';
        } else {
          ListedIsDecoded(s[1..]);
          var (c, n) := Unescape(s[1..]);
          CommentIff(s[1 + n..]);
          SameTail(c, CommentResolved(s[1 + n..]), Resolved(s[1 + n..]));
        }
      } else {
        CommentIff(s[1..]);
        SameTail(s[0], CommentResolved(s[1..]), Resolved(s[1..]));
      }
    }
  }

  lemma SameTail(c: char, s: string, t: string)
    ensures [c] + s == [c] + t <==> s == t
  {
    assert ([c] + s)[1..] == s && ([c] + t)[1..] == t;
  }

  /** The escape for a space is read as the letter. */
  lemma SpaceEscapeDiffers()
    ensures CommentResolved([BACKSLASH, 's']) == " " && Resolved([BACKSLASH, 's']) == "s"
  {
    var s := [BACKSLASH, 's'];
    SIsNoEscape(s[1..]);
    assert s[2..] == "";
  }
}
