/** Character classes and NUL-terminated strings, as the C library sees them in the "C" locale. */
module CStrings {

  const NUL: char := '\0'

  type byte = n: int | 0 <= n < 256

  /** `isspace`: space, tab, newline, vertical tab, form feed, carriage return. */
  predicate IsSpace(c: char) {
    c == ' ' || '\t' <= c <= '\r'
  }

  predicate IsDigit(c: char) {
    '0' <= c <= '9'
  }

  predicate IsAlpha(c: char) {
    'a' <= c <= 'z' || 'A' <= c <= 'Z'
  }

  predicate IsAlnum(c: char) {
    IsAlpha(c) || IsDigit(c)
  }

  /** `tolower` on one byte. */
  function ToLower(c: char): char {
    if 'A' <= c <= 'Z' then (c as int + 32) as char else c
  }

  /** `toupper` on one byte. */
  function ToUpper(c: char): char {
    if 'a' <= c <= 'z' then (c as int - 32) as char else c
  }

  function Lower(s: string): string {
    seq(|s|, i requires 0 <= i < |s| => ToLower(s[i]))
  }

  function Upper(s: string): string {
    seq(|s|, i requires 0 <= i < |s| => ToUpper(s[i]))
  }

  /** The classes and conversions by the numbers of the characters. */
  lemma ClassesAre(c: char)
    ensures var n := c as int;
            && (IsSpace(c) <==> n in {9, 10, 11, 12, 13, 32}) && (IsDigit(c) <==> 48 <= n <= 57)
            && (IsAlpha(c) <==> 65 <= n <= 90 || 97 <= n <= 122)
            && ToLower(c) as int == (if 65 <= n <= 90 then n + 32 else n)
            && ToUpper(c) as int == (if 97 <= n <= 122 then n - 32 else n)
  {
  }

  /** The length of the longest prefix of whitespace. */
  function SpaceRun(t: string): (n: nat)
    ensures n <= |t| && (n < |t| ==> !IsSpace(t[n]))
  {
    if t == "" || !IsSpace(t[0]) then 0 else 1 + SpaceRun(t[1..])
  }

  /** The length of the longest prefix of digits. */
  function DigitRun(t: string): (n: nat)
    ensures n <= |t| && (n < |t| ==> !IsDigit(t[n]))
  {
    if t == "" || !IsDigit(t[0]) then 0 else 1 + DigitRun(t[1..])
  }

  lemma {:induction false} DigitRunAppend(d: string, rest: string)
    requires (forall i :: 0 <= i < |d| ==> IsDigit(d[i])) && (rest == "" || !IsDigit(rest[0]))
    ensures DigitRun(d + rest) == |d|
  {
    if d == "" {
      assert d + rest == rest;
    } else {
      assert (d + rest)[1..] == d[1..] + rest;
      DigitRunAppend(d[1..], rest);
    }
  }

  /** `while( IsSpace(*z) ) z++;` */
  method SkipSpaces(z: string, t0: nat) returns (t: nat)
    requires t0 <= |z|
    ensures t == t0 + SpaceRun(z[t0..])
  {
    t := t0;
    while t < |z| && IsSpace(z[t])
      invariant t0 <= t <= |z|
      invariant t0 + SpaceRun(z[t0..]) == t + SpaceRun(z[t..])
    {
      t := t + 1;
    }
  }

  /** `while( IsDigit(*z) ) z++;` */
  method SkipDigits(z: string, t0: nat) returns (t: nat)
    requires t0 <= |z|
    ensures t == t0 + DigitRun(z[t0..])
  {
    t := t0;
    while t < |z| && IsDigit(z[t])
      invariant t0 <= t <= |z|
      invariant t0 + DigitRun(z[t0..]) == t + DigitRun(z[t..])
    {
      t := t + 1;
    }
  }

  /** `hexDigitValue`: the value of a hexadecimal digit, -1 for any other character. */
  function HexDigitValue(c: char): (x: int)
    ensures -1 <= x < 16
  {
    if '0' <= c <= '9' then c as int - 48
    else if 'a' <= c <= 'f' then c as int - 87
    else if 'A' <= c <= 'F' then c as int - 55
    else -1
  }

  /** A text that fits in a C string. */
  ghost predicate NulFree(s: string) {
    forall i :: 0 <= i < |s| ==> s[i] != NUL
  }

  /** What a C function sees of a buffer: everything before the first NUL. */
  function CStr(s: string): string {
    if s == "" || s[0] == NUL then "" else [s[0]] + CStr(s[1..])
  }

  lemma {:induction false} CStrOfNulFree(s: string)
    requires NulFree(s)
    ensures CStr(s) == s
  {
    if s != "" {
      CStrOfNulFree(s[1..]);
    }
  }

  lemma {:induction false} CStrStopsAtNul(s: string, rest: string)
    requires NulFree(s)
    ensures CStr(s + [NUL] + rest) == s
  {
    if s != "" {
      assert (s + [NUL] + rest)[1..] == s[1..] + [NUL] + rest;
      CStrStopsAtNul(s[1..], rest);
    }
  }

  /** The C string at the start of a buffer is a prefix without NUL, and a NUL follows it unless the buffer ends. */
  lemma {:induction false} CStrIsPrefix(s: string)
    ensures CStr(s) <= s && NulFree(CStr(s)) && (|CStr(s)| < |s| ==> s[|CStr(s)|] == NUL)
  {
    if s != "" && s[0] != NUL {
      CStrIsPrefix(s[1..]);
    }
  }

  function Count(c: char, s: string): nat {
    if s == "" then 0 else Count(c, s[..|s| - 1]) + if s[|s| - 1] == c then 1 else 0
  }

  lemma Concat<T>(a: seq<T>, b: seq<T>, c: seq<T>)
    ensures a + (b + c) == (a + b) + c
  {
  }

  lemma DropConcat<T>(a: seq<T>, b: seq<T>, k: nat)
    requires k <= |a|
    ensures (a + b)[k..] == a[k..] + b
  {
  }

  lemma TakeDrop<T>(s: seq<T>, n: nat, k: nat)
    requires k <= n <= |s|
    ensures s[..n][k..] == s[k..][..n - k]
  {
  }
}
