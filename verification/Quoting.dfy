/** Quoting by doubling: a quote character inside a quoted text is written twice. CSV fields, SQL string literals and
    SQL identifiers all use it, each with its own quote character. Identifiers in brackets do not. */
module Quoting {

  /** Every `q` of `s` written twice. */
  function Doubled(s: string, q: char): string {
    if s == "" then "" else
      Doubled(s[..|s| - 1], q) + if s[|s| - 1] == q then [q, q] else [s[|s| - 1]]
  }

  function Quoted(s: string, q: char): string {
    [q] + Doubled(s, q) + [q]
  }

  /** The run of `q` that ends `s` has odd length: its last quote is not yet paired. */
  predicate OddTail(s: string, q: char) {
    s != "" && s[|s| - 1] == q && !OddTail(s[..|s| - 1], q)
  }

  /** Undoes doubling: a quote that directly follows an unpaired quote is dropped. */
  function Undoubled(s: string, q: char): string {
    if s == "" then "" else
      var init, c := s[..|s| - 1], s[|s| - 1];
      if c == q && OddTail(init, q) then Undoubled(init, q) else Undoubled(init, q) + [c]
  }

  lemma Snoc(s: string, c: char, q: char)
    ensures Doubled(s + [c], q) == Doubled(s, q) + if c == q then [q, q] else [c]
    ensures OddTail(s + [c], q) == (c == q && !OddTail(s, q))
    ensures Undoubled(s + [c], q)
         == if c == q && OddTail(s, q) then Undoubled(s, q) else Undoubled(s, q) + [c]
  {
    assert (s + [c])[..|s|] == s;
  }

  lemma {:induction false} DoubledAppend(s: string, t: string, q: char)
    ensures Doubled(s + t, q) == Doubled(s, q) + Doubled(t, q)
  {
    if t == "" {
      assert s + t == s;
    } else {
      var init, c := t[..|t| - 1], t[|t| - 1];
      assert s + t == (s + init) + [c];
      Snoc(s + init, c, q);
      DoubledAppend(s, init, q);
    }
  }

  lemma SnocPair(s: string, q: char)
    requires !OddTail(s, q)
    ensures Undoubled(s + [q, q], q) == Undoubled(s, q) + [q] && !OddTail(s + [q, q], q)
  {
    assert s + [q, q] == (s + [q]) + [q];
    Snoc(s, q, q);
    Snoc(s + [q], q, q);
  }

  /** Doubling is invertible, and leaves only even runs of quotes. */
  lemma {:induction false} DoubledRoundTrip(s: string, q: char)
    ensures Undoubled(Doubled(s, q), q) == s
    ensures !OddTail(Doubled(s, q), q)
  {
    if s != "" {
      var init, c := s[..|s| - 1], s[|s| - 1];
      hide Undoubled, OddTail;
      DoubledRoundTrip(init, q);
      if c == q {
        SnocPair(Doubled(init, q), q);
      } else {
        Snoc(Doubled(init, q), c, q);
      }
      assert s == init + [c];
    }
  }

  /** An unpaired quote inside a doubled text is always followed by its partner. */
  lemma {:induction false} OddPrefixOfDoubled(s: string, q: char, k: nat)
    requires k <= |Doubled(s, q)|
    requires OddTail(Doubled(s, q)[..k], q)
    ensures k < |Doubled(s, q)| && Doubled(s, q)[k] == q
  {
    if s == "" {
    } else {
      var init, c := s[..|s| - 1], s[|s| - 1];
      var d, e := Doubled(init, q), Doubled(s, q);
      DoubledRoundTrip(init, q);
      DoubledRoundTrip(s, q);
      assert e[..|e|] == e;
      if k <= |d| {
        assert e[..k] == d[..k];
        OddPrefixOfDoubled(init, q, k);
      }
    }
  }

  /** Where a quoted text that starts at `s[0]` is closed: at the first quote that no other quote follows, pairs of
      quotes skipped; at the end of `s` if nowhere. */
  function ClosingQuote(s: string, q: char): (n: nat)
    ensures n <= |s|
  {
    if s == "" then 0
    else if s[0] != q then 1 + ClosingQuote(s[1..], q)
    else if |s| > 1 && s[1] == q then 2 + ClosingQuote(s[2..], q)
    else 0
  }

  /** The end of a name in brackets, where nothing is doubled. */
  function ClosingBracket(s: string): (n: nat)
    ensures n <= |s|
  {
    if s == "" || s[0] == ']' then 0 else 1 + ClosingBracket(s[1..])
  }

  lemma DoubledCons(s: string, q: char)
    requires s != ""
    ensures Doubled(s, q) == (if s[0] == q then [q, q] else [s[0]]) + Doubled(s[1..], q)
  {
    assert s == s[..1] + s[1..];
    DoubledAppend(s[..1], s[1..], q);
    assert s[..1] == "" + [s[0]];
    Snoc("", s[0], q);
  }

  /** A doubled text is closed by the first quote after it, unless another quote follows that one. */
  lemma {:induction false} DoubledIsClosed(s: string, rest: string, q: char)
    requires rest == "" || rest[0] != q
    ensures ClosingQuote(Doubled(s, q) + [q] + rest, q) == |Doubled(s, q)|
  {
    var t := Doubled(s, q) + [q] + rest;
    if s == "" {
      assert t == [q] + rest;
    } else {
      var tail := Doubled(s[1..], q) + [q] + rest;
      DoubledCons(s, q);
      DoubledIsClosed(s[1..], rest, q);
      if s[0] == q {
        assert t == [q, q] + tail && t[2..] == tail;
      } else {
        assert t == [s[0]] + tail && t[1..] == tail;
      }
    }
  }

  lemma {:induction false} NothingToDouble(s: string, q: char)
    requires forall i :: 0 <= i < |s| ==> s[i] != q
    ensures Doubled(s, q) == s
  {
    if s != "" {
      NothingToDouble(s[..|s| - 1], q);
    }
  }
}
