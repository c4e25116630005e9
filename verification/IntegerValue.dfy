/** `integerValue`: an integer argument with an optional sign, base prefix and unit, computed in 64-bit arithmetic. */
module IntegerValue {
  import opened CStrings
  import opened Shell

  const INT64_MAX: int := 0x7fff_ffff_ffff_ffff

  // ---------------------------------------------------------------- what an argument denotes

  /** The value of digits in a base; the last digit counts once. */
  function Value(digits: string, base: nat): int {
    if digits == "" then 0
    else Value(digits[..|digits| - 1], base) * base + HexDigitValue(digits[|digits| - 1])
  }

  /** The length of the longest prefix of hexadecimal digits. */
  function HexRun(t: string): (n: nat)
    ensures n <= |t| && (n < |t| ==> HexDigitValue(t[n]) < 0)
  {
    if t == "" || HexDigitValue(t[0]) < 0 then 0 else 1 + HexRun(t[1..])
  }

  predicate IsNegative(z: string) {
    z != "" && z[0] == '-'
  }

  function Unsigned(z: string): string {
    if z != "" && (z[0] == '-' || z[0] == '+') then z[1..] else z
  }

  predicate IsHex(z: string) {
    |z| >= 2 && z[0] == '0' && z[1] == 'x'
  }

  /** The magnitude that the digits of an unsigned argument denote, and the text after them. */
  function Magnitude(z: string): (int, string) {
    if IsHex(z) then (Value(z[2..2 + HexRun(z[2..])], 16), z[2 + HexRun(z[2..])..])
    else (Value(z[..DigitRun(z)], 10), z[DigitRun(z)..])
  }

  function Power(base: nat, n: nat): nat {
    if n == 0 then 1 else base * Power(base, n - 1)
  }

  /** K, M and G, alone or with B, stand for powers of 1000, with iB for powers of 1024, in any letter case. */
  function Multiplier(unit: string): nat {
    var u := Lower(unit);
    var n := if u == "" then 0 else if u[0] == 'k' then 1 else if u[0] == 'm' then 2 else if u[0] == 'g' then 3 else 0;
    if n == 0 then 1
    else if u[1..] == "" || u[1..] == "b" then Power(1000, n)
    else if u[1..] == "ib" then Power(1024, n)
    else 1
  }

  /** Every intermediate result fits into 64 bits. A decimal digit is added as a character, before '0' is taken off. */
  predicate Fits(z: string) {
    var (v, unit) := Magnitude(z);
    v + (if IsHex(z) then 0 else 48) <= INT64_MAX && v * Multiplier(unit) <= INT64_MAX
  }

  /** The value of an argument; none when 64-bit arithmetic overflows, which C leaves undefined. */
  function Denoted(z: string): Option<int> {
    var u := Unsigned(z);
    var (v, unit) := Magnitude(u);
    if !Fits(u) then None
    else if IsNegative(z) then Some(-(v * Multiplier(unit)))
    else Some(v * Multiplier(unit))
  }

  // ---------------------------------------------------------------- the computation

  lemma TimesBase(v: int, base: nat)
    requires v >= 0 && base > 0
    ensures v * base >= v
  {
  }

  lemma {:induction false} ValueGrows(digits: string, base: nat, k: nat)
    requires base > 0 && k <= |digits| && forall i :: 0 <= i < |digits| ==> HexDigitValue(digits[i]) >= 0
    ensures 0 <= Value(digits[..k], base) <= Value(digits, base)
  {
    hide HexDigitValue;
    if digits != "" {
      var init := digits[..|digits| - 1];
      var m := if k == |digits| then k - 1 else k;
      ValueGrows(init, base, m);
      ValueGrows(init, base, |init|);
      assert init[..|init|] == init && init[..m] == digits[..m];
      TimesBase(Value(init, base), base);
      if k == |digits| {
        assert digits[..k] == digits;
      }
    }
  }

  /** The characters that the digit loop of a base goes on for. */
  predicate IsDigitOf(c: char, hex: bool) {
    if hex then HexDigitValue(c) >= 0 else IsDigit(c)
  }

  function Run(t: string, hex: bool): nat {
    if hex then HexRun(t) else DigitRun(t)
  }

  lemma {:induction false} RunIs(t: string, hex: bool)
    ensures Run(t, hex) <= |t|
    ensures forall i :: 0 <= i < Run(t, hex) ==> IsDigitOf(t[i], hex) && HexDigitValue(t[i]) >= 0
    ensures Run(t, hex) < |t| ==> !IsDigitOf(t[Run(t, hex)], hex)
  {
    if t != "" {
      RunIs(t[1..], hex);
    }
  }

  lemma ValueSnoc(digits: string, c: char, base: nat)
    ensures Value(digits + [c], base) == Value(digits, base) * base + HexDigitValue(c)
  {
    assert (digits + [c])[..|digits|] == digits;
  }

  /** One more digit; the value of all the digits is not less. */
  lemma DigitStep(z: string, from: nat, i: nat, to: nat, base: nat)
    requires base > 0 && from <= i < to <= |z|
    requires forall k :: from <= k < to ==> HexDigitValue(z[k]) >= 0
    ensures var v, w := Value(z[from..i], base), Value(z[from..i + 1], base);
            w == v * base + HexDigitValue(z[i]) && v * base >= 0 && 0 <= w <= Value(z[from..to], base)
  {
    hide HexDigitValue;
    var digits := z[from..to];
    assert z[from..i + 1] == z[from..i] + [z[i]];
    ValueSnoc(z[from..i], z[i], base);
    hide Value;
    assert digits[..i + 1 - from] == z[from..i + 1] && digits[..i - from] == z[from..i];
    ValueGrows(digits, base, i + 1 - from);
    ValueGrows(digits, base, i - from);
    TimesBase(Value(z[from..i], base), base);
  }

  lemma NoDigits(z: string, from: nat, base: nat)
    requires from <= |z|
    ensures Value(z[from..from], base) == 0
  {
  }

  /** The digit loops, from position `from`. A decimal digit is added as a character and '0' (48) is taken off again.
      Nothing is returned when an intermediate result overflows. */
  method ReadDigits(z: string, from: nat, hex: bool) returns (v: Option<int>, i: nat)
    requires from <= |z|
    ensures var to := from + Run(z[from..], hex);
            var base, bias := if hex then 16 else 10, if hex then 0 else 48;
            to <= |z| && var total := Value(z[from..to], base);
            && total >= 0
            && v == (if total + bias <= INT64_MAX then Some(total) else None)
            && (v.Some? ==> i == to)
  {
    hide Value, Run, IsDigitOf, HexDigitValue;
    RunIs(z[from..], hex);
    ghost var to := from + Run(z[from..], hex);
    assert forall k :: from <= k < |z| ==> z[k] == z[from..][k - from];
    var base, bias := if hex then 16 else 10, if hex then 0 else 48;
    var sum := 0;
    i := from;
    NoDigits(z, from, base);
    while i < |z| && IsDigitOf(z[i], hex)
      invariant from <= i <= to
      invariant sum == Value(z[from..i], base) && 0 <= sum && sum + bias <= INT64_MAX
    {
      DigitStep(z, from, i, to, base);
      var x := HexDigitValue(z[i]);
      var shifted := sum * base;
      if shifted > INT64_MAX || shifted + (x + bias) > INT64_MAX {
        return None, i;
      }
      sum := shifted + (x + bias) - bias;
      i := i + 1;
    }
    return Some(sum), i;
  }

  const MULTIPLIERS: seq<(string, nat)> :=
    [("KiB", 1024), ("MiB", 1024 * 1024), ("GiB", 1024 * 1024 * 1024), ("KB", 1000), ("MB", 1000000),
     ("GB", 1000000000), ("K", 1000), ("M", 1000000), ("G", 1000000000)]

  /** The table lists exactly the units. */
  lemma TableIsRight(i: nat)
    requires i < |MULTIPLIERS|
    ensures forall unit :: Lower(MULTIPLIERS[i].0) == Lower(unit) ==> Multiplier(unit) == MULTIPLIERS[i].1
  {
    assert Power(1000, 1) == 1000 && Power(1024, 1) == 1024;
    assert Power(1000, 2) == 1000000 && Power(1024, 2) == 1024 * 1024;
    assert Power(1000, 3) == 1000000000 && Power(1024, 3) == 1024 * 1024 * 1024;
    assert Lower("KiB") == "kib" && Lower("MiB") == "mib" && Lower("GiB") == "gib";
    assert Lower("KB") == "kb" && Lower("MB") == "mb" && Lower("GB") == "gb";
    assert Lower("K") == "k" && Lower("M") == "m" && Lower("G") == "g";
    assert MULTIPLIERS[i].0 in {"KiB", "MiB", "GiB", "KB", "MB", "GB", "K", "M", "G"};
  }

  /** A unit that the table does not list counts as one. */
  lemma NotInTable(unit: string)
    requires forall i :: 0 <= i < |MULTIPLIERS| ==> Lower(MULTIPLIERS[i].0) != Lower(unit)
    ensures Multiplier(unit) == 1
  {
    assert Lower("KiB") == "kib" && Lower("MiB") == "mib" && Lower("GiB") == "gib";
    assert Lower("KB") == "kb" && Lower("MB") == "mb" && Lower("GB") == "gb";
    assert Lower("K") == "k" && Lower("M") == "m" && Lower("G") == "g";
    var u := Lower(unit);
    assert MULTIPLIERS[0].0 == "KiB" && MULTIPLIERS[1].0 == "MiB" && MULTIPLIERS[2].0 == "GiB";
    assert MULTIPLIERS[3].0 == "KB" && MULTIPLIERS[4].0 == "MB" && MULTIPLIERS[5].0 == "GB";
    assert MULTIPLIERS[6].0 == "K" && MULTIPLIERS[7].0 == "M" && MULTIPLIERS[8].0 == "G";
    if u != "" {
      assert u == [u[0]] + u[1..];
    }
  }

  /** The unit loop: the first entry that is equal, ignoring case. */
  method ApplyUnit(v: int, unit: string) returns (r: Option<int>)
    ensures r == if v * Multiplier(unit) <= INT64_MAX then Some(v * Multiplier(unit)) else None
  {
    hide Multiplier, Lower;
    var i := 0;
    while i < |MULTIPLIERS|
      invariant 0 <= i <= |MULTIPLIERS|
      invariant forall k :: 0 <= k < i ==> Lower(MULTIPLIERS[k].0) != Lower(unit)
    {
      if Lower(MULTIPLIERS[i].0) == Lower(unit) {
        TableIsRight(i);
        var product := v * MULTIPLIERS[i].1;
        return if product <= INT64_MAX then Some(product) else None;
      }
      i := i + 1;
    }
    NotInTable(unit);
    return if v <= INT64_MAX then Some(v) else None;
  }

  method ReadMagnitude(z: string) returns (v: Option<int>, unit: string)
    ensures var (m, rest) := Magnitude(z);
            m >= 0 &&
            if m + (if IsHex(z) then 0 else 48) <= INT64_MAX then v == Some(m) && unit == rest else v == None
  {
    hide Value, HexRun, DigitRun;
    var i;
    if |z| >= 2 && z[0] == '0' && z[1] == 'x' {
      v, i := ReadDigits(z, 2, true);
    } else {
      assert z[0..] == z;
      v, i := ReadDigits(z, 0, false);
    }
    unit := z[if v.Some? then i else 0..];
  }

  /** `integerValue`. */
  method IntegerValue(zArg: string) returns (r: Option<int>)
    ensures r == Denoted(zArg)
  {
    hide Magnitude, Multiplier;
    var z := zArg;
    var isNeg := false;
    if z != "" && z[0] == '-' {
      isNeg := true;
      z := z[1..];
    } else if z != "" && z[0] == '+' {
      z := z[1..];
    }
    var v, unit := ReadMagnitude(z);
    if v.None? {
      return None;
    }
    r := ApplyUnit(v.value, unit);
    if r.Some? && isNeg {
      r := Some(-r.value);
    }
  }

  // ---------------------------------------------------------------- round trip

  function DecimalDigits(n: nat): string {
    if n < 10 then [(48 + n) as char] else DecimalDigits(n / 10) + [(48 + n % 10) as char]
  }

  function DecimalText(n: int): string {
    if n < 0 then "-" + DecimalDigits(-n) else DecimalDigits(n)
  }

  lemma {:induction false} DecimalDigitsRoundTrip(n: nat)
    ensures var d := DecimalDigits(n);
            d != "" && Value(d, 10) == n && DigitRun(d) == |d| && !IsHex(d) && d[0] != '-' && d[0] != '+'
    decreases n
  {
    var d := DecimalDigits(n);
    if n < 10 {
      assert d[..0] == "" && d[1..] == "";
    } else {
      var init := DecimalDigits(n / 10);
      DecimalDigitsRoundTrip(n / 10);
      assert d[..|d| - 1] == init;
      DigitRunSnoc(init, d[|d| - 1]);
    }
  }

  lemma {:induction false} DigitRunSnoc(d: string, c: char)
    requires DigitRun(d) == |d| && IsDigit(c)
    ensures DigitRun(d + [c]) == |d| + 1
  {
    if d != "" {
      assert (d + [c])[1..] == d[1..] + [c];
      DigitRunSnoc(d[1..], c);
    } else {
      assert d + [c] == [c] && [c][1..] == "";
    }
  }

  lemma NoUnit()
    ensures Multiplier("") == 1
  {
    assert Lower("") == "";
  }

  /** The decimal text of a number is read back as that number, exactly when its magnitude plus 48 fits into 64 bits.
      For the largest 48 numbers and their negatives the computation overflows. */
  lemma DecimalRoundTrip(n: int)
    ensures Denoted(DecimalText(n)) == if (if n < 0 then -n else n) + 48 <= INT64_MAX then Some(n) else None
  {
    hide Value, Multiplier, DecimalDigits;
    var m := if n < 0 then -n else n;
    var d := DecimalDigits(m);
    DecimalDigitsRoundTrip(m);
    NoUnit();
    assert d[..|d|] == d && d[|d|..] == "";
    assert ("-" + d)[1..] == d;
    assert Unsigned(DecimalText(n)) == d;
  }

  // ---------------------------------------------------------------- any sign, base, letter case and unit

  const LOWER_DIGITS := "0123456789abcdef"
  const UPPER_DIGITS := "0123456789ABCDEF"

  function HexText(n: nat, upper: bool): string
    decreases n
  {
    var digit := (if upper then UPPER_DIGITS else LOWER_DIGITS)[n % 16];
    if n < 16 then [digit] else HexText(n / 16, upper) + [digit]
  }

  /** What a unit in small letters stands for; other texts stand for one. */
  function Factor(unit: string): nat {
    match unit
    case "k" => 1000
    case "kb" => 1000
    case "kib" => 1024
    case "m" => 1000000
    case "mb" => 1000000
    case "mib" => 1048576
    case "g" => 1000000000
    case "gb" => 1000000000
    case "gib" => 1073741824
    case _ => 1
  }

  predicate IsHexDigit(c: char) {
    '0' <= c <= '9' || 'a' <= c <= 'f' || 'A' <= c <= 'F'
  }

  lemma HexDigitIs(n: nat, upper: bool)
    requires n < 16
    ensures HexDigitValue((if upper then UPPER_DIGITS else LOWER_DIGITS)[n]) == n
  {
    var d := if upper then UPPER_DIGITS else LOWER_DIGITS;
    assert d[n] == (if n < 10 then (48 + n) as char else if upper then (55 + n) as char else (87 + n) as char);
  }

  lemma {:induction false} HexRunAppend(d: string, rest: string)
    requires (forall i :: 0 <= i < |d| ==> HexDigitValue(d[i]) >= 0) && (rest == "" || HexDigitValue(rest[0]) < 0)
    ensures HexRun(d + rest) == |d|
  {
    if d == "" {
      assert d + rest == rest;
    } else {
      assert (d + rest)[1..] == d[1..] + rest;
      HexRunAppend(d[1..], rest);
    }
  }

  lemma {:induction false} HexTextValue(n: nat, upper: bool)
    ensures var h := HexText(n, upper);
            h != "" && Value(h, 16) == n && forall i :: 0 <= i < |h| ==> HexDigitValue(h[i]) >= 0
    decreases n
  {
    var h := HexText(n, upper);
    HexDigitIs(n % 16, upper);
    hide HexDigitValue;
    if n < 16 {
      assert h[..0] == "";
    } else {
      HexTextValue(n / 16, upper);
      assert h[..|h| - 1] == HexText(n / 16, upper);
    }
  }

  lemma {:induction false} DecimalDigitsAre(n: nat)
    ensures var d := DecimalDigits(n);
            (forall i :: 0 <= i < |d| ==> IsDigit(d[i])) && (d[0] == '0' ==> d == "0")
    decreases n
  {
    if n >= 10 {
      DecimalDigitsAre(n / 10);
      DecimalDigitsRoundTrip(n / 10);
    }
  }

  lemma MultiplierIsFactor(unit: string)
    ensures Multiplier(unit) == Factor(Lower(unit))
  {
    var u := Lower(unit);
    assert Power(1000, 1) == 1000 && Power(1024, 1) == 1024;
    assert Power(1000, 2) == 1000000 && Power(1024, 2) == 1048576;
    assert Power(1000, 3) == 1000000000 && Power(1024, 3) == 1073741824;
    assert "k"[1..] == "m"[1..] == "g"[1..] == "";
    assert "kb"[1..] == "mb"[1..] == "gb"[1..] == "b" && "kib"[1..] == "mib"[1..] == "gib"[1..] == "ib";
    if u != "" {
      assert u == [u[0]] + u[1..];
      assert [u[0]] + "" == [u[0]] && "k" == ['k'] && "m" == ['m'] && "g" == ['g'];
      assert "kb" == ['k'] + "b" && "mb" == ['m'] + "b" && "gb" == ['g'] + "b";
      assert "kib" == ['k'] + "ib" && "mib" == ['m'] + "ib" && "gib" == ['g'] + "ib";
    }
  }

  /** The digits of an argument, in either base. */
  function Body(n: nat, hex: bool, upper: bool): string {
    if hex then "0x" + HexText(n, upper) else DecimalDigits(n)
  }

  /** What may follow the digits: nothing that would be taken for one of them, or for the prefix of the other base. */
  predicate EndsNumber(n: nat, hex: bool, unit: string) {
    unit == "" || if hex then !IsHexDigit(unit[0]) else !('0' <= unit[0] <= '9') && !(n == 0 && unit[0] == 'x')
  }

  lemma MagnitudeIs(n: nat, hex: bool, upper: bool, unit: string)
    requires EndsNumber(n, hex, unit)
    ensures var z := Body(n, hex, upper) + unit;
            IsHex(z) == hex && Magnitude(z) == (n, unit) && z[0] != '+' && z[0] != '-'
  {
    hide Value, DecimalDigits, HexText;
    var body := Body(n, hex, upper);
    var z := body + unit;
    assert z[|body|..] == unit && z[..|body|] == body;
    if hex {
      var h := HexText(n, upper);
      HexTextValue(n, upper);
      HexRunAppend(h, unit);
      assert z[0] == "0x"[0] && z[1] == "0x"[1];
      assert z[2..] == h + unit && z[2..2 + |h|] == h;
    } else {
      DecimalDigitsRoundTrip(n);
      DecimalDigitsAre(n);
      DigitRunAppend(body, unit);
      NotHex(n, unit);
    }
  }

  lemma NotHex(n: nat, unit: string)
    requires EndsNumber(n, false, unit)
    ensures !IsHex(DecimalDigits(n) + unit)
  {
    hide DecimalDigits, Value;
    var d := DecimalDigits(n);
    DecimalDigitsAre(n);
    DecimalDigitsRoundTrip(n);
    if |d| > 1 {
      assert (d + unit)[1] == d[1];
    } else if unit != "" && d == "0" {
      assert (d + unit)[1] == unit[0];
      ZeroText(n);
    }
  }

  lemma ZeroText(n: nat)
    requires DecimalDigits(n) == "0"
    ensures n == 0
  {
    DecimalDigitsRoundTrip(n);
    assert "0"[..0] == "" && Value("", 10) == 0;
  }

  /** A sign or none, digits in either base and letter case, and a unit in any letter case: the argument denotes their
      product, if and only if the digits and the product fit into 64 bits. For decimal digits there must be room for one
      more digit character, 48. */
  lemma ArgumentRoundTrip(sign: string, n: nat, hex: bool, upper: bool, unit: string)
    requires (sign == "" || sign == "+" || sign == "-") && EndsNumber(n, hex, unit)
    ensures var product, max := n * Factor(Lower(unit)), 9223372036854775807;
            Denoted(sign + (Body(n, hex, upper) + unit)) ==
            if n + (if hex then 0 else 48) <= max && product <= max
            then Some(if sign == "-" then -product else product) else None
  {
    hide Multiplier, Body, Magnitude, Factor, Lower;
    var z := Body(n, hex, upper) + unit;
    MagnitudeIs(n, hex, upper, unit);
    MultiplierIsFactor(unit);
    assert "" + z == z && ("+" + z)[1..] == z && ("-" + z)[1..] == z;
  }

  /** In particular: hexadecimal numbers are read back up to the largest 64-bit number, and a plus sign changes
      nothing. */
  lemma HexRoundTrip(n: int, upper: bool)
    requires n >= 0
    ensures Denoted("0x" + HexText(n, upper)) == if n <= 9223372036854775807 then Some(n) else None
    ensures Denoted("-0x" + HexText(n, upper)) == if n <= 9223372036854775807 then Some(-n) else None
    ensures Denoted("+" + DecimalText(n)) == Denoted(DecimalText(n))
  {
    hide Denoted, HexText, DecimalDigits;
    assert Lower("") == "";
    var h := "0x" + HexText(n, upper);
    ArgumentRoundTrip("", n, true, upper, "");
    ArgumentRoundTrip("-", n, true, upper, "");
    ArgumentRoundTrip("+", n, false, upper, "");
    ArgumentRoundTrip("", n, false, upper, "");
    assert "" + (h + "") == h && "-" + (h + "") == "-0x" + HexText(n, upper);
    assert "+" + (DecimalDigits(n) + "") == "+" + DecimalDigits(n) && "" + (DecimalDigits(n) + "") == DecimalDigits(n);
  }
}
