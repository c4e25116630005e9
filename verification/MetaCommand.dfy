/** The dot-command line: the tokenizer of `do_meta_command`, which cuts the line into C strings in place. */
module MetaCommand {
  import opened CStrings
  import opened Shell
  import opened Escapes

  const MAX_ARGS: nat := 50

  // ---------------------------------------------------------------- which tokens a line has

  predicate IsDelim(c: char) {
    c == '\'' || c == '"'
  }

  /** The length of a quoted token whose text starts at `s[0]`. Between double quotes a backslash protects the next
      character. */
  function QuotedLength(s: string, delim: char): (n: nat)
    ensures n <= |s|
  {
    if s == "" || s[0] == delim then 0
    else if s[0] == BACKSLASH && delim == '"' && |s| > 1 then 2 + QuotedLength(s[2..], delim)
    else 1 + QuotedLength(s[1..], delim)
  }

  function WordLength(s: string): (n: nat)
    ensures n <= |s|
  {
    if s == "" || IsSpace(s[0]) then 0 else 1 + WordLength(s[1..])
  }

  /** A token at the start of a line: where its text starts, where it ends, and what it stands for. */
  datatype Token = Token(from: nat, to: nat, text: string)

  function FirstToken(s: string): (t: Token)
    requires s != ""
    ensures t.from <= t.to <= |s| && t.from <= 1
  {
    if IsDelim(s[0]) then
      var n := QuotedLength(s[1..], s[0]);
      Token(1, 1 + n, if s[0] == '"' then Resolved(s[1..1 + n]) else s[1..1 + n])
    else
      var n := WordLength(s);
      Token(0, n, Resolved(s[..n]))
  }

  /** The C strings that the tokens of a line stand for, at most `room` of them. */
  function Tokens(s: string, room: nat): (ts: seq<string>)
    ensures |ts| <= room
    decreases |s|
  {
    var t := s[SpaceRun(s)..];
    if room == 0 || t == "" then []
    else
      var first := FirstToken(t);
      [CStr(first.text)] + if first.to < |t| then Tokens(t[first.to + 1..], room - 1) else []
  }

  // ---------------------------------------------------------------- the tokenizer

  /** A C string equal to `text` starts at `p` and its NUL lies before `limit`. */
  ghost predicate Holds(line: seq<char>, p: nat, limit: nat, text: string) {
    p + |text| < limit <= |line| && line[p..p + |text|] == text && line[p + |text|] == NUL && NulFree(text)
  }

  lemma HoldsKept(was: seq<char>, line: seq<char>, p: nat, limit: nat, text: string, limit': nat)
    requires Holds(was, p, limit, text) && |was| == |line|
    requires forall k :: 0 <= k < limit ==> line[k] == was[k]
    requires limit <= limit' <= |line|
    ensures Holds(line, p, limit', text)
  {
    assert line[p..p + |text|] == was[p..p + |text|];
  }

  lemma HoldsRead(line: seq<char>, p: nat, limit: nat, text: string)
    requires Holds(line, p, limit, text)
    ensures p < limit && CStr(line[p..]) == text
  {
    assert line[p..] == text + [NUL] + line[p + |text| + 1..];
    CStrStopsAtNul(text, line[p + |text| + 1..]);
  }

  method SkipBlanks(z: array<char>, h0: nat, ghost e: nat) returns (h: nat)
    requires CStringIn(z, h0, e)
    ensures h == h0 + SpaceRun(z[h0..e]) && h <= e
  {
    h := h0;
    while IsSpace(z[h])
      invariant h0 <= h <= e
      invariant h0 + SpaceRun(z[h0..e]) == h + SpaceRun(z[h..e])
      decreases e - h
    {
      assert z[h..e][1..] == z[h + 1..e];
      h := h + 1;
    }
  }

  method ScanWord(z: array<char>, h0: nat, ghost e: nat) returns (h: nat)
    requires CStringIn(z, h0, e)
    ensures h == h0 + WordLength(z[h0..e]) && h <= e
  {
    h := h0;
    while z[h] != NUL && !IsSpace(z[h])
      invariant h0 <= h <= e
      invariant h0 + WordLength(z[h0..e]) == h + WordLength(z[h..e])
      decreases e - h
    {
      assert z[h..e][1..] == z[h + 1..e];
      h := h + 1;
    }
    NulAtEnd(z, h0, h, e);
  }

  method ScanQuoted(z: array<char>, h0: nat, delim: char, ghost e: nat) returns (h: nat)
    requires CStringIn(z, h0, e)
    ensures h == h0 + QuotedLength(z[h0..e], delim) && h <= e
    ensures h < e ==> z[h] == delim
  {
    h := h0;
    while z[h] != NUL && z[h] != delim
      invariant h0 <= h <= e
      invariant h0 + QuotedLength(z[h0..e], delim) == h + QuotedLength(z[h..e], delim)
      decreases e - h
    {
      NulAtEnd(z, h0, h + 1, e);
      assert z[h..e][1..] == z[h + 1..e];
      if z[h] == BACKSLASH && delim == '"' && z[h + 1] != NUL {
        assert z[h..e][2..] == z[h + 2..e];
        h := h + 1;
      }
      h := h + 1;
    }
    NulAtEnd(z, h0, h, e);
  }

  /** Inside a C string, NUL is found at its end only. */
  lemma NulAtEnd(z: array<char>, p: nat, h: nat, e: nat)
    requires CStringIn(z, p, e) && p <= h <= e
    ensures z[h] == NUL <==> h == e
  {
    if h < e {
      assert z[h] == z[p..e][h - p];
    }
  }

  lemma SliceOfSlice(z: array<char>, h: nat, p: nat, q: nat, e: nat)
    requires CStringIn(z, h, e) && h <= p <= q <= e
    ensures z[p..q] == z[h..e][p - h..q - h] && NulFree(z[p..q])
    ensures q == e ==> z[p..q] == z[h..e][p - h..]
  {
    var s, u := z[h..e], z[p..q];
    var v := s[p - h..q - h];
    assert forall k :: 0 <= k < q - p ==> u[k] == z[p + k] == s[p - h + k] == v[k];
    assert u == v;
  }

  /** The text of the token at `h`, from `arg` to `end`. */
  method FindToken(z: array<char>, h: nat, ghost e: nat) returns (arg: nat, end: nat)
    requires CStringIn(z, h, e) && h < e
    ensures var s := z[h..e];
            var first := FirstToken(s);
            && arg == h + first.from && end == h + first.to && h <= arg <= end <= e
            && first.text == if z[h] == '\'' then z[arg..end] else Resolved(z[arg..end])
    ensures NulFree(z[arg..end])
  {
    hide Resolved, QuotedLength, WordLength;
    ghost var s := z[h..e];
    assert s[0] == z[h];
    arg := h;
    if IsDelim(z[h]) {
      arg := h + 1;
      SliceOfSlice(z, h, arg, e, e);
      end := ScanQuoted(z, arg, z[h], e);
      SliceOfSlice(z, h, arg, end, e);
    } else {
      end := ScanWord(z, h, e);
      SliceOfSlice(z, h, arg, end, e);
      assert s[0..end - h] == s[..end - h];
    }
  }

  /** The token's end is marked with a NUL (over a delimiter or a space, unless the line ends there) and its escapes are
      resolved. The scan goes on at `next`. */
  method CutToken(z: array<char>, arg: nat, end: nat, escapes: bool) returns (next: nat)
    requires arg <= end < z.Length && NulFree(z[arg..end])
    modifies z
    ensures next == if old(z[end]) == NUL then end else end + 1
    ensures Holds(z[..], arg, end + 1, CStr(if escapes then Resolved(old(z[arg..end])) else old(z[arg..end])))
    ensures forall k :: 0 <= k < z.Length && (k < arg || end < k) ==> z[k] == old(z[k])
    ensures z[end] == NUL
  {
    hide Resolved;
    ghost var raw := z[arg..end];
    next := end;
    if z[end] != NUL {
      z[end] := NUL;
      next := end + 1;
    }
    assert z[arg..end] == raw;
    ghost var text := raw;
    if escapes {
      ResolveBackslashes(z, arg, end);
      text := Resolved(raw);
    }
    CStrIsPrefix(text);
    assert z[arg..arg + |text|] == text && z[arg + |text|] == NUL;
    assert z[..][arg..arg + |CStr(text)|] == CStr(text);
  }

  lemma TokensSkip(s: string, room: nat)
    ensures Tokens(s, room) == Tokens(s[SpaceRun(s)..], room)
  {
    hide Tokens, FirstToken, CStr;
    var t := s[SpaceRun(s)..];
    assert SpaceRun(t) == 0 && t[0..] == t;
    if room > 0 && t != "" {
      TokensTake(s, room);
      TokensTake(t, room);
    } else {
      NoTokens(s, room);
      NoTokens(t, room);
    }
  }

  lemma NoTokens(s: string, room: nat)
    requires room == 0 || SpaceRun(s) == |s|
    ensures Tokens(s, room) == []
  {
  }

  lemma TokensTake(s: string, room: nat)
    requires SpaceRun(s) < |s| && room > 0
    ensures var t := s[SpaceRun(s)..];
            var first := FirstToken(t);
            Tokens(s, room) == [CStr(first.text)] + Tokens(if first.to < |t| then t[first.to + 1..] else "", room - 1)
  {
    hide FirstToken, CStr, SpaceRun;
  }

  lemma TailKept(was: seq<char>, line: seq<char>, h: nat, next: nat, e: nat)
    requires |was| == |line| && h <= next <= e < |was| && NulFree(was[h..e]) && was[e] == NUL
    requires forall k :: next <= k < |was| ==> line[k] == was[k]
    ensures line[next..e] == was[h..e][next - h..] && NulFree(line[next..e]) && line[e] == NUL
  {
    assert line[next..e] == was[h..e][next - h..];
  }

  /** One turn of the loop, after blanks: a token is cut off the line, and what was cut before stays as it was. */
  method TakeToken(zLine: array<char>, h: nat, ghost e: nat, ghost room: nat)
    returns (arg: nat, next: nat, ghost text: string)
    requires CStringIn(zLine, h, e) && h < e && !IsSpace(zLine[h]) && room > 0
    modifies zLine
    ensures h < next <= e && CStringIn(zLine, next, e)
    ensures Holds(zLine[..], arg, if next < e then next else e + 1, text)
    ensures Tokens(old(zLine[h..e]), room) == [text] + Tokens(zLine[next..e], room - 1)
    ensures forall k :: 0 <= k < h ==> zLine[k] == old(zLine[k])
  {
    hide Tokens, FirstToken, Holds;
    ghost var t, was := zLine[h..e], zLine[..];
    assert SpaceRun(t) == 0 && t[0..] == t;
    TokensTake(t, room);
    var end;
    arg, end := FindToken(zLine, h, e);
    NulAtEnd(zLine, h, end, e);
    text := CStr(FirstToken(t).text);
    next := CutToken(zLine, arg, end, zLine[h] != '\'');
    Taken(was, zLine[..], h, arg, end, next, e, text);
  }

  lemma Taken(was: seq<char>, line: seq<char>, h: nat, arg: nat, end: nat, next: nat, e: nat, text: string)
    requires |was| == |line| && h <= arg <= end <= e < |was| && NulFree(was[h..e]) && was[e] == NUL
    requires (was[end] == NUL <==> end == e) && next == if was[end] == NUL then end else end + 1
    requires forall k :: 0 <= k < |line| && (k < arg || end < k) ==> line[k] == was[k]
    requires Holds(line, arg, end + 1, text) && line[end] == NUL
    ensures next <= e && Holds(line, arg, if next < e then next else e + 1, text)
    ensures line[next..e] == was[h..e][next - h..] && NulFree(line[next..e]) && line[e] == NUL
  {
    HoldsKept(line, line, arg, end + 1, text, if next < e then next else e + 1);
    hide Holds;
    TailKept(was, line, h, next, e);
  }

  /** The arguments found so far are C strings before position `cut`. */
  ghost predicate AllHold(line: seq<char>, azArg: seq<nat>, cut: nat, texts: seq<string>) {
    |texts| == |azArg| && forall i :: 0 <= i < |azArg| ==> Holds(line, azArg[i], cut, texts[i])
  }

  /** Another token is cut behind them. */
  lemma AllHoldStep(was: seq<char>, line: seq<char>, azArg: seq<nat>, cut0: nat, texts: seq<string>, arg: nat, cut: nat,
                    text: string)
    requires AllHold(was, azArg, cut0, texts) && |was| == |line| && cut0 <= cut <= |line|
    requires (forall k :: 0 <= k < cut0 ==> line[k] == was[k]) && Holds(line, arg, cut, text)
    ensures AllHold(line, azArg + [arg], cut, texts + [text])
  {
    hide Holds;
    forall i | 0 <= i < |azArg|
      ensures Holds(line, azArg[i], cut, texts[i])
    {
      HoldsKept(was, line, azArg[i], cut0, texts[i], cut);
    }
  }

  /** The arguments of a dot-command line, as positions in the line. Cutting later tokens leaves earlier ones intact. */
  method Tokenize(zLine: array<char>, ghost e: nat) returns (azArg: seq<nat>)
    requires CStringIn(zLine, 0, e) && e > 0
    modifies zLine
    ensures |azArg| == |Tokens(old(zLine[1..e]), MAX_ARGS)|
    ensures forall i :: 0 <= i < |azArg| ==>
              azArg[i] <= e && CStr(zLine[azArg[i]..]) == Tokens(old(zLine[1..e]), MAX_ARGS)[i]
  {
    hide Tokens, FirstToken, Holds, CStr;
    ghost var all, texts := Tokens(zLine[1..e], MAX_ARGS), [];
    assert zLine[1..e] == zLine[0..e][1..];
    var h := 1;
    ghost var cut := 0;  // the tokens found so far lie before this position
    azArg := [];
    while zLine[h] != NUL && |azArg| < MAX_ARGS
      invariant 1 <= h && CStringIn(zLine, h, e) && |azArg| <= MAX_ARGS
      invariant |texts| == |azArg| && all == texts + Tokens(zLine[h..e], MAX_ARGS - |azArg|)
      invariant cut <= e + 1 && (h < e ==> cut <= h) && AllHold(zLine[..], azArg, cut, texts)
      decreases e - h
    {
      ghost var s, room, was, cut0 := zLine[h..e], MAX_ARGS - |azArg|, zLine[..], cut;
      NulAtEnd(zLine, h, h, e);
      TokensSkip(s, room);
      h := SkipBlanks(zLine, h, e);
      assert zLine[h..e] == s[SpaceRun(s)..];
      if zLine[h] == NUL {
        break;
      }
      NulAtEnd(zLine, h, h, e);
      var arg, next;
      ghost var text;
      arg, next, text := TakeToken(zLine, h, e, room);
      cut := if next < e then next else e + 1;
      AllHoldStep(was, zLine[..], azArg, cut0, texts, arg, cut, text);
      Concat(texts, [text], Tokens(zLine[next..e], room - 1));
      azArg, texts, h := azArg + [arg], texts + [text], next;
    }
    if |azArg| < MAX_ARGS {
      NulAtEnd(zLine, h, h, e);
    }
    NoTokens(zLine[h..e], MAX_ARGS - |azArg|);
    forall i | 0 <= i < |azArg|
      ensures azArg[i] <= e && CStr(zLine[azArg[i]..]) == texts[i]
    {
      HoldsRead(zLine[..], azArg[i], cut, texts[i]);
    }
  }

  // ---------------------------------------------------------------- round trip

  function Arguments(args: seq<string>): string {
    if args == [] then "" else " " + CQuoted(args[0]) + Arguments(args[1..])
  }

  lemma ScanPlainChar(c: char, t: string)
    requires c != '"' && c != BACKSLASH
    ensures QuotedLength([c] + t, '"') == 1 + QuotedLength(t, '"')
  {
    assert ([c] + t)[1..] == t;
  }

  lemma ScanEscapedChar(c: char, t: string)
    requires c as int < 256
    ensures QuotedLength(EscapedChar(c) + t, '"') == |EscapedChar(c)| + QuotedLength(t, '"')
  {
    var e := EscapedChar(c);
    var s := e + t;
    if |e| == 1 {
      ScanPlainChar(c, t);
    } else if |e| == 2 {
      assert s[2..] == t;
    } else {
      assert IsOctal(e[2]) && IsOctal(e[3]);
      ScanPlainChar(e[3], t);
      ScanPlainChar(e[2], [e[3]] + t);
      assert s[2..] == [e[2]] + ([e[3]] + t);
    }
  }

  /** The tokenizer finds the closing quote of a quoted string, whatever follows it. */
  lemma {:induction false} ScanEscaped(s: string, rest: string)
    requires IsBytes(s)
    ensures QuotedLength(Escaped(s) + "\"" + rest, '"') == |Escaped(s)|
  {
    if s == "" {
      assert Escaped(s) + "\"" + rest == "\"" + rest;
    } else {
      hide EscapedChar;
      var tail := Escaped(s[1..]) + "\"" + rest;
      assert Escaped(s) + "\"" + rest == EscapedChar(s[0]) + tail;
      ScanEscapedChar(s[0], tail);
      ScanEscaped(s[1..], rest);
    }
  }

  lemma FirstTokenOfQuoted(a: string, rest: string)
    requires IsBytes(a)
    ensures FirstToken(CQuoted(a) + rest) == Token(1, 1 + |Escaped(a)|, a)
  {
    hide Resolved, Escaped;
    var s := CQuoted(a) + rest;
    assert s[1..] == Escaped(a) + "\"" + rest;
    ScanEscaped(a, rest);
    assert s[1..1 + |Escaped(a)|] == Escaped(a);
    ResolvedEscaped(a);
  }

  ghost predicate Passable(args: seq<string>) {
    forall i :: 0 <= i < |args| ==> IsBytes(args[i]) && NulFree(args[i])
  }

  lemma BlankBefore(t: string)
    requires t != "" && !IsSpace(t[0])
    ensures SpaceRun(t) == 0 && t[0..] == t && (" " + t)[1..] == t && SpaceRun(" " + t) == 1
  {
    assert (" " + t)[1..] == t;
  }

  lemma ArgumentStart(args: seq<string>)
    requires args != []
    ensures var s := Arguments(args);
            var t := CQuoted(args[0]) + Arguments(args[1..]);
            s == " " + t && SpaceRun(s) == 1 && s[1..] == t && SpaceRun(t) == 0 && t[0..] == t
            && t[2 + |Escaped(args[0])|..] == Arguments(args[1..]) && |t| >= 2 + |Escaped(args[0])|
  {
    hide Escaped, SpaceRun;
    var q, rest := CQuoted(args[0]), Arguments(args[1..]);
    var t := q + rest;
    Concat(" ", q, rest);
    assert |q| == 2 + |Escaped(args[0])| && t[0] == q[0] == '"';
    DropConcat(q, rest, |q|);
    BlankBefore(t);
  }

  lemma TakeQuoted(args: seq<string>, room: nat)
    requires Passable(args) && args != [] && room > 0
    ensures Tokens(Arguments(args), room) == [args[0]] + Tokens(Arguments(args[1..]), room - 1)
  {
    hide FirstToken, CStr, Escaped, CQuoted, Arguments, Tokens, NulFree, IsBytes;
    ArgumentStart(args);
    TokensTake(Arguments(args), room);
    FirstTokenOfQuoted(args[0], Arguments(args[1..]));
    CStrOfNulFree(args[0]);
    if |Arguments(args)[1..]| == 2 + |Escaped(args[0])| {
      assert Arguments(args[1..]) == "";
    }
  }

  /** Quoted arguments are read back as they were, as far as there is room for them. */
  lemma {:induction false} ArgumentsRoundTrip(args: seq<string>, room: nat)
    requires Passable(args)
    ensures Tokens(Arguments(args), room) == if |args| <= room then args else args[..room]
  {
    hide Tokens;
    if args == [] || room == 0 {
      NoTokens(Arguments(args), room);
    } else {
      TakeQuoted(args, room);
      ArgumentsRoundTrip(args[1..], room - 1);
    }
  }

  predicate IsWord(cmd: string) {
    cmd != "" && !IsDelim(cmd[0]) &&
    forall i :: 0 <= i < |cmd| ==> cmd[i] != NUL && cmd[i] != BACKSLASH && !IsSpace(cmd[i])
  }

  lemma {:induction false} WordAsIs(cmd: string, rest: string)
    requires forall i :: 0 <= i < |cmd| ==> cmd[i] != NUL && cmd[i] != BACKSLASH && !IsSpace(cmd[i])
    requires rest == "" || IsSpace(rest[0])
    ensures WordLength(cmd + rest) == |cmd| && Resolved(cmd) == cmd
  {
    if cmd == "" {
      assert cmd + rest == rest;
    } else {
      assert (cmd + rest)[1..] == cmd[1..] + rest;
      WordAsIs(cmd[1..], rest);
    }
  }

  lemma TakeWord(cmd: string, rest: string, room: nat)
    requires IsWord(cmd) && (rest == "" || rest[0] == ' ') && room > 0
    ensures Tokens(cmd + rest, room) == [cmd] + Tokens(if rest == "" then "" else rest[1..], room - 1)
  {
    hide FirstToken, Tokens;
    var s := cmd + rest;
    assert s[0] == cmd[0] && s[0..] == s && s[..|cmd|] == cmd;
    TokensTake(s, room);
    WordAsIs(cmd, rest);
    FirstTokenOfWord(s);
    CStrOfNulFree(cmd);
    if rest != "" {
      assert s[|cmd| + 1..] == rest[1..];
    }
  }

  /** A command and its quoted arguments go through the tokenizer unchanged, up to the argument limit. */
  lemma CommandRoundTrip(cmd: string, args: seq<string>)
    requires IsWord(cmd) && Passable(args)
    ensures Tokens(cmd + Arguments(args), MAX_ARGS)
         == [cmd] + if |args| < MAX_ARGS then args else args[..MAX_ARGS - 1]
  {
    hide Tokens, Escaped, CQuoted;
    var rest := Arguments(args);
    TakeWord(cmd, rest, MAX_ARGS);
    ArgumentsRoundTrip(args, MAX_ARGS - 1);
    if args != [] {
      ArgumentStart(args);
      TokensSkip(rest, MAX_ARGS - 1);
    }
  }

  lemma FirstTokenOfWord(s: string)
    requires s != "" && !IsDelim(s[0])
    ensures FirstToken(s) == Token(0, WordLength(s), Resolved(s[..WordLength(s)]))
  {
  }

  /** Printing a command line and parsing it. */
  method PrintAndParse(cmd: string, args: seq<string>) returns (parsed: seq<string>)
    requires IsWord(cmd) && Passable(args) && |args| < MAX_ARGS
    ensures parsed == [cmd] + args
  {
    hide Tokens, Arguments, CStr;
    var line := PrintCommand(cmd, args);
    var zLine := new char[|line| + 1](k => if 0 <= k < |line| then line[k] else NUL);
    assert zLine[..|line|] == line;
    LineIsNulFree(cmd, args);
    assert zLine[1..|line|] == cmd + Arguments(args);
    var azArg := Tokenize(zLine, |line|);
    CommandRoundTrip(cmd, args);
    parsed := seq(|azArg|, k requires 0 <= k < |azArg| && azArg[k] < zLine.Length reads zLine =>
                    CStr(zLine[azArg[k]..]));
  }

  /** Printing a command and its quoted arguments. */
  method PrintCommand(cmd: string, args: seq<string>) returns (line: string)
    requires Passable(args)
    ensures line == "." + (cmd + Arguments(args))
  {
    var p := new ShellState("|", "\n", "", false, "");
    p.out := "." + cmd;
    var i := 0;
    assert args[0..] == args;
    while i < |args|
      invariant 0 <= i <= |args|
      invariant "." + (cmd + Arguments(args)) == p.out + Arguments(args[i..])
    {
      Concat(p.out, " " + CQuoted(args[i]), Arguments(args[i + 1..]));
      Concat(p.out, " ", CQuoted(args[i]));
      p.out := p.out + " ";
      OutputCString(p, args[i]);
      i := i + 1;
    }
    return p.out;
  }

  lemma {:induction false} LineIsNulFree(cmd: string, args: seq<string>)
    requires IsWord(cmd) && Passable(args)
    ensures NulFree("." + (cmd + Arguments(args)))
  {
    ArgumentsAreNulFree(args);
  }

  lemma {:induction false} EscapedIsNulFree(s: string)
    requires IsBytes(s)
    ensures NulFree(Escaped(s))
  {
    if s != "" {
      EscapedIsNulFree(s[1..]);
      assert forall i :: 0 <= i < |EscapedChar(s[0])| ==> EscapedChar(s[0])[i] != NUL;
    }
  }

  lemma {:induction false} ArgumentsAreNulFree(args: seq<string>)
    requires Passable(args)
    ensures NulFree(Arguments(args))
  {
    if args != [] {
      EscapedIsNulFree(args[0]);
      ArgumentsAreNulFree(args[1..]);
    }
  }

  // ---------------------------------------------------------------- arguments in any form

  /** How an argument is written on a line. */
  datatype Form = InQuotes | InApostrophes | Bare

  /** An argument, its form, and the whitespace before it. */
  datatype Argument = Argument(space: string, form: Form, text: string)

  function WrittenArgument(a: Argument): string {
    match a.form
    case InQuotes => "\"" + Escaped(a.text) + "\""
    case InApostrophes => "'" + a.text + "'"
    case Bare => Escaped(a.text)
  }

  /** Between apostrophes there can be none; a bare argument is not empty, has no space in it and does not start with an
      apostrophe. */
  ghost predicate Writable(a: Argument) {
    && IsBytes(a.text) && NulFree(a.text) && a.space != "" && SpaceRun(a.space) == |a.space|
    && (a.form == InApostrophes ==> forall i :: 0 <= i < |a.text| ==> a.text[i] != '\'')
    && (a.form == Bare ==> a.text != "" && a.text[0] != '\'' && forall i :: 0 <= i < |a.text| ==> a.text[i] != ' ')
  }

  function Line(args: seq<Argument>): string {
    if args == [] then "" else args[0].space + (WrittenArgument(args[0]) + Line(args[1..]))
  }

  function TextsOf(args: seq<Argument>): (r: seq<string>)
    ensures |r| == |args|
  {
    seq(|args|, i requires 0 <= i < |args| => args[i].text)
  }

  /** Between apostrophes a backslash is a character like any other. */
  lemma {:induction false} ApostropheScan(text: string, rest: string)
    requires forall i :: 0 <= i < |text| ==> text[i] != '\''
    ensures QuotedLength(text + ("'" + rest), '\'') == |text|
  {
    if text == "" {
      assert text + ("'" + rest) == "'" + rest;
    } else {
      assert (text + ("'" + rest))[1..] == text[1..] + ("'" + rest);
      ApostropheScan(text[1..], rest);
    }
  }

  /** An escaped text without a space is one word. */
  lemma {:induction false} EscapedWord(text: string, rest: string)
    requires IsBytes(text) && (forall i :: 0 <= i < |text| ==> text[i] != ' ') && (rest == "" || IsSpace(rest[0]))
    ensures WordLength(Escaped(text) + rest) == |Escaped(text)|
  {
    if text == "" {
      assert Escaped(text) + rest == rest;
    } else {
      var e, tail := EscapedChar(text[0]), Escaped(text[1..]) + rest;
      assert Escaped(text) + rest == e + tail;
      EscapedWord(text[1..], rest);
      NoSpaceIn(text[0]);
      hide EscapedChar;
      WordAppend(e, tail);
    }
  }

  lemma NoSpaceIn(c: char)
    requires c != ' ' && c as int < 256
    ensures forall i :: 0 <= i < |EscapedChar(c)| ==> !IsSpace(EscapedChar(c)[i])
  {
  }

  lemma {:induction false} WordAppend(e: string, t: string)
    requires forall i :: 0 <= i < |e| ==> !IsSpace(e[i])
    ensures WordLength(e + t) == |e| + WordLength(t)
  {
    if e == "" {
      assert e + t == t;
    } else {
      assert (e + t)[1..] == e[1..] + t;
      WordAppend(e[1..], t);
    }
  }

  /** The first token of a line that starts with an argument. */
  lemma FirstTokenOfArgument(a: Argument, rest: string)
    requires Writable(a) && (rest == "" || IsSpace(rest[0]))
    ensures var t, w := WrittenArgument(a) + rest, WrittenArgument(a);
            && t != "" && w != "" && !IsSpace(w[0]) && FirstToken(t).text == a.text
            && FirstToken(t).to == if a.form == Bare then |w| else |w| - 1
  {
    hide Escaped, Resolved, QuotedLength, WordLength, SpaceRun;
    var t := WrittenArgument(a) + rest;
    match a.form {
      case InQuotes =>
        FirstTokenOfQuoted(a.text, rest);
      case InApostrophes =>
        ApostropheScan(a.text, rest);
        assert t[1..] == a.text + ("'" + rest);
        assert t[1..1 + |a.text|] == a.text;
      case Bare =>
        EscapedWord(a.text, rest);
        ResolvedEscaped(a.text);
        EscapedStart(a.text);
        FirstTokenOfWord(t);
        assert t[..|Escaped(a.text)|] == Escaped(a.text);
    }
  }

  lemma EscapedStart(text: string)
    requires text != "" && text[0] != '\'' && text[0] != ' ' && IsBytes(text)
    ensures Escaped(text) != "" && !IsDelim(Escaped(text)[0]) && !IsSpace(Escaped(text)[0])
  {
    NoSpaceIn(text[0]);
  }

  /** The first argument of a line is its first token, and the others are the tokens of the rest. */
  lemma TakeArgument(a: Argument, rest: string, room: nat)
    requires Writable(a) && (rest == "" || IsSpace(rest[0])) && room > 0
    ensures Tokens(a.space + (WrittenArgument(a) + rest), room) == [a.text] + Tokens(rest, room - 1)
  {
    hide WrittenArgument, FirstToken, Tokens, CStr, SpaceRun, IsBytes, NulFree;
    FirstTokenOfArgument(a, rest);
    CStrOfNulFree(a.text);
    TakeFirst(a.space, WrittenArgument(a), rest, room);
  }

  lemma TakeFirst(space: string, w: string, rest: string, room: nat)
    requires w != "" && !IsSpace(w[0]) && SpaceRun(space) == |space| && (rest == "" || IsSpace(rest[0])) && room > 0
    requires |w| <= FirstToken(w + rest).to + 1 <= |w| + 1
    ensures Tokens(space + (w + rest), room) == [CStr(FirstToken(w + rest).text)] + Tokens(rest, room - 1)
  {
    hide FirstToken, Tokens, CStr, SpaceRun;
    var t := w + rest;
    SpacesBefore(space, t);
    assert (space + t)[|space|..] == t;
    TokensTake(space + t, room);
    AfterToken(w, rest, FirstToken(t).to, room - 1);
  }

  lemma AfterToken(w: string, rest: string, to: nat, room: nat)
    requires to == |w| || to + 1 == |w|
    requires rest == "" || IsSpace(rest[0])
    ensures var t := w + rest; Tokens(if to < |t| then t[to + 1..] else "", room) == Tokens(rest, room)
  {
    hide Tokens;
    var t := w + rest;
    assert t[|w|..] == rest;
    if to == |w| && rest != "" {
      assert t[to + 1..] == rest[1..];
      AfterOneSpace(rest, room);
    }
  }

  lemma {:induction false} SpacesBefore(space: string, t: string)
    requires SpaceRun(space) == |space| && t != "" && !IsSpace(t[0])
    ensures SpaceRun(space + t) == |space|
  {
    if space == "" {
      assert space + t == t;
    } else {
      assert (space + t)[1..] == space[1..] + t;
      SpacesBefore(space[1..], t);
    }
  }

  lemma AfterOneSpace(rest: string, room: nat)
    requires rest != "" && IsSpace(rest[0])
    ensures Tokens(rest[1..], room) == Tokens(rest, room)
  {
    assert SpaceRun(rest) == 1 + SpaceRun(rest[1..]);
    hide Tokens, SpaceRun;
    TokensSkip(rest, room);
    TokensSkip(rest[1..], room);
    assert rest[1..][SpaceRun(rest[1..])..] == rest[SpaceRun(rest)..];
  }

  /** Arguments in quotes, in apostrophes or bare, with any whitespace before each, are read as their texts, the
      first 50 of them. */
  lemma LineRoundTrip(args: seq<Argument>)
    requires forall i :: 0 <= i < |args| ==> Writable(args[i])
    ensures Tokens(Line(args), MAX_ARGS) == TextsOf(if |args| <= 50 then args else args[..50])
  {
    LineUpTo(args, MAX_ARGS);
  }

  lemma {:induction false} LineUpTo(args: seq<Argument>, room: nat)
    requires forall i :: 0 <= i < |args| ==> Writable(args[i])
    ensures Tokens(Line(args), room) == TextsOf(if |args| <= room then args else args[..room])
  {
    hide Tokens, WrittenArgument, SpaceRun;
    if args == [] || room == 0 {
      NoTokens(Line(args), room);
    } else {
      LineStart(args[1..]);
      TakeArgument(args[0], Line(args[1..]), room);
      LineUpTo(args[1..], room - 1);
      var rest := if |args| <= room then args[1..] else args[1..][..room - 1];
      assert (if |args| <= room then args else args[..room]) == [args[0]] + rest;
    }
  }

  lemma LineStart(args: seq<Argument>)
    requires args != [] ==> Writable(args[0])
    ensures Line(args) == "" || IsSpace(Line(args)[0])
  {
  }
}
