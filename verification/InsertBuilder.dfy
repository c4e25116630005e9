/** `MadDatabase::Impl::insert`: the INSERT statement for a set of content values, and the values bound to it. */
module InsertBuilder {
  import opened CStrings
  import opened Quoting
  import opened Shell
  import opened ContentValues

  // ---------------------------------------------------------------- the statement text

  function ColumnText(keys: seq<string>): string {
    if keys == [] then ""
    else "[" + keys[0] + "] " + (if |keys| == 1 then ")" else ",") + ColumnText(keys[1..])
  }

  function BindingText(keys: seq<string>): string {
    if keys == [] then ""
    else (if |keys| == 1 then "?);" else "?,") + BindingText(keys[1..])
  }

  function InsertText(table: string, keys: seq<string>): string {
    "INSERT INTO [" + table + "] (" + ColumnText(keys) + " VALUES (" + BindingText(keys)
  }

  predicate Distinct(keys: seq<string>) {
    forall i, j :: 0 <= i < j < |keys| ==> keys[i] != keys[j]
  }

  /** The text builder. It takes a key for the last one if it is equal to the last one, which is sound because no key
      occurs twice. */
  method BuildText(table: string, keys: seq<string>) returns (sql: string)
    requires Distinct(keys)
    ensures sql == InsertText(table, keys)
  {
    sql := "INSERT INTO [" + table + "] (";
    var bindings := " VALUES (";
    ghost var sql0, bindings0 := sql, bindings;
    var i := 0;
    assert keys[0..] == keys;
    while i < |keys|
      invariant 0 <= i <= |keys|
      invariant sql0 + ColumnText(keys) == sql + ColumnText(keys[i..])
      invariant bindings0 + BindingText(keys) == bindings + BindingText(keys[i..])
    {
      var key := keys[i];
      assert key == keys[|keys| - 1] <==> i == |keys| - 1;
      var end := if key == keys[|keys| - 1] then ")" else ",";
      var mark := if key == keys[|keys| - 1] then "?);" else "?,";
      assert keys[i..][1..] == keys[i + 1..];
      Concat(sql, "[" + key + "] " + end, ColumnText(keys[i + 1..]));
      Concat(bindings, mark, BindingText(keys[i + 1..]));
      sql := sql + ("[" + key + "] " + end);
      bindings := bindings + mark;
      i := i + 1;
    }
    assert sql == sql0 + ColumnText(keys) && bindings == bindings0 + BindingText(keys);
    Concat(sql0 + ColumnText(keys), bindings0, BindingText(keys));
    sql := sql + bindings;
  }

  // ---------------------------------------------------------------- reading the statement

  /** SQL text with its bracketed names set apart. */
  datatype Token = Other(c: char) | Bracket(name: string) | Unclosed

  function LexBracketed(s: string): seq<Token>
    decreases |s|
  {
    if s == "" then []
    else if s[0] != '[' then [Other(s[0])] + LexBracketed(s[1..])
    else
      var n := ClosingBracket(s[1..]);
      if 1 + n == |s| then [Unclosed] else [Bracket(s[1..1 + n])] + LexBracketed(s[n + 2..])
  }

  function Others(s: string): seq<Token> {
    seq(|s|, i requires 0 <= i < |s| => Other(s[i]))
  }

  /** Bracketed names, separated by commas and closed by a parenthesis. */
  function ParseColumns(ts: seq<Token>): Option<(seq<string>, seq<Token>)> {
    if |ts| < 3 || !ts[0].Bracket? || ts[1] != Other(' ') then None
    else if ts[2] == Other(')') then Some(([ts[0].name], ts[3..]))
    else if ts[2] != Other(',') then None
    else
      match ParseColumns(ts[3..])
      case None => None
      case Some((names, rest)) => Some(([ts[0].name] + names, rest))
  }

  /** The number of parameters, to the end of the statement. */
  function ParseParameters(ts: seq<Token>): Option<nat> {
    if |ts| < 2 || ts[0] != Other('?') then None
    else if ts[1..] == Others(");") then Some(1)
    else if ts[1] != Other(',') then None
    else
      match ParseParameters(ts[2..])
      case None => None
      case Some(n) => Some(n + 1)
  }

  /** A prepared INSERT: its table, its columns and the number of its parameters. */
  datatype Prepared = Prepared(table: string, columns: seq<string>, parameters: nat)

  function Prepare(sql: string): Option<Prepared> {
    var ts := LexBracketed(sql);
    var head, mid, values := Others("INSERT INTO "), Others(" ("), Others(" VALUES (");
    if |ts| < |head| + 1 + |mid| || ts[..|head|] != head || !ts[|head|].Bracket?
       || ts[|head| + 1..|head| + 1 + |mid|] != mid then None
    else
      match ParseColumns(ts[|head| + 1 + |mid|..])
      case None => None
      case Some((columns, rest)) =>
        if |rest| < |values| || rest[..|values|] != values then None
        else
          match ParseParameters(rest[|values|..])
          case None => None
          case Some(n) => Some(Prepared(ts[|head|].name, columns, n))
  }

  // ---------------------------------------------------------------- the statement says what it should

  /** A name that can stand between brackets. */
  predicate Bracketable(name: string) {
    ']' !in name
  }

  predicate AllBracketable(names: seq<string>) {
    forall i :: 0 <= i < |names| ==> Bracketable(names[i])
  }

  lemma {:induction false} LexOthers(s: string, rest: string)
    requires '[' !in s
    ensures LexBracketed(s + rest) == Others(s) + LexBracketed(rest)
  {
    if s == "" {
      assert s + rest == rest;
    } else {
      assert (s + rest)[1..] == s[1..] + rest;
      LexOthers(s[1..], rest);
    }
  }

  lemma {:induction false} BracketCloses(name: string, rest: string)
    requires Bracketable(name)
    ensures ClosingBracket(name + "]" + rest) == |name|
  {
    if name == "" {
      assert name + "]" + rest == "]" + rest;
    } else {
      assert (name + "]" + rest)[1..] == name[1..] + "]" + rest;
      BracketCloses(name[1..], rest);
    }
  }

  lemma LexBracket(name: string, rest: string)
    requires Bracketable(name)
    ensures LexBracketed("[" + name + "]" + rest) == [Bracket(name)] + LexBracketed(rest)
  {
    var s := "[" + name + "]" + rest;
    assert s[1..] == name + "]" + rest && s[1..1 + |name|] == name && s[|name| + 2..] == rest;
    BracketCloses(name, rest);
  }

  function ColumnTokens(keys: seq<string>): seq<Token> {
    if keys == [] then []
    else [Bracket(keys[0]), Other(' '), Other(if |keys| == 1 then ')' else ',')] + ColumnTokens(keys[1..])
  }

  lemma LexColumn(key: string, end: char, tail: string)
    requires Bracketable(key) && end != '['
    ensures LexBracketed("[" + key + "] " + [end] + tail) == [Bracket(key), Other(' '), Other(end)] + LexBracketed(tail)
  {
    var s := "[" + key + "] " + [end] + tail;
    var rest := [' ', end] + tail;
    assert s == "[" + key + "]" + rest;
    LexBracket(key, rest);
    assert rest[1..] == [end] + tail && rest[1..][1..] == tail;
  }

  lemma {:induction false} LexColumns(keys: seq<string>, rest: string)
    requires AllBracketable(keys)
    ensures LexBracketed(ColumnText(keys) + rest) == ColumnTokens(keys) + LexBracketed(rest)
  {
    hide LexBracketed;
    if keys == [] {
      assert ColumnText(keys) + rest == rest;
    } else {
      var end := if |keys| == 1 then ')' else ',';
      LexColumn(keys[0], end, ColumnText(keys[1..]) + rest);
      Concat("[" + keys[0] + "] " + [end], ColumnText(keys[1..]), rest);
      LexColumns(keys[1..], rest);
      Concat([Bracket(keys[0]), Other(' '), Other(end)], ColumnTokens(keys[1..]), LexBracketed(rest));
    }
  }

  lemma {:induction false} ParseColumnTokens(keys: seq<string>, rest: seq<Token>)
    requires keys != []
    ensures ParseColumns(ColumnTokens(keys) + rest) == Some((keys, rest))
  {
    var ts := ColumnTokens(keys) + rest;
    assert ts[3..] == ColumnTokens(keys[1..]) + rest;
    assert keys == [keys[0]] + keys[1..];
    if |keys| == 1 {
      assert ColumnTokens(keys[1..]) == [] && keys == [keys[0]];
      assert ts[3..] == rest;
    } else {
      ParseColumnTokens(keys[1..], rest);
    }
  }

  lemma {:induction false} BindingsHaveNoBracket(keys: seq<string>)
    ensures '[' !in BindingText(keys)
  {
    if keys != [] {
      BindingsHaveNoBracket(keys[1..]);
    }
  }

  lemma {:induction false} ParseBindings(keys: seq<string>)
    requires keys != []
    ensures ParseParameters(Others(BindingText(keys))) == Some(|keys|)
  {
    var ts := Others(BindingText(keys));
    if |keys| == 1 {
      assert BindingText(keys) == "?);" && BindingText(keys[1..]) == "";
      assert ts[1..] == Others(");");
    } else {
      var rest := BindingText(keys[1..]);
      assert BindingText(keys) == "?," + rest && ts[2..] == Others(rest);
      assert ts[1] != Others(");")[0];
      ParseBindings(keys[1..]);
    }
  }

  lemma LexHead(table: string, tail: string)
    requires Bracketable(table)
    ensures LexBracketed("INSERT INTO " + ("[" + table + "]" + (" (" + tail)))
         == Others("INSERT INTO ") + ([Bracket(table)] + (Others(" (") + LexBracketed(tail)))
  {
    hide LexBracketed, Bracketable, Others;
    LexOthers(" (", tail);
    LexBracket(table, " (" + tail);
    LexOthers("INSERT INTO ", "[" + table + "]" + (" (" + tail));
  }

  lemma LexBindings(keys: seq<string>)
    ensures LexBracketed(BindingText(keys)) == Others(BindingText(keys))
  {
    assert LexBracketed("") == [];
    hide LexBracketed, BindingText;
    BindingsHaveNoBracket(keys);
    LexOthers(BindingText(keys), "");
    assert BindingText(keys) + "" == BindingText(keys);
  }

  lemma LexTail(keys: seq<string>)
    requires AllBracketable(keys)
    ensures LexBracketed(ColumnText(keys) + (" VALUES (" + BindingText(keys)))
         == ColumnTokens(keys) + (Others(" VALUES (") + Others(BindingText(keys)))
  {
    hide LexBracketed, Bracketable, ColumnText, ColumnTokens, BindingText, Others;
    LexBindings(keys);
    LexOthers(" VALUES (", BindingText(keys));
    LexColumns(keys, " VALUES (" + BindingText(keys));
  }

  lemma LexInsert(table: string, keys: seq<string>)
    requires Bracketable(table) && AllBracketable(keys)
    ensures LexBracketed(InsertText(table, keys)) ==
            Others("INSERT INTO ") + ([Bracket(table)] + (Others(" (") +
            (ColumnTokens(keys) + (Others(" VALUES (") + Others(BindingText(keys))))))
  {
    hide LexBracketed, ColumnText, BindingText, ColumnTokens, Others, InsertText, Bracketable;
    LexTail(keys);
    LexHead(table, ColumnText(keys) + (" VALUES (" + BindingText(keys)));
    InsertTextParts(table, keys);
  }

  lemma InsertTextParts(table: string, keys: seq<string>)
    ensures InsertText(table, keys)
         == "INSERT INTO " + ("[" + table + "]" + (" (" + (ColumnText(keys) + (" VALUES (" + BindingText(keys)))))
  {
    hide ColumnText, BindingText;
    assert "INSERT INTO [" == "INSERT INTO " + "[" && "] (" == "]" + " (";
    Regroup("INSERT INTO ", "[", table, "]", " (", ColumnText(keys), " VALUES (", BindingText(keys));
  }

  lemma Regroup(a: string, b: string, c: string, d: string, e: string, f: string, g: string, h: string)
    ensures (a + b) + c + (d + e) + f + g + h == a + (b + c + d + (e + (f + (g + h))))
  {
    Concat(a, b, c);
    Concat(a + (b + c), d, e);
    Concat(a, b + c, d);
    var abcd := a + (b + c + d);
    Concat(abcd + e, f, g);
    Concat(abcd + e, f + g, h);
    Concat(f, g, h);
    Concat(abcd, e, f + (g + h));
    Concat(a, b + c + d, e + (f + (g + h)));
  }

  /** Preparing a statement that is put together from its parts. */
  lemma PrepareParts(sql: string, table: string, columns: seq<Token>, bindings: seq<Token>)
    requires LexBracketed(sql) == Others("INSERT INTO ") +
                         ([Bracket(table)] + (Others(" (") + (columns + (Others(" VALUES (") + bindings))))
    ensures Prepare(sql) ==
            match ParseColumns(columns + (Others(" VALUES (") + bindings))
            case None => None
            case Some((names, rest)) =>
              if |rest| < 9 || rest[..9] != Others(" VALUES (") then None
              else match ParseParameters(rest[9..])
                   case None => None
                   case Some(n) => Some(Prepared(table, names, n))
  {
    hide LexBracketed, ParseColumns, ParseParameters;
    var ts := LexBracketed(sql);
    assert ts[..12] == Others("INSERT INTO ") && ts[12] == Bracket(table);
    assert ts[13..15] == Others(" (") && ts[15..] == columns + (Others(" VALUES (") + bindings);
  }

  lemma PrepareInsert(table: string, keys: seq<string>)
    requires keys != [] && Bracketable(table) && AllBracketable(keys)
    ensures Prepare(InsertText(table, keys)) == Some(Prepared(table, keys, |keys|))
  {
    hide LexBracketed, Prepare, ParseColumns, ParseParameters;
    var bindings := Others(BindingText(keys));
    LexInsert(table, keys);
    PrepareParts(InsertText(table, keys), table, ColumnTokens(keys), bindings);
    var rest := Others(" VALUES (") + bindings;
    ParseColumnTokens(keys, rest);
    assert rest[..9] == Others(" VALUES (") && rest[9..] == bindings;
    ParseBindings(keys);
  }

  predicate NamesBracketable(ts: seq<Token>) {
    forall i :: 0 <= i < |ts| && ts[i].Bracket? ==> Bracketable(ts[i].name)
  }

  lemma {:induction false} NamesAreBracketable(s: string)
    ensures NamesBracketable(LexBracketed(s))
    decreases |s|
  {
    hide Bracketable;
    if s != "" {
      if s[0] != '[' {
        NamesAreBracketable(s[1..]);
      } else {
        var n := ClosingBracket(s[1..]);
        if 1 + n < |s| {
          UpToClosing(s[1..]);
          assert s[1..1 + n] == s[1..][..n];
          NamesAreBracketable(s[n + 2..]);
        }
      }
    }
  }

  lemma {:induction false} UpToClosing(s: string)
    ensures Bracketable(s[..ClosingBracket(s)])
  {
    if s != "" && s[0] != ']' {
      UpToClosing(s[1..]);
      assert s[..ClosingBracket(s)] == [s[0]] + s[1..][..ClosingBracket(s[1..])];
    }
  }

  lemma NamesInSuffix(ts: seq<Token>, n: nat)
    requires NamesBracketable(ts) && n <= |ts|
    ensures NamesBracketable(ts[n..])
  {
    hide Bracketable;
  }

  lemma {:induction false} ParsedColumnsAreNames(ts: seq<Token>)
    requires NamesBracketable(ts)
    ensures ParseColumns(ts).Some? ==> AllBracketable(ParseColumns(ts).value.0)
  {
    hide Bracketable;
    if |ts| >= 3 && ts[2] == Other(',') {
      NamesInSuffix(ts, 3);
      ParsedColumnsAreNames(ts[3..]);
    }
  }

  /** Whatever is prepared, its names hold no closing bracket. */
  lemma PreparedNames(sql: string)
    ensures var r := Prepare(sql);
            r.Some? ==> Bracketable(r.value.table) && AllBracketable(r.value.columns)
  {
    hide LexBracketed, ParseColumns, ParseParameters, Bracketable, AllBracketable, Others;
    var ts := LexBracketed(sql);
    NamesAreBracketable(sql);
    var n := |Others("INSERT INTO ")| + 1 + |Others(" (")|;
    if |ts| >= n {
      NamesInSuffix(ts, n);
      ParsedColumnsAreNames(ts[n..]);
    }
  }

  /** The statement names the table and, one for one, the keys, with one parameter each - if and only if no name holds a
      closing bracket. */
  lemma FaithfulIff(table: string, keys: seq<string>)
    requires keys != []
    ensures Prepare(InsertText(table, keys)) == Some(Prepared(table, keys, |keys|))
       <==> Bracketable(table) && AllBracketable(keys)
  {
    hide Prepare, InsertText, Bracketable, AllBracketable;
    PreparedNames(InsertText(table, keys));
    if Bracketable(table) && AllBracketable(keys) {
      PrepareInsert(table, keys);
    }
  }

  // ---------------------------------------------------------------- insertion

  /** The row that a statement inserts. Columns are found without regard to letter case, and a column that is named
      twice has the first of its parameters; one that nothing was bound to has NULL. The row names columns in lower
      case. */
  function RowOf(columns: seq<string>, params: seq<Option<Data>>): map<string, Option<Data>>
    requires |columns| == |params|
  {
    if columns == [] then map[] else RowOf(columns[1..], params[1..])[Lower(columns[0]) := params[0]]
  }

  /** The parameter of some column of that name. */
  ghost predicate ComesFrom(columns: seq<string>, params: seq<Option<Data>>, c: string, value: Option<Data>)
    requires |columns| == |params|
  {
    exists i :: 0 <= i < |columns| && Lower(columns[i]) == c && params[i] == value
  }

  lemma ComesFromRest(columns: seq<string>, params: seq<Option<Data>>, c: string, value: Option<Data>)
    requires |columns| == |params| > 0 && ComesFrom(columns[1..], params[1..], c, value)
    ensures ComesFrom(columns, params, c, value)
  {
    hide Lower;
    var i :| 0 <= i < |columns| - 1 && Lower(columns[1..][i]) == c && params[1..][i] == value;
    assert columns[i + 1] == columns[1..][i] && params[i + 1] == params[1..][i];
  }

  /** The row has exactly the named columns, each with the parameter of one of its names. */
  lemma {:induction false} RowOfColumns(columns: seq<string>, params: seq<Option<Data>>)
    requires |columns| == |params|
    ensures forall i :: 0 <= i < |columns| ==> Lower(columns[i]) in RowOf(columns, params)
    ensures forall c :: c in RowOf(columns, params) ==> ComesFrom(columns, params, c, RowOf(columns, params)[c])
  {
    if columns != [] {
      hide Lower, ComesFrom;
      var row := RowOf(columns[1..], params[1..]);
      RowOfColumns(columns[1..], params[1..]);
      FirstOne(columns, params);
      assert forall i :: 1 <= i < |columns| ==> columns[i] == columns[1..][i - 1];
      forall c | c in RowOf(columns, params)
        ensures ComesFrom(columns, params, c, RowOf(columns, params)[c])
      {
        if c != Lower(columns[0]) {
          ComesFromRest(columns, params, c, row[c]);
        }
      }
    }
  }

  lemma FirstOne(columns: seq<string>, params: seq<Option<Data>>)
    requires |columns| == |params| > 0
    ensures ComesFrom(columns, params, Lower(columns[0]), params[0])
  {
    hide Lower;
  }

  datatype Outcome = Rejected | Inserted(table: string, row: map<string, Option<Data>>)

  /** Executing a prepared statement with its parameters bound. */
  function Execute(stmt: Option<Prepared>, params: seq<Option<Data>>): Outcome {
    if stmt.None? || stmt.value.parameters != |params| || |stmt.value.columns| != |params| then Rejected
    else Inserted(stmt.value.table, RowOf(stmt.value.columns, params))
  }

  // ---------------------------------------------------------------- when the row is right

  /** Every key's value is in its column, and there is no other column. */
  ghost predicate Carries(row: map<string, Option<Data>>, contents: map<string, Data>) {
    && (forall k :: k in contents ==> Lower(k) in row && row[Lower(k)] == Some(contents[k]))
    && (forall c :: c in row ==> exists k :: k in contents && Lower(k) == c)
  }

  ghost predicate Faithful(r: Outcome, table: string, contents: map<string, Data>) {
    r.Inserted? && r.table == table && Carries(r.row, contents)
  }

  predicate KeysBracketable(contents: map<string, Data>) {
    forall k :: k in contents ==> Bracketable(k)
  }

  /** Keys that are equal but for letter case have the same value. */
  predicate NoCaseConflict(contents: map<string, Data>) {
    forall k, k' :: k in contents && k' in contents && Lower(k) == Lower(k') ==> contents[k] == contents[k']
  }

  ghost predicate BoundTo(keys: seq<string>, contents: map<string, Data>, params: seq<Option<Data>>) {
    && |params| == |keys| && (forall k :: k in keys <==> k in contents)
    && forall i :: 0 <= i < |keys| ==> params[i] == Some(contents[keys[i]])
  }

  lemma LowerKeepsBracket(s: string, t: string)
    requires Lower(s) == Lower(t) && Bracketable(s)
    ensures Bracketable(t)
  {
    assert |Lower(s)| == |s| && |Lower(t)| == |t|;
    forall i | 0 <= i < |t|
      ensures t[i] != ']'
    {
      assert Lower(t)[i] == Lower(s)[i] && s[i] in s;
    }
  }

  /** A value from the parameters of a column is the value of every key for it. */
  lemma NoConflictValue(keys: seq<string>, contents: map<string, Data>, params: seq<Option<Data>>, k: string,
      value: Option<Data>)
    requires BoundTo(keys, contents, params) && NoCaseConflict(contents)
    requires k in contents && ComesFrom(keys, params, Lower(k), value)
    ensures value == Some(contents[k])
  {
    hide Lower;
    var i :| 0 <= i < |keys| && Lower(keys[i]) == Lower(k) && params[i] == value;
    assert keys[i] in keys;
  }

  /** With the keys for columns the row is right, if and only if no letter-case conflict loses a value. */
  lemma RowIff(keys: seq<string>, contents: map<string, Data>, params: seq<Option<Data>>)
    requires BoundTo(keys, contents, params)
    ensures Carries(RowOf(keys, params), contents) <==> NoCaseConflict(contents)
  {
    hide Lower, RowOf, ComesFrom;
    var row := RowOf(keys, params);
    RowOfColumns(keys, params);
    forall k | k in contents
      ensures Lower(k) in row
    {
      var i :| 0 <= i < |keys| && keys[i] == k;
    }
    forall c | c in row
      ensures exists k :: k in contents && Lower(k) == c
    {
      SomeKey(keys, contents, params, c, row[c]);
    }
    if NoCaseConflict(contents) {
      forall k | k in contents
        ensures row[Lower(k)] == Some(contents[k])
      {
        NoConflictValue(keys, contents, params, k, row[Lower(k)]);
      }
    }
  }

  lemma SomeKey(keys: seq<string>, contents: map<string, Data>, params: seq<Option<Data>>, c: string,
      value: Option<Data>)
    requires BoundTo(keys, contents, params) && ComesFrom(keys, params, c, value)
    ensures exists k :: k in contents && Lower(k) == c
  {
    hide Lower;
    var i :| 0 <= i < |keys| && Lower(keys[i]) == c && params[i] == value;
    assert keys[i] in keys;
  }

  /** Only bracketable keys can be columns. */
  lemma CarriedKeys(columns: seq<string>, params: seq<Option<Data>>, contents: map<string, Data>)
    requires |columns| == |params| && AllBracketable(columns) && Carries(RowOf(columns, params), contents)
    ensures KeysBracketable(contents)
  {
    hide Lower, RowOf, Bracketable;
    RowOfColumns(columns, params);
    forall k | k in contents
      ensures Bracketable(k)
    {
      var i :| 0 <= i < |columns| && Lower(columns[i]) == Lower(k);
      LowerKeepsBracket(columns[i], k);
    }
  }

  /** The statement puts every value into the column of its key, if and only if no name holds a closing bracket and
      no two keys with different values are equal but for letter case. */
  lemma OutcomeIff(table: string, keys: seq<string>, contents: map<string, Data>, params: seq<Option<Data>>)
    requires keys != [] && BoundTo(keys, contents, params)
    ensures Faithful(Execute(Prepare(InsertText(table, keys)), params), table, contents)
       <==> Bracketable(table) && KeysBracketable(contents) && NoCaseConflict(contents)
  {
    hide Prepare, InsertText, Bracketable, AllBracketable, KeysBracketable, NoCaseConflict, Carries, RowOf, BoundTo;
    var stmt := Prepare(InsertText(table, keys));
    FaithfulIff(table, keys);
    PreparedNames(InsertText(table, keys));
    SameNames(keys, contents, params);
    if KeysBracketable(contents) {
      RowIff(keys, contents, params);
    } else if stmt.Some? && |stmt.value.columns| == |params| && Carries(RowOf(stmt.value.columns, params), contents) {
      CarriedKeys(stmt.value.columns, params, contents);
    }
  }

  lemma SameNames(keys: seq<string>, contents: map<string, Data>, params: seq<Option<Data>>)
    requires BoundTo(keys, contents, params)
    ensures |params| == |keys| && (AllBracketable(keys) <==> KeysBracketable(contents))
  {
    hide Bracketable;
    forall k | k in contents
      ensures AllBracketable(keys) ==> Bracketable(k)
    {
      var i :| 0 <= i < |keys| && keys[i] == k;
    }
    assert forall i :: 0 <= i < |keys| ==> keys[i] in keys;
  }

  /** Of the values for the keys `a` and `A` one is lost, although the insertion succeeds. */
  lemma LetterCaseConflict(table: string, v: Data, w: Data, params: seq<Option<Data>>)
    requires v != w && params == [Some(v), Some(w)]
    ensures !Faithful(Execute(Prepare(InsertText(table, ["a", "A"])), params), table, map["a" := v, "A" := w])
  {
    assert Lower("a") == Lower("A");
    OutcomeIff(table, ["a", "A"], map["a" := v, "A" := w], params);
  }

  /** The binding loop: parameter `i + 1` gets the value of key `i`, by the getter of its type. */
  method BindValues(cv: ContentValues, keys: seq<string>, lib: Conversions) returns (params: seq<Option<Data>>)
    requires cv.Valid() && forall i :: 0 <= i < |keys| ==> keys[i] in cv.Contents()
    ensures |params| == |keys| && forall i :: 0 <= i < |keys| ==> params[i] == Some(cv.Contents()[keys[i]])
  {
    params := seq(|keys|, _ => None);
    var i := 0;
    while i < |keys|
      invariant 0 <= i <= |keys| == |params|
      invariant forall k :: 0 <= k < i ==> params[k] == Some(cv.Contents()[keys[k]])
    {
      var key := keys[i];
      var t := cv.TypeForKey(key);
      match t {
        case NONE =>
        case INT =>
          var n := cv.GetAsInteger(key, lib);
          params := params[i := Some(Integer(n))];
        case REAL =>
          var r := cv.GetAsReal(key, lib);
          params := params[i := Some(Real(r))];
        case TEXT =>
          var s := cv.GetAsText(key, lib);
          params := params[i := Some(Text(s))];
        case BLOB =>
          var bytes := cv.GetAsBlob(key);
          params := params[i := Some(Blob(bytes))];
      }
      i := i + 1;
    }
  }

  /** `insert`: every value arrives in the column of its key, and nothing else does - if and only if there are
      values, no name holds a closing bracket and no two keys with different values are equal but for letter case. */
  method Insert(table: string, cv: ContentValues, lib: Conversions) returns (r: Outcome)
    requires cv.Valid()
    ensures var values := cv.Contents();
            Faithful(r, table, values) <==>
            values != map[] && Bracketable(table) && KeysBracketable(values) && NoCaseConflict(values)
    ensures cv.Contents() == map[] ==> r == Rejected
  {
    hide Prepare, InsertText, Execute, Bracketable, KeysBracketable, NoCaseConflict, Carries;
    if cv.IsEmpty() {
      assert cv.Contents().Keys == cv.keySet;
      return Rejected;
    }
    var keys := cv.Keys();
    assert cv.Contents().Keys == cv.keySet && keys != [];
    var sql := BuildText(table, keys);
    var params := BindValues(cv, keys, lib);
    OutcomeIff(table, keys, cv.Contents(), params);
    return Execute(Prepare(sql), params);
  }

  /** The statement for two keys. */
  lemma InsertOfTwo(table: string, a: string, b: string)
    ensures InsertText(table, [a, b])
         == "INSERT INTO [" + table + "] (" + ("[" + a + "] ," + ("[" + b + "] )")) + " VALUES (" + "?,?);"
  {
    assert [a, b][1..] == [b] && [b][1..] == [];
    assert ColumnText([b]) == "[" + b + "] )" && BindingText([b]) == "?);";
    assert BindingText([a, b]) == "?," + "?);";
    hide BindingText;
    assert ColumnText([a, b]) == "[" + a + "] " + "," + ColumnText([b]);
    assert "] " + "," == "] ,";
  }
}
