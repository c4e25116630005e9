/** The transaction flag of `MadDatabase::Impl` against the transaction state of SQLite itself. The database is
    abstract: its contents are of any type `D`, and `meaning` says what each SQL text does. */
module Transaction {
  import opened CStrings
  import opened Shell

  // ---------------------------------------------------------------- the environment

  datatype Effect<!D> = Begin | Commit | Rollback | Update(f: D -> D)

  /** Inside a transaction the database remembers its contents at the begin. */
  datatype Db<D> = Db(data: D, snapshot: Option<D>) {
    predicate InTransaction() {
      snapshot.Some?
    }
  }

  /** Executing a statement; a transaction statement that does not fit the transaction state is an error. */
  function Execute<D>(db: Db<D>, e: Effect<D>): Db<D> {
    match e
    case Begin => if db.InTransaction() then db else db.(snapshot := Some(db.data))
    case Commit => db.(snapshot := None)
    case Rollback => if db.InTransaction() then Db(db.snapshot.value, None) else db
    case Update(f) => db.(data := f(db.data))
  }

  predicate Succeeds<D>(db: Db<D>, e: Effect<D>) {
    match e
    case Begin => !db.InTransaction()
    case Commit => db.InTransaction()
    case Rollback => db.InTransaction()
    case Update(_) => true
  }

  ghost predicate Sqlite<D>(meaning: string -> Effect<D>) {
    meaning("BEGIN").Begin? && meaning("COMMIT").Commit? && meaning("ROLLBACK").Rollback?
  }

  // ---------------------------------------------------------------- the wrapper

  datatype State<D> = State(db: Db<D>, isInTransaction: bool)

  datatype Call = BeginTransaction | CommitTransaction | RollbackTransaction | Exec(sql: string)

  const KEY_WORDS: set<string> := {"BEGIN", "COMMIT", "ROLLBACK"}

  /** The SQL text that a call passes on to SQLite, if any. */
  function Issued<D>(s: State<D>, c: Call): Option<string> {
    match c
    case BeginTransaction => if s.isInTransaction then None else Some("BEGIN")
    case CommitTransaction => if s.isInTransaction then Some("COMMIT") else None
    case RollbackTransaction => if s.isInTransaction then Some("ROLLBACK") else None
    case Exec(sql) => if Upper(sql) in KEY_WORDS then None else Some(sql)
  }

  /** A call. With `fault` SQLite refuses the statement, for instance because the database is locked; the flag changes
      nevertheless. */
  function Step<D>(meaning: string -> Effect<D>, s: State<D>, c: Call, fault: bool): State<D> {
    match Issued(s, c)
    case None => s
    case Some(sql) =>
      State(if fault then s.db else Execute(s.db, meaning(sql)),
            match c
            case BeginTransaction => true
            case CommitTransaction => false
            case RollbackTransaction => false
            case Exec(_) => s.isInTransaction)
  }

  class Database<D> {
    const meaning: string -> Effect<D>
    var db: Db<D>
    var isInTransaction: bool

    ghost function Abstract(): State<D>
      reads this
    {
      State(db, isInTransaction)
    }

    constructor (meaning: string -> Effect<D>, data: D)
      ensures this.meaning == meaning && Abstract() == State(Db(data, None), false)
    {
      this.meaning := meaning;
      db, isInTransaction := Db(data, None), false;
    }

    method ExecInternal(sql: string, fault: bool)
      modifies this`db
      ensures db == if fault then old(db) else Execute(old(db), meaning(sql))
    {
      if !fault {
        db := Execute(db, meaning(sql));
      }
    }

    method Begin(fault: bool)
      modifies this
      ensures Abstract() == Step(meaning, old(Abstract()), BeginTransaction, fault)
    {
      if !isInTransaction {
        ExecInternal("BEGIN", fault);
        isInTransaction := true;
      }
    }

    method Rollback(fault: bool)
      modifies this
      ensures Abstract() == Step(meaning, old(Abstract()), RollbackTransaction, fault)
    {
      if isInTransaction {
        ExecInternal("ROLLBACK", fault);
        isInTransaction := false;
      }
    }

    method Commit(fault: bool)
      modifies this
      ensures Abstract() == Step(meaning, old(Abstract()), CommitTransaction, fault)
    {
      if isInTransaction {
        ExecInternal("COMMIT", fault);
        isInTransaction := false;
      }
    }

    method ExecSql(sql: string, fault: bool)
      modifies this
      ensures Abstract() == Step(meaning, old(Abstract()), Exec(sql), fault)
    {
      var upper := Upper(sql);
      if upper in KEY_WORDS {
        return;
      }
      ExecInternal(sql, fault);
    }
  }

  /** The text is the word, each letter in either case. */
  predicate IsWord(sql: string, word: string) {
    |sql| == |word| &&
    forall i :: 0 <= i < |word| ==> sql[i] == word[i] || ('A' <= word[i] <= 'Z' && sql[i] as int == word[i] as int + 32)
  }

  lemma UpperIsWord(sql: string, word: string)
    requires forall i :: 0 <= i < |word| ==> 'A' <= word[i] <= 'Z'
    ensures Upper(sql) == word <==> IsWord(sql, word)
  {
    if IsWord(sql, word) {
      assert Upper(sql) == word;
    }
  }

  /** `exec` passes on every text but the three words, which change nothing in any state. */
  lemma ThreeWordsIgnored<D>(meaning: string -> Effect<D>, s: State<D>, sql: string, fault: bool)
    ensures IsWord(sql, "BEGIN") || IsWord(sql, "COMMIT") || IsWord(sql, "ROLLBACK") ==>
              Step(meaning, s, Exec(sql), fault) == s
    ensures !(IsWord(sql, "BEGIN") || IsWord(sql, "COMMIT") || IsWord(sql, "ROLLBACK")) ==>
              Step(meaning, s, Exec(sql), fault)
              == State(if fault then s.db else Execute(s.db, meaning(sql)), s.isInTransaction)
  {
    hide IsWord, Upper;
    UpperIsWord(sql, "BEGIN");
    UpperIsWord(sql, "COMMIT");
    UpperIsWord(sql, "ROLLBACK");
  }

  // ---------------------------------------------------------------- when the flag mirrors the database

  predicate Mirrors<D>(s: State<D>) {
    s.isInTransaction <==> s.db.InTransaction()
  }

  /** SQL that a caller may pass to `exec`: a bare keyword, which is ignored, or no transaction statement. */
  predicate Harmless<D>(meaning: string -> Effect<D>, c: Call) {
    c.Exec? ==> Upper(c.sql) in KEY_WORDS || meaning(c.sql).Update?
  }

  /** A call that issues no statement; an `exec` whose statement neither begins nor ends a transaction, or fails; or a
      begin, commit or rollback that SQLite does not refuse, which is the part that a caller learns only afterwards. */
  predicate KeepsMirror<D>(meaning: string -> Effect<D>, s: State<D>, c: Call, fault: bool) {
    match Issued(s, c)
    case None => true
    case Some(sql) => if c.Exec? then fault || meaning(sql).Update? || !Succeeds(s.db, meaning(sql)) else !fault
  }

  lemma StepMirrorsIff<D>(meaning: string -> Effect<D>, s: State<D>, c: Call, fault: bool)
    requires Sqlite(meaning) && Mirrors(s)
    ensures Mirrors(Step(meaning, s, c, fault)) <==> KeepsMirror(meaning, s, c, fault)
  {
  }

  // ---------------------------------------------------------------- all runs of calls

  /** A call, and whether SQLite refuses its statement. */
  datatype Attempt = Attempt(call: Call, fault: bool)

  function Next<D>(meaning: string -> Effect<D>, s: State<D>, a: Attempt): State<D> {
    Step(meaning, s, a.call, a.fault)
  }

  function Run<D>(meaning: string -> Effect<D>, s: State<D>, run: seq<Attempt>): State<D>
    decreases |run|
  {
    if run == [] then s else Run(meaning, Next(meaning, s, run[0]), run[1..])
  }

  /** The flag equals the database's own state before the first and after every call. */
  predicate AlwaysMirrors<D>(meaning: string -> Effect<D>, s: State<D>, run: seq<Attempt>)
    decreases |run|
  {
    Mirrors(s) && (run == [] || AlwaysMirrors(meaning, Next(meaning, s, run[0]), run[1..]))
  }

  predicate AllKeepMirror<D>(meaning: string -> Effect<D>, s: State<D>, run: seq<Attempt>)
    decreases |run|
  {
    run == [] ||
    (KeepsMirror(meaning, s, run[0].call, run[0].fault) && AllKeepMirror(meaning, Next(meaning, s, run[0]), run[1..]))
  }

  /** Through a run with any faults the flag always mirrors the database, if and only if every call keeps the mirror. */
  lemma {:induction false} RunMirrorsIff<D>(meaning: string -> Effect<D>, s: State<D>, run: seq<Attempt>)
    requires Sqlite(meaning) && Mirrors(s)
    ensures AlwaysMirrors(meaning, s, run) <==> AllKeepMirror(meaning, s, run)
    decreases |run|
  {
    if run != [] {
      hide KeepsMirror, Mirrors, Step, Next;
      var t := Next(meaning, s, run[0]);
      NextMirrorsIff(meaning, s, run[0]);
      if Mirrors(t) {
        RunMirrorsIff(meaning, t, run[1..]);
      } else {
        assert !AlwaysMirrors(meaning, t, run[1..]);
      }
    }
  }

  lemma NextMirrorsIff<D>(meaning: string -> Effect<D>, s: State<D>, a: Attempt)
    requires Sqlite(meaning) && Mirrors(s)
    ensures Mirrors(Next(meaning, s, a)) <==> KeepsMirror(meaning, s, a.call, a.fault)
  {
    hide KeepsMirror, Mirrors, Step;
    StepMirrorsIff(meaning, s, a.call, a.fault);
  }

  /** Every statement that a run passes on to SQLite fits the transaction state: BEGIN is never nested, COMMIT and
      ROLLBACK are issued inside a transaction only. */
  predicate AllSucceed<D>(meaning: string -> Effect<D>, s: State<D>, run: seq<Attempt>)
    decreases |run|
  {
    run == [] ||
    ((Issued(s, run[0].call).Some? ==> Succeeds(s.db, meaning(Issued(s, run[0].call).value))) &&
     AllSucceed(meaning, Next(meaning, s, run[0]), run[1..]))
  }

  /** A begin with a semicolon passes the filter of `exec`: the flag does not see it, and the next begin is nested. */
  lemma SemicolonIsNotFiltered<D>(meaning: string -> Effect<D>, s: State<D>)
    requires Sqlite(meaning) && meaning("BEGIN;").Begin? && Mirrors(s) && !s.isInTransaction
    ensures !Mirrors(Step(meaning, s, Exec("BEGIN;"), false))
    ensures !AllSucceed(meaning, s, [Attempt(Exec("BEGIN;"), false), Attempt(BeginTransaction, false)])
  {
    assert |Upper("BEGIN;")| == 6 && Upper("BEGIN;")[0] == 'B';
    var begin := Attempt(BeginTransaction, false);
    var run := [Attempt(Exec("BEGIN;"), false), begin];
    assert run[1..] == [begin];
    var t := Next(meaning, s, run[0]);
    assert Issued(t, BeginTransaction) == Some("BEGIN") && !Succeeds(t.db, meaning("BEGIN"));
    assert !AllSucceed(meaning, t, [begin]);
  }

  /** Harmless SQL, and no begin, commit or rollback that SQLite refuses. */
  ghost predicate AllHarmless<D>(meaning: string -> Effect<D>, run: seq<Attempt>) {
    forall i :: 0 <= i < |run| ==> Harmless(meaning, run[i].call) && (run[i].fault ==> run[i].call.Exec?)
  }

  lemma {:induction false} RunMirrors<D>(meaning: string -> Effect<D>, s: State<D>, run: seq<Attempt>)
    requires Sqlite(meaning) && Mirrors(s) && AllHarmless(meaning, run)
    ensures AlwaysMirrors(meaning, s, run) && AllSucceed(meaning, s, run)
    decreases |run|
  {
    if run != [] {
      assert Harmless(meaning, run[0].call);
      RunMirrors(meaning, Next(meaning, s, run[0]), run[1..]);
    }
  }

  lemma {:induction false} RunAppend<D>(meaning: string -> Effect<D>, s: State<D>, a: seq<Attempt>, b: seq<Attempt>)
    ensures Run(meaning, s, a + b) == Run(meaning, Run(meaning, s, a), b)
    decreases |a|
  {
    if a == [] {
      assert a + b == b;
    } else {
      assert (a + b)[1..] == a[1..] + b;
      RunAppend(meaning, Next(meaning, s, a[0]), a[1..], b);
    }
  }

  /** Calls between a begin and its end: more begins, which do nothing, and `exec`. */
  predicate Inside(run: seq<Attempt>) {
    forall i :: 0 <= i < |run| ==> run[i].call.BeginTransaction? || run[i].call.Exec?
  }

  /** The updates of a list of calls, outside any transaction; a refused one does nothing. */
  function Updates<D>(meaning: string -> Effect<D>, data: D, run: seq<Attempt>): D {
    if run == [] then data
    else
      var before := Updates(meaning, data, run[..|run| - 1]);
      var a := run[|run| - 1];
      var c := a.call;
      if c.Exec? && !a.fault && Upper(c.sql) !in KEY_WORDS && meaning(c.sql).Update? then meaning(c.sql).f(before)
      else before
  }

  lemma {:induction false} RunInside<D>(meaning: string -> Effect<D>, s: State<D>, run: seq<Attempt>)
    requires Sqlite(meaning) && AllHarmless(meaning, run) && Inside(run)
    requires s.isInTransaction && s.db.InTransaction()
    ensures Run(meaning, s, run) == State(Db(Updates(meaning, s.db.data, run), s.db.snapshot), true)
  {
    if run != [] {
      var init, a := run[..|run| - 1], run[|run| - 1];
      assert run == init + [a];
      assert Harmless(meaning, a.call) && (a.call.BeginTransaction? || a.call.Exec?);
      RunInside(meaning, s, init);
      RunAppend(meaning, s, init, [a]);
      var t := Run(meaning, s, init);
      assert [a][1..] == [];
      assert Run(meaning, t, [a]) == Next(meaning, t, a);
    }
  }

  /** A transaction that is rolled back leaves the database as it was at the matching begin; one that is committed
      leaves it as its updates alone would, refused statements aside. */
  lemma TransactionOutcome<D>(meaning: string -> Effect<D>, s: State<D>, run: seq<Attempt>, end: Call)
    requires Sqlite(meaning) && Mirrors(s) && !s.isInTransaction
    requires AllHarmless(meaning, run) && Inside(run) && (end.CommitTransaction? || end.RollbackTransaction?)
    ensures Run(meaning, s, [Attempt(BeginTransaction, false)] + run + [Attempt(end, false)])
         == State(Db(if end.CommitTransaction? then Updates(meaning, s.db.data, run) else s.db.data, None), false)
  {
    var first, last := Attempt(BeginTransaction, false), Attempt(end, false);
    var begun := Next(meaning, s, first);
    assert begun == State(Db(s.db.data, Some(s.db.data)), true);
    RunInside(meaning, begun, run);
    var t := Run(meaning, begun, run);
    RunAppend(meaning, s, [first] + run, [last]);
    RunAppend(meaning, s, [first], run);
    assert [first][1..] == [] && [last][1..] == [];
    assert Run(meaning, begun, []) == begun;
    assert Run(meaning, t, [last]) == Next(meaning, t, last);
  }
}
