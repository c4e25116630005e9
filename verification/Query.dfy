/** The cursor of `MadQuery::Impl` over the result set of a statement. */
module Query {

  const SQLITE_OK: int := 0
  const SQLITE_ROW: int := 100
  const SQLITE_DONE: int := 101
  const CURSOR_STEP_UNKNOWN: int := -1

  /** A prepared statement: one step for every row, then one that ends it, with DONE or with an error. It must not be
      stepped further without a reset. */
  class Statement<R> {
    const rows: seq<R>
    const last: int
    var stepped: nat  // how often it was stepped since the last reset

    ghost predicate Valid()
      reads this
    {
      last > SQLITE_OK && last != SQLITE_ROW && stepped <= |rows| + 1
    }

    constructor (rows: seq<R>, last: int)
      requires last > SQLITE_OK && last != SQLITE_ROW
      ensures Valid() && stepped == 0 && this.rows == rows && this.last == last
    {
      this.rows, this.last, stepped := rows, last, 0;
    }

    predicate Failed()
      reads this
    {
      stepped > |rows| && last != SQLITE_DONE
    }

    method Step() returns (rc: int)
      requires Valid() && stepped <= |rows|
      modifies this
      ensures Valid() && stepped == old(stepped) + 1
      ensures rc == if stepped <= |rows| then SQLITE_ROW else last
    {
      stepped := stepped + 1;
      rc := if stepped <= |rows| then SQLITE_ROW else last;
    }

    /** Reports the error of the last step, if it ended in one. */
    method Reset() returns (rc: int)
      requires Valid()
      modifies this
      ensures Valid() && stepped == 0
      ensures rc == if old(Failed()) then last else SQLITE_OK
    {
      rc := if Failed() then last else SQLITE_OK;
      stepped := 0;
    }
  }

  class Cursor<R> {
    const statement: Statement<R>
    var position: int
    var stepResult: int

    /** The position is the index of the statement's row, `|rows|` after the last one. Only when `moveToFirst` failed
        because of an earlier error, the statement is already reset and the cursor is not. */
    ghost predicate Valid()
      reads this, statement
    {
      && statement.Valid()
      && if statement.stepped == 0 then
           || (position == -1 && stepResult == CURSOR_STEP_UNKNOWN)
           || (position == |statement.rows| && stepResult == statement.last != SQLITE_DONE)
         else
           && position == statement.stepped - 1
           && stepResult == if position < |statement.rows| then SQLITE_ROW else statement.last
    }

    constructor (statement: Statement<R>)
      requires statement.Valid() && statement.stepped == 0
      ensures Valid() && position == -1 && this.statement == statement
    {
      this.statement := statement;
      position, stepResult := -1, CURSOR_STEP_UNKNOWN;
    }

    predicate IsAfterLast()
      reads this
    {
      stepResult > CURSOR_STEP_UNKNOWN && stepResult != SQLITE_ROW
    }

    method MoveToFirst() returns (r: bool)
      requires Valid()
      modifies this, statement
      ensures Valid()
      ensures !old(statement.Failed()) ==> position == 0 && (r <==> statement.rows != [])
      ensures !old(statement.Failed()) ==> statement.stepped == 1
      ensures old(statement.Failed()) ==> !r && IsAfterLast() && statement.stepped == 0 && position == |statement.rows|
      ensures IsAfterLast() <==> !r
    {
      var rc := statement.Reset();
      if rc == SQLITE_OK {
        stepResult := statement.Step();
        position := 0;
        if stepResult == SQLITE_ROW {
          return true;
        }
      }
      return false;
    }

    /** The test of the step result in the source is always true: the result is false only after the last row. */
    method MoveToNext() returns (r: bool)
      requires Valid()
      modifies this, statement
      ensures Valid() && r == !old(IsAfterLast())
      ensures position == if r then old(position) + 1 else old(position)
      ensures r ==> statement.stepped == position + 1 && (IsAfterLast() <==> position == |statement.rows|)
      ensures !r ==> statement.stepped == old(statement.stepped)
    {
      if !IsAfterLast() {
        stepResult := statement.Step();
        position := position + 1;
        return true;
      }
      return false;
    }
  }

  /** The documented loop visits every row once, in order, unless an earlier error is still to be reported. */
  method Traverse<R>(q: Cursor<R>) returns (seen: seq<R>)
    requires q.Valid()
    modifies q, q.statement
    ensures q.Valid() && q.IsAfterLast()
    ensures seen == if old(q.statement.Failed()) then [] else q.statement.rows
  {
    seen := [];
    var first := q.MoveToFirst();
    while !q.IsAfterLast()
      invariant q.Valid()
      invariant if old(q.statement.Failed()) then q.IsAfterLast() && seen == []
                else 0 <= q.position <= |q.statement.rows| && seen == q.statement.rows[..q.position]
                     && (q.IsAfterLast() <==> q.position == |q.statement.rows|)
      decreases |q.statement.rows| - q.position
    {
      seen := seen + [q.statement.rows[q.position]];
      var more := q.MoveToNext();
    }
  }

  // ---------------------------------------------------------------- all runs of calls

  datatype Call = First | Next

  /** Where a cursor is, and whether the statement ended in an error that is still to be reported. */
  datatype Place = Place(position: int, failed: bool)

  /** The place after a call, on a statement of `n` rows that ends in an error if `fails`. */
  function Moved(p: Place, c: Call, n: nat, fails: bool): Place {
    match c
    case First => if p.failed then p.(failed := false) else Place(0, fails && n == 0)
    case Next => if p.position < n then Place(p.position + 1, fails && p.position + 1 == n) else p
  }

  function Run(calls: seq<Call>, n: nat, fails: bool): Place {
    if calls == [] then Place(-1, false)
    else Moved(Run(calls[..|calls| - 1], n, fails), calls[|calls| - 1], n, fails)
  }

  /** How many calls of `moveToNext` end the sequence. */
  function NextRun(calls: seq<Call>): (k: nat)
    ensures k <= |calls|
  {
    if calls == [] || calls[|calls| - 1] == First then 0 else 1 + NextRun(calls[..|calls| - 1])
  }

  /** The last `moveToFirst` found the error of an earlier step. */
  predicate FirstFailed(calls: seq<Call>, n: nat, fails: bool) {
    var before := calls[..|calls| - NextRun(calls)];
    before != [] && Run(before[..|before| - 1], n, fails).failed
  }

  /** After any calls the position counts the moves since the last `moveToFirst` and stops behind the last row -
      where it also is, if that `moveToFirst` failed. An error is pending exactly when the last step ended in one. */
  lemma {:induction false} PositionAfter(calls: seq<Call>, n: nat, fails: bool)
    ensures var p := Run(calls, n, fails);
            var moves := (if First in calls then 0 else -1) + NextRun(calls);
            && p.position == (if FirstFailed(calls, n, fails) || moves > n then n else moves)
            && p.failed == (fails && p.position == n && !FirstFailed(calls, n, fails))
  {
    if calls == [] {
      assert calls[..0] == [];
    } else {
      var init, last := calls[..|calls| - 1], calls[|calls| - 1];
      PositionAfter(init, n, fails);
      LastCall(calls, n, fails);
      hide FirstFailed, NextRun;
    }
  }

  /** How the last call changes what the position depends on. */
  lemma LastCall(calls: seq<Call>, n: nat, fails: bool)
    requires calls != []
    ensures var init := calls[..|calls| - 1];
            if calls[|calls| - 1] == First then
              First in calls && NextRun(calls) == 0 && FirstFailed(calls, n, fails) == Run(init, n, fails).failed
            else
              && (First in calls <==> First in init) && NextRun(calls) == NextRun(init) + 1
              && FirstFailed(calls, n, fails) == FirstFailed(init, n, fails)
  {
    hide Run;
    var init, last := calls[..|calls| - 1], calls[|calls| - 1];
    assert calls == init + [last];
    if last == Next {
      assert calls[..|calls| - NextRun(calls)] == init[..|init| - NextRun(init)];
    } else {
      assert calls[..|calls|] == calls;
    }
  }

  /** Of two calls of `moveToFirst` in a row the second one always moves the cursor to the first row. */
  lemma SecondFirst(calls: seq<Call>, n: nat, fails: bool)
    ensures Run(calls + [First] + [First], n, fails).position == 0
  {
    PositionAfter(calls, n, fails);
    var once, twice := calls + [First], calls + [First] + [First];
    assert once[..|once| - 1] == calls && twice[..|twice| - 1] == once;
  }

  /** Any sequence of calls on a new cursor. */
  method Replay<R>(q: Cursor<R>, calls: seq<Call>)
    requires q.Valid() && q.position == -1 && q.statement.stepped == 0
    modifies q, q.statement
    ensures q.Valid()
    ensures Place(q.position, q.statement.Failed())
         == Run(calls, |q.statement.rows|, q.statement.last != SQLITE_DONE)
  {
    ghost var n, fails := |q.statement.rows|, q.statement.last != SQLITE_DONE;
    var i := 0;
    while i < |calls|
      invariant 0 <= i <= |calls|
      invariant q.Valid() && Place(q.position, q.statement.Failed()) == Run(calls[..i], n, fails)
    {
      assert calls[..i + 1][..i] == calls[..i];
      match calls[i] {
        case First => var r := q.MoveToFirst();
        case Next => var r := q.MoveToNext();
      }
      i := i + 1;
    }
    assert calls[..i] == calls;
  }
}
