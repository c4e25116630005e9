/** Indentation of EXPLAIN listings: the counting loop of `explain_data_prepare`. */
module ExplainIndent {

  /** One row of the listing: `addr`, `opcode`, `p1` and `p2`. */
  datatype Op = Op(addr: int, opcode: string, p1: int, p2: int)

  predicate IsNext(opcode: string) {
    opcode in {"Next", "Prev", "VPrev", "VNext", "SorterNext", "NextIfOpen", "PrevIfOpen"}
  }

  predicate IsYield(opcode: string) {
    opcode in {"Yield", "SeekLT", "SeekGT", "RowSetRead", "Rewind"}
  }

  predicate IsGoto(opcode: string) {
    opcode == "Goto"
  }

  /** The row that `p2` of row `i` points to, taken for an address. Sub-programs start again at address 0. */
  function Target(ops: seq<Op>, i: nat): int
    requires i < |ops|
  {
    ops[i].p2 + (i - ops[i].addr)
  }

  /** A jump that never points before the first row; only then are the accesses through it defined. */
  predicate InListing(ops: seq<Op>, i: nat)
    requires i < |ops|
  {
    IsNext(ops[i].opcode) || IsGoto(ops[i].opcode) ==> Target(ops, i) >= 0
  }

  /** Row `i` closes a loop: a Next-like operation, or a Goto back to a Yield-like one or with `p1` set. */
  predicate ClosesLoop(ops: seq<Op>, i: nat)
    requires i < |ops| && InListing(ops, i)
  {
    || IsNext(ops[i].opcode)
    || (IsGoto(ops[i].opcode) && Target(ops, i) <= i && (IsYield(ops[Target(ops, i)].opcode) || ops[i].p1 != 0))
  }

  /** How many loops closed by the first `n` rows enclose row `k`. */
  ghost function Enclosing(ops: seq<Op>, n: nat, k: int): nat
    requires n <= |ops| && forall i :: 0 <= i < n ==> InListing(ops, i)
  {
    if n == 0 then 0
    else Enclosing(ops, n - 1, k) + if ClosesLoop(ops, n - 1) && Target(ops, n - 1) <= k < n - 1 then 1 else 0
  }

  /** The loops closed by a set of rows, as intervals. */
  ghost function EnclosingLoops(ops: seq<Op>, n: nat, k: int): set<nat>
    requires n <= |ops| && forall i :: 0 <= i < n ==> InListing(ops, i)
  {
    set i: nat | i < n && ClosesLoop(ops, i) && Target(ops, i) <= k < i
  }

  /** A row encloses another, if and only if it is one of these operations, jumps back to it or before it, and comes
      after it. */
  lemma EnclosesIff(ops: seq<Op>, n: nat, i: nat, k: int)
    requires i < n <= |ops| && forall j :: 0 <= j < n ==> InListing(ops, j)
    ensures var op, target := ops[i].opcode, ops[i].p2 + i - ops[i].addr;
            i in EnclosingLoops(ops, n, k) <==>
            target <= k < i &&
            (op == "Next" || op == "Prev" || op == "VPrev" || op == "VNext" || op == "SorterNext" || op == "NextIfOpen"
             || op == "PrevIfOpen"
             || (op == "Goto" && 0 <= target &&
                 (ops[i].p1 != 0 || ops[target].opcode == "Yield" || ops[target].opcode == "SeekLT"
                  || ops[target].opcode == "SeekGT" || ops[target].opcode == "RowSetRead"
                  || ops[target].opcode == "Rewind")))
  {
    assert InListing(ops, i);
  }

  lemma OneMoreLoop(ops: seq<Op>, n: nat, k: int)
    requires n < |ops| && forall i :: 0 <= i <= n ==> InListing(ops, i)
    ensures var loops := EnclosingLoops(ops, n, k);
            n !in loops &&
            EnclosingLoops(ops, n + 1, k) == loops + if ClosesLoop(ops, n) && Target(ops, n) <= k < n then {n} else {}
  {
    hide ClosesLoop, Target, InListing;
  }

  lemma {:induction false} EnclosingCounts(ops: seq<Op>, n: nat, k: int)
    requires n <= |ops| && forall i :: 0 <= i < n ==> InListing(ops, i)
    ensures Enclosing(ops, n, k) == |EnclosingLoops(ops, n, k)|
  {
    if n == 0 {
      assert EnclosingLoops(ops, n, k) == {};
    } else {
      hide ClosesLoop, Target, InListing, EnclosingLoops;
      EnclosingCounts(ops, n - 1, k);
      OneMoreLoop(ops, n - 1, k);
    }
  }

  /** The part of the shell's state that the listing is printed with. */
  class ExplainState {
    var aiIndent: array<int>  // length 0 stands for the null pointer
    var nIndent: nat
    var iIndent: nat

    constructor ()
      ensures aiIndent.Length == 0 && nIndent == 0 && iIndent == 0
    {
      aiIndent, nIndent, iIndent := new int[0], 0, 0;
    }

    /** The rows up to `iOp` that the loop closed by row `iOp` encloses move two columns to the right. */
    method Indent(p2op: int, iOp: nat)
      requires 0 <= p2op && iOp <= aiIndent.Length
      modifies aiIndent
      ensures forall k :: 0 <= k < aiIndent.Length ==>
                aiIndent[k] == old(aiIndent[k]) + if p2op <= k < iOp then 2 else 0
    {
      var i := p2op;
      while i < iOp
        invariant p2op <= i
        invariant forall k :: 0 <= k < aiIndent.Length ==>
                    aiIndent[k] == old(aiIndent[k]) + if p2op <= k < i && k < iOp then 2 else 0
      {
        aiIndent[i] := aiIndent[i] + 2;
        i := i + 1;
      }
    }

    /** The arrays grow by 100 entries when they are full; new entries hold anything. */
    method Grow(abYield: array<bool>) returns (abYield': array<bool>)
      requires aiIndent.Length == abYield.Length
      modifies this`aiIndent
      ensures fresh(aiIndent) && fresh(abYield')
      ensures aiIndent.Length == abYield'.Length == old(aiIndent.Length) + 100
      ensures aiIndent[..old(aiIndent.Length)] == old(aiIndent[..]) && abYield'[..abYield.Length] == abYield[..]
    {
      var nAlloc := aiIndent.Length + 100;
      var grown := new int[nAlloc];
      abYield' := new bool[nAlloc];
      forall k | 0 <= k < aiIndent.Length {
        grown[k] := aiIndent[k];
      }
      forall k | 0 <= k < abYield.Length {
        abYield'[k] := abYield[k];
      }
      aiIndent := grown;
    }

    /** One row of the listing. */
    method PrepareRow(ops: seq<Op>, iOp: nat, abYield: array<bool>)
      requires iOp < |ops| && nIndent == iOp < aiIndent.Length == abYield.Length
      requires forall i :: 0 <= i < |ops| ==> InListing(ops, i)
      requires forall k :: 0 <= k < iOp ==> abYield[k] == IsYield(ops[k].opcode)
      requires forall k :: 0 <= k < iOp ==> aiIndent[k] == 2 * Enclosing(ops, iOp, k)
      modifies this`nIndent, aiIndent, abYield
      ensures nIndent == iOp + 1
      ensures forall k :: 0 <= k <= iOp ==> abYield[k] == IsYield(ops[k].opcode)
      ensures forall k :: 0 <= k <= iOp ==> aiIndent[k] == 2 * Enclosing(ops, iOp + 1, k)
    {
      assert IsGoto(ops[iOp].opcode) ==> !IsNext(ops[iOp].opcode);
      hide IsNext, IsYield;
      NothingFollows(ops, iOp);
      assert InListing(ops, iOp);
      var op := ops[iOp];
      var p2op := op.p2 + (iOp - op.addr);
      abYield[iOp] := IsYield(op.opcode);
      aiIndent[iOp] := 0;
      nIndent := iOp + 1;
      if IsNext(op.opcode) {
        Indent(p2op, iOp);
      }
      if IsGoto(op.opcode) && p2op < nIndent && (abYield[p2op] || op.p1 != 0) {
        Indent(p2op, iOp);
      }
    }

    /** `explain_data_prepare`, for the rows of a statement that is an EXPLAIN: row `k` is indented by two columns for
        every loop around it. */
    method Prepare(ops: seq<Op>)
      requires aiIndent.Length == 0
      requires forall i :: 0 <= i < |ops| ==> InListing(ops, i)
      modifies this, aiIndent
      ensures |ops| <= aiIndent.Length && nIndent == |ops| && iIndent == 0
      ensures forall k :: 0 <= k < |ops| ==> aiIndent[k] == 2 * |EnclosingLoops(ops, |ops|, k)|
    {
      hide InListing, IsYield;
      var abYield := new bool[0];
      var iOp := 0;
      nIndent := 0;
      while iOp < |ops|
        invariant 0 <= iOp <= |ops| && nIndent == iOp <= aiIndent.Length == abYield.Length
        invariant fresh(abYield) && (fresh(aiIndent) || aiIndent == old(aiIndent))
        invariant forall k :: 0 <= k < iOp ==> abYield[k] == IsYield(ops[k].opcode)
        invariant forall k :: 0 <= k < iOp ==> aiIndent[k] == 2 * Enclosing(ops, iOp, k)
      {
        if iOp >= aiIndent.Length {
          ghost var was, wasYield := aiIndent[..], abYield[..];
          abYield := Grow(abYield);
          assert forall k :: 0 <= k < iOp ==> aiIndent[k] == aiIndent[..iOp][k] == was[k];
          assert forall k :: 0 <= k < iOp ==> abYield[k] == abYield[..iOp][k] == wasYield[k];
        }
        PrepareRow(ops, iOp, abYield);
        iOp := iOp + 1;
      }
      forall k | 0 <= k < |ops|
        ensures aiIndent[k] == 2 * |EnclosingLoops(ops, |ops|, k)|
      {
        EnclosingCounts(ops, |ops|, k);
      }
      iIndent := 0;
    }
  }

  lemma NothingFollows(ops: seq<Op>, n: nat)
    requires n < |ops| && forall i :: 0 <= i < |ops| ==> InListing(ops, i)
    ensures Enclosing(ops, n + 1, n) == 0
  {
    EnclosedBefore(ops, n + 1, n);
  }

  lemma {:induction false} EnclosedBefore(ops: seq<Op>, n: nat, k: nat)
    requires n <= |ops| && forall i :: 0 <= i < n ==> InListing(ops, i)
    requires n <= k + 1
    ensures Enclosing(ops, n, k) == 0
  {
    if n > 0 {
      EnclosedBefore(ops, n - 1, k);
    }
  }
}
