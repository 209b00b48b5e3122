/** Aborting a transaction: the records an abort writes, when it restores every byte, and when
    the search for the BEGIN record makes it miss a SET. */
module Abort {
  import opened Bytes
  import opened LogSemantics
  import opened Recovery
  import opened Undo

  /** Where the scan of an abort starts: after the first BEGIN that carries `txn`, or at 0. */
  function ScanStart(log: seq<Record>, txn: nat): (start: nat)
    ensures start <= |log|
    ensures start > 0 ==> IsKind(log[start - 1], BEGIN) && log[start - 1].txn == txn
    ensures forall i :: 0 <= i < (if start > 0 then start - 1 else |log|) ==> !(IsKind(log[i], BEGIN) && log[i].txn == txn)
  {
    if log == [] then 0
    else
      var start := ScanStart(Init(log), txn);
      if start > 0 then start
      else if IsKind(Last(log), BEGIN) && Last(log).txn == txn then |log|
      else 0
  }

  /** The records an abort appends: ABORT_BEGIN, the CLRs, ABORT_END. */
  function AbortRecords(log: seq<Record>, txn: nat, lsn: nat): seq<Record> {
    var begun := log + [Control(lsn, txn, ABORT_BEGIN)];
    var stack := UndoStack(begun, txn, ScanStart(begun, txn));
    [Control(lsn, txn, ABORT_BEGIN)]
    + Compensations(begun, stack, lsn + 1)
    + [Control(lsn + 1 + |stack|, txn, ABORT_END)]
  }

  /** The same records when the scan is not cut short. */
  function UndoRecords(log: seq<Record>, txn: nat, lsn: nat): seq<Record> {
    var stack := UndoStack(log, txn, 0);
    [Control(lsn, txn, ABORT_BEGIN)] + Compensations(log, stack, lsn + 1) + [Control(lsn + 1 + |stack|, txn, ABORT_END)]
  }

  predicate SetOf(r: Record, txn: nat) {
    r.Set? && r.txn == txn
  }

  /** No SET of `txn` lies before the place where the scan starts. */
  predicate ScanSeesAll(log: seq<Record>, txn: nat) {
    forall i :: 0 <= i < ScanStart(log, txn) ==> !SetOf(log[i], txn)
  }

  lemma {:induction false} StackFrom(log: seq<Record>, txn: nat, from: nat)
    requires forall i :: 0 <= i < from && i < |log| ==> !SetOf(log[i], txn)
    ensures UndoStack(log, txn, from) == UndoStack(log, txn, 0)
  {
    if log == [] {
    } else {
      assert Last(log) == log[|log| - 1];
      StackFrom(Init(log), txn, from);
      var stack := UndoStack(Init(log), txn, 0);
      if |log| <= from {
        assert stack == [];
      }
    }
  }

  lemma {:induction false} StackHoldsAll(log: seq<Record>, txn: nat, i: nat)
    requires !HasClr(log, txn) && i < |log| && SetOf(log[i], txn)
    ensures i in UndoStack(log, txn, 0)
  {
    var pre := Init(log);
    if i < |pre| {
      assert forall k :: 0 <= k < |pre| ==> pre[k] == log[k];
      assert !HasClr(pre, txn);
      StackHoldsAll(pre, txn, i);
      var k :| 0 <= k < |UndoStack(pre, txn, 0)| && UndoStack(pre, txn, 0)[k] == i;
      assert Last(log) == log[|log| - 1];
      assert UndoStack(log, txn, 0)[k] == i;
    } else {
      var stack := UndoStack(pre, txn, 0);
      assert (stack + [i])[|stack|] == i;
    }
  }

  /** A first abort finds all the SETs of its transaction exactly when no BEGIN that happens to
      carry the same id follows one of them. */
  lemma ScanIsCompleteIff(log: seq<Record>, txn: nat)
    requires !HasClr(log, txn)
    ensures UndoStack(log, txn, ScanStart(log, txn)) == UndoStack(log, txn, 0) <==> ScanSeesAll(log, txn)
  {
    var from := ScanStart(log, txn);
    if ScanSeesAll(log, txn) {
      StackFrom(log, txn, from);
    } else {
      var i :| 0 <= i < from && SetOf(log[i], txn);
      StackHoldsAll(log, txn, i);
      assert i !in UndoStack(log, txn, from);
    }
  }

  lemma {:induction false} CompensationsExtend(log: seq<Record>, r: Record, indices: seq<nat>, lsn: nat)
    requires forall k :: 0 <= k < |indices| ==> indices[k] < |log| && log[indices[k]].Set?
    requires forall k :: 0 <= k < |indices| ==> (log + [r])[indices[k]] == log[indices[k]]
    decreases indices
    ensures Compensations(log + [r], indices, lsn) == Compensations(log, indices, lsn)
  {
    if indices == [] {
    } else {
      CompensationsExtend(log, r, indices[..|indices| - 1], lsn + 1);
    }
  }

  lemma ClrStep(base: Image, log: seq<Record>, txn: nat, lsn: nat)
    requires WellFormed(base, log) && txn !in Finished(log) && UndoStack(log, txn, 0) != []
    ensures var stack := UndoStack(log, txn, 0);
      var next := log + [Compensation(log[stack[|stack| - 1]], lsn)];
      && WellFormed(base, next)
      && Finished(next) == Finished(log)
      && UndoStack(next, txn, 0) == stack[..|stack| - 1]
  {
    var stack := UndoStack(log, txn, 0);
    var clr := Compensation(log[stack[|stack| - 1]], lsn);
    Snoc(log, clr);
    assert MayFollow(base, log, clr);
  }

  /** Appending the CLRs for a whole undo stack keeps the log well-formed and empties the stack. */
  lemma {:induction false} ClrsAreWellFormed(base: Image, log: seq<Record>, txn: nat, lsn: nat, stack: seq<nat>)
    requires WellFormed(base, log) && txn !in Finished(log) && stack == UndoStack(log, txn, 0)
    decreases |stack|
    ensures WellFormed(base, log + Compensations(log, stack, lsn))
    ensures UndoStack(log + Compensations(log, stack, lsn), txn, 0) == []
    ensures Finished(log + Compensations(log, stack, lsn)) == Finished(log)
  {
    hide WellFormed, Finished, UndoStack;
    if stack == [] {
      assert log + [] == log;
    } else {
      var n := |stack| - 1;
      var clr := Compensation(log[stack[n]], lsn);
      ClrStep(base, log, txn, lsn);
      ClrsAreWellFormed(base, log + [clr], txn, lsn + 1, stack[..n]);
      CompensationsExtend(log, clr, stack[..n], lsn + 1);
      var rest := Compensations(log, stack[..n], lsn + 1);
      assert (log + [clr]) + rest == log + ([clr] + rest);
    }
  }

  lemma AppendControl(base: Image, log: seq<Record>, r: Record)
    requires WellFormed(base, log) && r.Control? && MayFollow(base, log, r)
    ensures WellFormed(base, log + [r])
    ensures forall txn: nat :: UndoStack(log + [r], txn, 0) == UndoStack(log, txn, 0)
    ensures Finished(log + [r])
         == Finished(log) + (if r.kind == COMMIT || r.kind == ABORT_END then {r.txn} else {})
  {
    Snoc(log, r);
  }

  lemma ScanStartExtend(log: seq<Record>, r: Record, txn: nat)
    requires !IsKind(r, BEGIN)
    ensures ScanStart(log + [r], txn) == ScanStart(log, txn)
    ensures ScanSeesAll(log, txn) ==> ScanSeesAll(log + [r], txn)
  {
    Snoc(log, r);
  }

  /** The abort records, once the scan is known to see every SET. */
  lemma AbortUndoesAll(log: seq<Record>, txn: nat, lsn: nat)
    requires ScanSeesAll(log, txn)
    ensures AbortRecords(log, txn, lsn) == UndoRecords(log, txn, lsn)
  {
    hide Compensations, ScanStart;
    var r := Control(lsn, txn, ABORT_BEGIN);
    Snoc(log, r);
    ScanStartExtend(log, r, txn);
    StackFrom(log + [r], txn, ScanStart(log + [r], txn));
    CompensationsExtend(log, r, UndoStack(log, txn, 0), lsn + 1);
  }

  /** What an abort appends obeys the log discipline, record by record, and finishes `txn`. */
  lemma UndoIsWellFormed(base: Image, log: seq<Record>, txn: nat, lsn: nat)
    requires WellFormed(base, log) && txn !in Finished(log)
    ensures WellFormed(base, log + UndoRecords(log, txn, lsn))
    ensures UndoStack(log + UndoRecords(log, txn, lsn), txn, 0) == []
    ensures Finished(log + UndoRecords(log, txn, lsn)) == Finished(log) + {txn}
  {
    hide Compensations, Finished, WellFormed, UndoStack;
    var r := Control(lsn, txn, ABORT_BEGIN);
    var stack := UndoStack(log, txn, 0);
    var end := Control(lsn + 1 + |stack|, txn, ABORT_END);
    var clrs := Compensations(log, stack, lsn + 1);
    AppendControl(base, log, r);
    CompensationsExtend(log, r, stack, lsn + 1);
    ClrsAreWellFormed(base, log + [r], txn, lsn + 1, stack);
    AppendControl(base, log + [r] + clrs, end);
    assert log + UndoRecords(log, txn, lsn) == log + [r] + clrs + [end];
  }

  lemma {:induction false} WellFormedPrefix(base: Image, log: seq<Record>, k: nat)
    requires WellFormed(base, log) && k <= |log|
    ensures WellFormed(base, log[..k])
    ensures k < |log| ==> MayFollow(base, log[..k], log[k])
  {
    if k == |log| {
      assert log[..k] == log;
    } else if k == |log| - 1 {
      assert Init(log) == log[..k];
    } else {
      WellFormedPrefix(base, Init(log), k);
      assert Init(log)[..k] == log[..k];
    }
  }

  lemma UndoUnwinds(base: Image, log: seq<Record>, txn: nat, lsn: nat, b: nat)
    ensures Redo(base(b), log + UndoRecords(log, txn, lsn), b)
         == Unwound(Redo(base(b), log, b), log, UndoStack(log, txn, 0), b)
  {
    hide Compensations, UndoStack, Unwound;
    var v := base(b);
    var r := Control(lsn, txn, ABORT_BEGIN);
    var stack := UndoStack(log, txn, 0);
    var clrs := Compensations(log, stack, lsn + 1);
    var end := Control(lsn + 1 + |stack|, txn, ABORT_END);
    Snoc(log, r);
    Snoc(log + [r] + clrs, end);
    assert Redo(v, log + [r], b) == Redo(v, log, b);
    assert log + UndoRecords(log, txn, lsn) == log + [r] + clrs + [end];
    RedoConcat(v, log + [r], clrs, b);
    CompensationsUnwind(Redo(v, log, b), log, stack, lsn + 1, b);
  }

  /** Index of the first SET of the transaction at `b`, or the length of the log. */
  function FirstSetOf(log: seq<Record>, txn: nat, b: nat): (i: nat)
    ensures i <= |log|
    ensures i < |log| ==> SetOf(log[i], txn) && Covers(log[i], b)
    ensures forall k :: 0 <= k < i ==> !(SetOf(log[k], txn) && Covers(log[k], b))
  {
    if log == [] then 0
    else
      var i := FirstSetOf(Init(log), txn, b);
      if i < |log| - 1 || (SetOf(Last(log), txn) && Covers(Last(log), b)) then i else |log|
  }

  /** Undoing restores: every byte the transaction SET goes back to what it was before the first of
      those SETs, and no other byte changes. The log may already hold CLRs of the transaction. */
  lemma UndoRestores(base: Image, log: seq<Record>, txn: nat, lsn: nat, b: nat)
    requires WellFormed(base, log) && txn !in Finished(log)
    ensures Redo(base(b), log + UndoRecords(log, txn, lsn), b) == Redo(base(b), log[..FirstSetOf(log, txn, b)], b)
  {
    hide UndoRecords, MayFollow, RecordsOldValue;
    var v := base(b);
    var first := FirstSetOf(log, txn, b);
    UndoUnwinds(base, log, txn, lsn, b);
    if first < |log| {
      WellFormedIsGood(base, log, b);
      var i := FirstOpen(log, Finished(log), b);
      assert SetsAt(log[first], b);
      assert 0 <= i <= first;
      assert log[first].txn == log[i].txn;
      assert i == first;
      SetFoundThis(base, log, first, b);
    } else {
      assert log[..first] == log;
      var stack := UndoStack(log, txn, 0);
      assert forall k :: 0 <= k < |stack| ==> SetOf(log[stack[k]], txn) && !Covers(log[stack[k]], b);
      UnwoundUncovered(Redo(v, log, b), log, stack, b);
    }
  }

  lemma SetFoundThis(base: Image, log: seq<Record>, i: nat, b: nat)
    requires WellFormed(base, log) && i < |log| && SetsAt(log[i], b)
    ensures OldAt(log[i], b) == Redo(base(b), log[..i], b)
  {
    hide WellFormed;
    WellFormedPrefix(base, log, i);
  }

  /** Abort restores, whenever its scan sees all SETs of the transaction. */
  lemma AbortRestores(base: Image, log: seq<Record>, txn: nat, lsn: nat, b: nat)
    requires WellFormed(base, log) && txn !in Finished(log) && ScanSeesAll(log, txn)
    ensures WellFormed(base, log + AbortRecords(log, txn, lsn))
    ensures Finished(log + AbortRecords(log, txn, lsn)) == Finished(log) + {txn}
    ensures Redo(base(b), log + AbortRecords(log, txn, lsn), b) == Redo(base(b), log[..FirstSetOf(log, txn, b)], b)
  {
    hide WellFormed, Finished, UndoRecords, Redo;
    AbortUndoesAll(log, txn, lsn);
    UndoIsWellFormed(base, log, txn, lsn);
    UndoRestores(base, log, txn, lsn, b);
  }

  /** A second abort of the same transaction finds nothing left to undo. */
  lemma SecondAbortChangesNothing(base: Image, log: seq<Record>, txn: nat, lsn: nat, lsn': nat, b: nat)
    requires WellFormed(base, log) && txn !in Finished(log) && ScanSeesAll(log, txn)
    ensures var done := log + AbortRecords(log, txn, lsn);
      Redo(base(b), done + AbortRecords(done, txn, lsn'), b) == Redo(base(b), done, b)
  {
    hide WellFormed, Finished, UndoStack, Compensations, ScanSeesAll, ScanStart, Redo;
    AbortUndoesAll(log, txn, lsn);
    UndoIsWellFormed(base, log, txn, lsn);
    var done := log + AbortRecords(log, txn, lsn);
    AbortBeginsNothing(log, txn, lsn);
    ScanStaysComplete(log, AbortRecords(log, txn, lsn), txn);
    NothingToUndo(done, txn, lsn');
    RedoConcat(base(b), done, AbortRecords(done, txn, lsn'), b);
    RedoForgets(Redo(base(b), done, b), 0, AbortRecords(done, txn, lsn'), b);
  }

  lemma AbortBeginsNothing(log: seq<Record>, txn: nat, lsn: nat)
    ensures forall k :: 0 <= k < |AbortRecords(log, txn, lsn)| ==> !IsKind(AbortRecords(log, txn, lsn)[k], BEGIN)
  {
    hide UndoStack, ScanStart;
    var begun := log + [Control(lsn, txn, ABORT_BEGIN)];
    CompensationsAreClrs(begun, UndoStack(begun, txn, ScanStart(begun, txn)), lsn + 1);
  }

  lemma {:induction false} CompensationsAreClrs(log: seq<Record>, indices: seq<nat>, lsn: nat)
    requires forall k :: 0 <= k < |indices| ==> indices[k] < |log| && log[indices[k]].Set?
    decreases indices
    ensures forall k :: 0 <= k < |indices| ==> Compensations(log, indices, lsn)[k].Clr?
  {
    if indices == [] {
    } else {
      CompensationsAreClrs(log, indices[..|indices| - 1], lsn + 1);
    }
  }

  lemma NothingToUndo(log: seq<Record>, txn: nat, lsn: nat)
    requires ScanSeesAll(log, txn) && UndoStack(log, txn, 0) == []
    ensures forall k :: 0 <= k < |AbortRecords(log, txn, lsn)| ==> AbortRecords(log, txn, lsn)[k].Control?
  {
    AbortUndoesAll(log, txn, lsn);
  }

  lemma {:induction false} ScanStaysComplete(log: seq<Record>, more: seq<Record>, txn: nat)
    requires ScanSeesAll(log, txn)
    requires forall k :: 0 <= k < |more| ==> !IsKind(more[k], BEGIN)
    ensures ScanSeesAll(log + more, txn)
  {
    if more == [] {
      assert log + more == log;
    } else {
      ScanStaysComplete(log, Init(more), txn);
      ScanStartExtend(log + Init(more), Last(more), txn);
      assert log + more == log + Init(more) + [Last(more)];
    }
  }

  // ---- aborting with more log in front ----

  predicate Mentions(log: seq<Record>, txn: nat) {
    exists i :: 0 <= i < |log| && !log[i].Control? && log[i].txn == txn
  }

  function Shifted(stack: seq<nat>, offset: nat): (s: seq<nat>)
    ensures |s| == |stack| && forall k :: 0 <= k < |s| ==> s[k] == stack[k] + offset
  {
    seq(|stack|, k requires 0 <= k < |stack| => stack[k] + offset)
  }

  /** Earlier records that have nothing to do with the transaction do not change its undo stack. */
  lemma {:induction false} StackShifts(front: seq<Record>, log: seq<Record>, txn: nat)
    requires !Mentions(front, txn)
    ensures UndoStack(front + log, txn, 0) == Shifted(UndoStack(log, txn, 0), |front|)
  {
    hide UndoStack;
    if log == [] {
      NoMentionNoStack(front, txn);
      NoMentionNoStack(log, txn);
      assert front + log == front;
    } else {
      var all := front + log;
      assert Init(all) == front + Init(log) && Last(all) == Last(log);
      StackShifts(front, Init(log), txn);
      StackUnfolds(log, txn);
      StackUnfolds(all, txn);
      NextStackShifts(front, Init(log), UndoStack(Init(log), txn, 0), Last(log), txn);
    }
  }

  lemma StackUnfolds(log: seq<Record>, txn: nat)
    requires log != []
    ensures UndoStack(log, txn, 0) == NextStack(Init(log), UndoStack(Init(log), txn, 0), Last(log), txn)
  {
    var stack := UndoStack(Init(log), txn, 0);
    assert stack != [] ==> log[stack[|stack| - 1]] == Init(log)[stack[|stack| - 1]];
  }

  lemma NextStackShifts(front: seq<Record>, log: seq<Record>, stack: seq<nat>, r: Record, txn: nat)
    requires forall k :: 0 <= k < |stack| ==> stack[k] < |log|
    ensures NextStack(front + log, Shifted(stack, |front|), r, txn)
         == Shifted(NextStack(log, stack, r, txn), |front|)
  {
    if stack != [] {
      var top := stack[|stack| - 1];
      assert (front + log)[top + |front|] == log[top];
      assert Shifted(stack, |front|)[..|stack| - 1] == Shifted(stack[..|stack| - 1], |front|);
    }
    assert Shifted(stack + [|log|], |front|) == Shifted(stack, |front|) + [|front + log|];
  }

  /** One step of the scan. */
  function NextStack(log: seq<Record>, stack: seq<nat>, r: Record, txn: nat): seq<nat>
    requires forall k :: 0 <= k < |stack| ==> stack[k] < |log|
  {
    if r.txn != txn then stack
    else if r.Set? then stack + [|log|]
    else if r.Clr? && stack != [] && r.undoLsn == log[stack[|stack| - 1]].lsn then stack[..|stack| - 1]
    else stack
  }

  lemma {:induction false} NoMentionNoStack(log: seq<Record>, txn: nat)
    requires !Mentions(log, txn)
    ensures UndoStack(log, txn, 0) == []
  {
    if log == [] {
    } else {
      assert forall i :: 0 <= i < |Init(log)| ==> Init(log)[i] == log[i];
      assert !Mentions(Init(log), txn);
      assert Last(log) == log[|log| - 1];
      NoMentionNoStack(Init(log), txn);
    }
  }

  lemma {:induction false} CompensationsShift(front: seq<Record>, log: seq<Record>, stack: seq<nat>, lsn: nat)
    requires forall k :: 0 <= k < |stack| ==> stack[k] < |log| && log[stack[k]].Set?
    requires forall k :: 0 <= k < |stack| ==> (front + log)[Shifted(stack, |front|)[k]] == log[stack[k]]
    decreases stack
    ensures Compensations(front + log, Shifted(stack, |front|), lsn) == Compensations(log, stack, lsn)
  {
    if stack == [] {
    } else {
      var n := |stack| - 1;
      assert Shifted(stack, |front|)[..n] == Shifted(stack[..n], |front|);
      CompensationsShift(front, log, stack[..n], lsn + 1);
    }
  }

  lemma UndoRecordsShift(front: seq<Record>, log: seq<Record>, txn: nat, lsn: nat)
    requires !Mentions(front, txn)
    ensures UndoRecords(front + log, txn, lsn) == UndoRecords(log, txn, lsn)
  {
    hide UndoStack, Compensations;
    var stack := UndoStack(log, txn, 0);
    StackShifts(front, log, txn);
    assert forall k :: 0 <= k < |stack| ==> (front + log)[Shifted(stack, |front|)[k]] == log[stack[k]];
    CompensationsShift(front, log, stack, lsn + 1);
  }

  /** Interleaved transactions can break abort: BEGIN records carry a counter while transactions
      are named by the LSN of their BEGIN, so a later BEGIN can carry an open transaction's name.
      Here transaction 2 sets byte 0 to 7 and the third BEGIN carries 2: nothing is undone. */
  lemma InterleavedAbortMissesSet()
    ensures var zero: Image := b => 0;
      var log := [Control(0, 0, BEGIN), Control(1, 0, COMMIT), Control(2, 1, BEGIN),
                  Set(3, 2, 0, 1, [], [7]), Control(4, 2, BEGIN)];
      && WellFormed(zero, log)
      && 2 !in Finished(log)
      && !ScanSeesAll(log, 2)
      && Redo(zero(0), log[..3], 0) == 0
      && Redo(zero(0), log + AbortRecords(log, 2, 5), 0) == 7
  {
    hide WellFormed, MayFollow, Finished, Redo, ScanStart;
    var zero: Image := b => 0;
    var r0, r1, r2, r3, r4 := Control(0, 0, BEGIN), Control(1, 0, COMMIT), Control(2, 1, BEGIN),
                              Set(3, 2, 0, 1, [], [7]), Control(4, 2, BEGIN);
    var log := [r0, r1, r2, r3, r4];
    var l1, l2, l3, l4 := [r0], [r0, r1], [r0, r1, r2], [r0, r1, r2, r3];
    NothingYet(zero);
    Grow([], r0, l1);
    Grow(l1, r1, l2);
    Grow(l2, r2, l3);
    Grow(l3, r3, l4);
    Grow(l4, r4, log);
    assert log[..3] == l3;
    ControlsMayFollow(zero, [], r0);
    ControlsMayFollow(zero, l1, r1);
    ControlsMayFollow(zero, l2, r2);
    OnlyControls(zero, l3, r3);
    ControlsMayFollow(zero, l4, r4);
    assert SetOf(log[3], 2);
    MissedSet(l4, log, 2);
  }

  lemma NothingYet(base: Image)
    ensures WellFormed(base, []) && Finished([]) == {} && ScanStart([], 2) == 0
  {
  }

  lemma ControlsMayFollow(base: Image, pre: seq<Record>, r: Record)
    requires IsKind(r, BEGIN) || (IsKind(r, COMMIT) && r.txn !in Finished(pre))
    requires forall i :: 0 <= i < |pre| ==> !pre[i].Clr?
    ensures MayFollow(base, pre, r)
  {
    hide Finished;
  }

  lemma OnlyControls(zero: Image, pre: seq<Record>, r: Record)
    requires r == Set(3, 2, 0, 1, [], [7]) && 2 !in Finished(pre) && forall b :: zero(b) == 0
    requires forall i :: 0 <= i < |pre| ==> pre[i].Control?
    ensures MayFollow(zero, pre, r) && forall b :: Redo(0, pre, b) == 0
  {
    hide Redo, Finished;
    forall b ensures Redo(0, pre, b) == 0 {
      RedoForgets(0, 0, pre, b);
    }
    assert forall b :: ExclusiveAt(pre, 2, b);
  }

  /** A later CLR has undone the SET at index `i`. */
  predicate IsUndone(log: seq<Record>, i: nat)
    requires i < |log|
  {
    exists j :: i < j < |log| && log[j].Clr? && log[j].undoLsn == log[i].lsn
  }

  predicate LsnsIncrease(log: seq<Record>) {
    forall i, j :: 0 <= i < j < |log| ==> log[i].lsn < log[j].lsn
  }

  /** The scan of an abort finds exactly the SETs of the transaction that no CLR has undone. */
  lemma {:induction false} StackIsNotUndone(base: Image, log: seq<Record>, txn: nat, i: nat)
    requires WellFormed(base, log) && LsnsIncrease(log) && i < |log|
    ensures i in UndoStack(log, txn, 0) <==> SetOf(log[i], txn) && !IsUndone(log, i)
    decreases |log|
  {
    hide WellFormed, LsnsIncrease, UndoStack, IsUndone;
    WithoutLast(base, log);
    if i < |log| - 1 {
      StackIsNotUndone(base, Init(log), txn, i);
      LastUndoes(log, i);
      LastPops(base, log, txn, i);
    } else {
      NotUndoneYet(log);
      LastPushed(log, txn);
    }
  }

  lemma WithoutLast(base: Image, log: seq<Record>)
    requires WellFormed(base, log) && LsnsIncrease(log) && log != []
    ensures WellFormed(base, Init(log)) && LsnsIncrease(Init(log))
  {
    hide MayFollow;
  }

  lemma LastPushed(log: seq<Record>, txn: nat)
    requires log != []
    ensures |log| - 1 in UndoStack(log, txn, 0) <==> SetOf(Last(log), txn)
  {
    hide UndoStack;
    StackUnfolds(log, txn);
    StackIsBelow(Init(log), txn);
  }

  /** An earlier SET stays on the stack unless the last record is the CLR that undoes it. */
  lemma LastPops(base: Image, log: seq<Record>, txn: nat, i: nat)
    requires WellFormed(base, log) && LsnsIncrease(log) && i < |log| - 1
    ensures i in UndoStack(log, txn, 0)
       <==> i in UndoStack(Init(log), txn, 0) && !(Last(log).Clr? && Last(log).undoLsn == log[i].lsn)
  {
    hide WellFormed, UndoStack;
    var pre, r := Init(log), Last(log);
    StackUnfolds(log, txn);
    if r.Clr? {
      TopIsUndone(base, log, r.txn);
      var stack := UndoStack(pre, r.txn, 0);
      var top := stack[|stack| - 1];
      assert log[i].lsn == log[top].lsn <==> i == top;
      StackRises(pre, r.txn);
      WithoutTop(stack, i);
      StackIsOf(pre, txn);
      StackIsOf(pre, r.txn);
    }
  }

  lemma StackIsOf(log: seq<Record>, txn: nat)
    ensures forall i :: i in UndoStack(log, txn, 0) ==> i < |log| && log[i].txn == txn
  {
  }

  lemma NotUndoneYet(log: seq<Record>)
    requires log != []
    ensures !IsUndone(log, |log| - 1)
  {
  }

  lemma WithoutTop(stack: seq<nat>, i: nat)
    requires stack != [] && forall j, k :: 0 <= j < k < |stack| ==> stack[j] < stack[k]
    ensures i in stack[..|stack| - 1] <==> i in stack && i != stack[|stack| - 1]
  {
    var n := |stack| - 1;
    assert stack == stack[..n] + [stack[n]];
  }

  lemma LastUndoes(log: seq<Record>, i: nat)
    requires log != [] && i < |log| - 1
    ensures IsUndone(log, i) <==> IsUndone(Init(log), i) || (Last(log).Clr? && Last(log).undoLsn == log[i].lsn)
  {
    var pre := Init(log);
    assert forall j :: 0 <= j < |pre| ==> pre[j] == log[j];
    if IsUndone(pre, i) {
      var j :| i < j < |pre| && pre[j].Clr? && pre[j].undoLsn == pre[i].lsn;
      assert log[j].Clr? && log[j].undoLsn == log[i].lsn;
    }
  }

  /** A CLR undoes the SET on top of the stack of its transaction. */
  lemma TopIsUndone(base: Image, log: seq<Record>, txn: nat)
    requires log != [] && WellFormed(base, log) && Last(log).Clr? && Last(log).txn == txn
    ensures var stack := UndoStack(Init(log), txn, 0);
      stack != [] && Last(log).undoLsn == log[stack[|stack| - 1]].lsn && UndoStack(log, txn, 0) == stack[..|stack| - 1]
  {
  }

  /** Indices on the stack increase. */
  lemma {:induction false} StackRises(log: seq<Record>, txn: nat)
    ensures var stack := UndoStack(log, txn, 0); forall j, k :: 0 <= j < k < |stack| ==> stack[j] < stack[k]
    decreases |log|
  {
    hide UndoStack;
    if log == [] {
      NoMentionNoStack(log, txn);
    } else {
      StackRises(Init(log), txn);
      StackUnfolds(log, txn);
      StackIsBelow(Init(log), txn);
    }
  }

  lemma StackIsBelow(log: seq<Record>, txn: nat)
    ensures var stack := UndoStack(log, txn, 0); forall k :: 0 <= k < |stack| ==> stack[k] < |log|
  {
  }

  lemma Grow(pre: seq<Record>, r: Record, log: seq<Record>)
    requires log == pre + [r]
    ensures forall base: Image :: WellFormed(base, pre) && MayFollow(base, pre, r) ==> WellFormed(base, log)
    ensures Finished(log) == Finished(pre) + (if IsKind(r, COMMIT) || IsKind(r, ABORT_END) then {r.txn} else {})
    ensures Redo(0, log, 0) == if Covers(r, 0) then NewAt(r, 0) else Redo(0, pre, 0)
    ensures ScanStart(pre, 2) == 0 && !(IsKind(r, BEGIN) && r.txn == 2) ==> ScanStart(log, 2) == 0
  {
    Snoc(pre, r);
  }

  lemma MissedSet(pre: seq<Record>, log: seq<Record>, txn: nat)
    requires ScanStart(pre, txn) == 0 && log == pre + [Control(4, txn, BEGIN)]
    ensures ScanStart(log, txn) == |log|
    ensures forall b :: Redo(0, log + AbortRecords(log, txn, 5), b) == Redo(0, pre, b)
  {
    hide Redo;
    var r5, r6 := Control(5, txn, ABORT_BEGIN), Control(6, txn, ABORT_END);
    NothingSeen(pre, log, txn);
    AbortOfNothing(log, txn);
    forall b ensures Redo(0, log + AbortRecords(log, txn, 5), b) == Redo(0, pre, b) {
      RedoConcat(0, log, [r5, r6], b);
      RedoForgets(Redo(0, log, b), 0, [r5, r6], b);
      RedoConcat(0, pre, [Control(4, txn, BEGIN)], b);
      RedoForgets(Redo(0, pre, b), 0, [Control(4, txn, BEGIN)], b);
    }
  }

  /** The scan starts behind the last BEGIN. */
  lemma NothingSeen(pre: seq<Record>, log: seq<Record>, txn: nat)
    requires ScanStart(pre, txn) == 0 && log == pre + [Control(4, txn, BEGIN)]
    ensures ScanStart(log, txn) == |log|
    ensures var begun := log + [Control(5, txn, ABORT_BEGIN)]; UndoStack(begun, txn, ScanStart(begun, txn)) == []
  {
    var r5 := Control(5, txn, ABORT_BEGIN);
    Snoc(pre, Last(log));
    Snoc(log, r5);
    assert UndoStack(log, txn, |log|) == [];
  }

  lemma AbortOfNothing(log: seq<Record>, txn: nat)
    requires var begun := log + [Control(5, txn, ABORT_BEGIN)]; UndoStack(begun, txn, ScanStart(begun, txn)) == []
    ensures AbortRecords(log, txn, 5) == [Control(5, txn, ABORT_BEGIN), Control(6, txn, ABORT_END)]
  {
    hide UndoStack, ScanStart;
  }
}
