/** Recovery of a well-formed log is atomic and durable. */
module Recovery {
  import opened Bytes
  import opened LogSemantics

  // ---- frame lemmas: which parts of a log the specification functions look at ----

  lemma {:induction false} CommittedAreFinished(log: seq<Record>)
    ensures Committed(log) <= Finished(log)
  {
    if log == [] {
    } else {
      CommittedAreFinished(Init(log));
    }
  }

  lemma {:induction false} AppliedAgree(v: Byte, log: seq<Record>, s: set<nat>, t: set<nat>, b: nat)
    requires forall i :: 0 <= i < |log| && SetsAt(log[i], b) ==> (log[i].txn in s <==> log[i].txn in t)
    ensures Applied(v, log, s, b) == Applied(v, log, t, b)
  {
    if log == [] {
    } else {
      assert Last(log) == log[|log| - 1];
      AppliedAgree(v, Init(log), s, t, b);
    }
  }

  /** `i` is the first open SET at `b`: the property that determines FirstOpen. */
  lemma {:induction false} FirstOpenIs(log: seq<Record>, fin: set<nat>, b: nat, i: int)
    requires -1 <= i < |log|
    requires i >= 0 ==> SetsAt(log[i], b) && log[i].txn !in fin
    requires forall k :: 0 <= k < (if i < 0 then |log| else i) ==> !(SetsAt(log[k], b) && log[k].txn !in fin)
    ensures FirstOpen(log, fin, b) == i
  {
    var j := FirstOpen(log, fin, b);
    assert i < 0 || j < 0 || i <= j;
    assert i < 0 || j < 0 || j <= i;
  }

  /** When from `i` on only SETs of the chosen transactions write `b`, replaying everything and
      replaying the chosen SETs leave the same byte. */
  lemma {:induction false} OnlyChosenWrite(v: Byte, log: seq<Record>, txns: set<nat>, b: nat, i: nat)
    requires i < |log| && SetsAt(log[i], b) && log[i].txn in txns
    requires forall k :: i <= k < |log| && Covers(log[k], b) ==> log[k].Set? && log[k].txn in txns
    ensures Redo(v, log, b) == Applied(v, log, txns, b)
  {
    assert Last(log) == log[|log| - 1];
    if Covers(Last(log), b) {
    } else {
      assert i < |log| - 1;
      OnlyChosenWrite(v, Init(log), txns, b, i);
    }
  }

  lemma {:induction false} UnwoundExtend(v: Byte, log: seq<Record>, r: Record, stack: seq<nat>, b: nat)
    requires forall k :: 0 <= k < |stack| ==> stack[k] < |log| && log[stack[k]].Set?
    decreases stack
    ensures Unwound(v, log + [r], stack, b) == Unwound(v, log, stack, b)
  {
    if stack == [] {
    } else {
      var s := log[stack[|stack| - 1]];
      assert (log + [r])[stack[|stack| - 1]] == s;
      UnwoundExtend(if Covers(s, b) then OldAt(s, b) else v, log, r, stack[..|stack| - 1], b);
    }
  }

  // ---- the invariant ----

  /** From the first open SET at `b` on, only its transaction writes `b`, and undoing what that
      transaction has not undone yet brings back the byte the SET found. */
  ghost predicate OpenSetOwns(v: Byte, log: seq<Record>, b: nat) {
    var i := FirstOpen(log, Finished(log), b);
    i >= 0 ==>
      && (forall k :: i <= k < |log| && Covers(log[k], b) ==> log[k].txn == log[i].txn)
      && Unwound(Redo(v, log, b), log, UndoStack(log, log[i].txn, 0), b) == OldAt(log[i], b)
  }

  ghost predicate Good(v: Byte, log: seq<Record>, b: nat) {
    Recovered(v, log, b) == CommittedValue(v, log, b) && OpenSetOwns(v, log, b)
  }

  lemma Snoc(log: seq<Record>, r: Record)
    ensures Init(log + [r]) == log && Last(log + [r]) == r
  {
  }

  /** A SET adds no finished transaction; at a covered byte it either extends the owner's SETs or
      starts owning a byte that held the committed value. */
  lemma SetKeepsGood(base: Image, log: seq<Record>, r: Record, b: nat)
    requires r.Set? && MayFollow(base, log, r)
    requires Good(base(b), log, b)
    ensures Good(base(b), log + [r], b)
  {
    var v := base(b);
    var i := FirstOpen(log, Finished(log), b);
    SetOpens(v, log, r, b);
    if Covers(r, b) {
      assert ExclusiveAt(log, r.txn, b);
      assert OldAt(r, b) == Redo(v, log, b);
      SetUnwinds(v, log, r, b);
      if i < 0 {
        NoStackCovers(OldAt(r, b), log, r.txn, b);
      }
    } else if i >= 0 {
      SetElsewhere(v, log, r, log[i].txn, b);
    }
  }

  lemma SetOpens(v: Byte, log: seq<Record>, r: Record, b: nat)
    requires r.Set? && r.txn !in Finished(log)
    ensures Finished(log + [r]) == Finished(log)
    ensures FirstOpen(log + [r], Finished(log + [r]), b)
         == (var i := FirstOpen(log, Finished(log), b); if i < 0 && Covers(r, b) then |log| else i)
    ensures CommittedValue(v, log + [r], b) == CommittedValue(v, log, b)
    ensures !Covers(r, b) ==> Redo(v, log + [r], b) == Redo(v, log, b)
  {
    Snoc(log, r);
    CommittedAreFinished(log);
    assert Committed(log + [r]) == Committed(log);
  }

  /** Undoing a new SET first brings back the byte it found. */
  lemma SetUnwinds(v: Byte, log: seq<Record>, r: Record, b: nat)
    requires SetsAt(r, b)
    ensures Unwound(Redo(v, log + [r], b), log + [r], UndoStack(log + [r], r.txn, 0), b)
         == Unwound(OldAt(r, b), log, UndoStack(log, r.txn, 0), b)
  {
    var log' := log + [r];
    Snoc(log, r);
    var stack := UndoStack(log, r.txn, 0);
    assert UndoStack(log', r.txn, 0) == stack + [|log|];
    assert (stack + [|log|])[..|stack|] == stack;
    UnwoundExtend(OldAt(r, b), log, r, stack, b);
  }

  /** When no open SET covers `b`, neither does the undo stack of an unfinished transaction. */
  lemma {:induction false} NoStackCovers(v: Byte, log: seq<Record>, t: nat, b: nat)
    requires t !in Finished(log) && FirstOpen(log, Finished(log), b) < 0
    ensures Unwound(v, log, UndoStack(log, t, 0), b) == v
  {
    var stack := UndoStack(log, t, 0);
    assert forall k :: 0 <= k < |log| ==> !(SetsAt(log[k], b) && log[k].txn !in Finished(log));
    assert forall k :: 0 <= k < |stack| ==> !SetsAt(log[stack[k]], b);
    UnwoundUncovered(v, log, stack, b);
  }

  lemma {:induction false} UnwoundUncovered(v: Byte, log: seq<Record>, stack: seq<nat>, b: nat)
    requires forall k :: 0 <= k < |stack| ==> stack[k] < |log| && log[stack[k]].Set? && !Covers(log[stack[k]], b)
    ensures Unwound(v, log, stack, b) == v
  {
    if stack == [] {
    } else {
      UnwoundUncovered(v, log, stack[..|stack| - 1], b);
    }
  }

  /** A SET that does not cover `b` changes no unwinding at `b`. */
  lemma SetElsewhere(v: Byte, log: seq<Record>, r: Record, t: nat, b: nat)
    requires r.Set? && !Covers(r, b)
    ensures Unwound(Redo(v, log + [r], b), log + [r], UndoStack(log + [r], t, 0), b)
         == Unwound(Redo(v, log, b), log, UndoStack(log, t, 0), b)
  {
    var log' := log + [r];
    Snoc(log, r);
    var stack := UndoStack(log, t, 0);
    UnwoundExtend(Redo(v, log, b), log, r, stack, b);
    if r.txn == t {
      assert log'[|log|] == r;
      assert (stack + [|log|])[..|stack|] == stack;
    }
  }

  /** A CLR restores the byte its SET found and takes that SET off the stack. */
  lemma ClrKeepsGood(base: Image, log: seq<Record>, r: Record, b: nat)
    requires r.Clr? && MayFollow(base, log, r)
    requires Good(base(b), log, b)
    ensures Good(base(b), log + [r], b)
  {
    hide Finished, Redo, CommittedValue, FirstOpen, Unwound, UndoStack, MayFollow, Covers;
    var v := base(b);
    var i := FirstOpen(log, Finished(log), b);
    ClrOpensNothing(v, log, r, b);
    if i >= 0 {
      ClrUndoesOwner(base, log, r, b);
      ClrUnwinds(base, v, log, r, log[i].txn, b);
    } else if Covers(r, b) {
      ClrUndoesOwner(base, log, r, b);
    }
  }

  lemma ClrOpensNothing(v: Byte, log: seq<Record>, r: Record, b: nat)
    requires r.Clr?
    ensures Finished(log + [r]) == Finished(log)
    ensures FirstOpen(log + [r], Finished(log + [r]), b) == FirstOpen(log, Finished(log), b)
    ensures CommittedValue(v, log + [r], b) == CommittedValue(v, log, b)
    ensures !Covers(r, b) ==> Redo(v, log + [r], b) == Redo(v, log, b)
  {
    Snoc(log, r);
    assert Committed(log + [r]) == Committed(log);
  }

  /** A CLR covers only bytes its own transaction holds open. */
  lemma ClrUndoesOwner(base: Image, log: seq<Record>, r: Record, b: nat)
    requires r.Clr? && MayFollow(base, log, r) && OpenSetOwns(base(b), log, b)
    ensures Covers(r, b) ==>
              FirstOpen(log, Finished(log), b) >= 0 && log[FirstOpen(log, Finished(log), b)].txn == r.txn
  {
    var stack := UndoStack(log, r.txn, 0);
    var top := stack[|stack| - 1];
    assert Covers(r, b) ==> SetsAt(log[top], b) && log[top].txn !in Finished(log);
  }

  lemma ClrUnwinds(base: Image, v: Byte, log: seq<Record>, r: Record, t: nat, b: nat)
    requires r.Clr? && MayFollow(base, log, r)
    requires Covers(r, b) ==> t == r.txn
    ensures Unwound(Redo(v, log + [r], b), log + [r], UndoStack(log + [r], t, 0), b)
         == Unwound(Redo(v, log, b), log, UndoStack(log, t, 0), b)
  {
    var log' := log + [r];
    Snoc(log, r);
    var stack := UndoStack(log, t, 0);
    if t == r.txn {
      assert UndoStack(log', t, 0) == stack[..|stack| - 1];
      UnwoundExtend(Redo(v, log', b), log, r, stack[..|stack| - 1], b);
    } else {
      assert UndoStack(log', t, 0) == stack;
      UnwoundExtend(Redo(v, log', b), log, r, stack, b);
    }
  }

  /** COMMIT: the owner's last SET at `b` is the last write there and becomes committed. */
  lemma CommitKeepsGood(base: Image, log: seq<Record>, r: Record, b: nat)
    requires IsKind(r, COMMIT) && MayFollow(base, log, r)
    requires Good(base(b), log, b)
    ensures Good(base(b), log + [r], b)
  {
    var v := base(b);
    var log' := log + [r];
    Snoc(log, r);
    var fin, com := Finished(log), Committed(log);
    assert Finished(log') == fin + {r.txn} && Committed(log') == com + {r.txn};
    var i := FirstOpen(log, fin, b);
    assert forall k :: 0 <= k < |log| ==> log'[k] == log[k];
    assert log'[|log|] == r;
    assert CommittedValue(v, log', b) == Applied(v, log, com + {r.txn}, b);
    if i >= 0 && log[i].txn == r.txn {
      forall k | 0 <= k < |log'| ensures !(SetsAt(log'[k], b) && log'[k].txn !in fin + {r.txn}) {
        if k < |log| && i <= k {
          assert Covers(log[k], b) ==> log[k].txn == r.txn;
        }
      }
      FirstOpenIs(log', fin + {r.txn}, b, -1);
      OnlyChosenWrite(v, log, com + {r.txn}, b, i);
    } else {
      FinishElsewhere(v, log, r, b);
    }
  }

  /** Finishing a transaction with no open SET at `b` changes nothing there. */
  lemma FinishElsewhere(v: Byte, log: seq<Record>, r: Record, b: nat)
    requires IsKind(r, COMMIT) || IsKind(r, ABORT_END)
    requires Good(v, log, b)
    requires var i := FirstOpen(log, Finished(log), b); i < 0 || log[i].txn != r.txn
    requires r.kind == COMMIT ==> r.txn !in Finished(log)
    ensures Good(v, log + [r], b)
  {
    var log' := log + [r];
    Snoc(log, r);
    var fin, com := Finished(log), Committed(log);
    CommittedAreFinished(log);
    var i := FirstOpen(log, fin, b);
    assert forall k :: 0 <= k < |log| ==> log'[k] == log[k];
    assert Finished(log') == fin + {r.txn};
    assert forall k :: 0 <= k < |log| && SetsAt(log[k], b) && log[k].txn == r.txn ==> r.txn in fin;
    FirstOpenIs(log', fin + {r.txn}, b, i);
    AppliedAgree(v, log, com, Committed(log'), b);
    assert CommittedValue(v, log', b) == Applied(v, log, Committed(log'), b);
    if i >= 0 {
      UnwoundExtend(Redo(v, log, b), log, r, UndoStack(log, log[i].txn, 0), b);
    }
  }

  /** ABORT_END: nothing is left to undo, so the bytes already hold their old values. */
  lemma AbortEndKeepsGood(base: Image, log: seq<Record>, r: Record, b: nat)
    requires IsKind(r, ABORT_END) && MayFollow(base, log, r)
    requires Good(base(b), log, b)
    ensures Good(base(b), log + [r], b)
  {
    var v := base(b);
    var log' := log + [r];
    Snoc(log, r);
    var fin := Finished(log);
    assert Finished(log') == fin + {r.txn} && Committed(log') == Committed(log);
    var i := FirstOpen(log, fin, b);
    assert forall k :: 0 <= k < |log| ==> log'[k] == log[k];
    if i >= 0 && log[i].txn == r.txn {
      assert r.txn !in fin;
      assert UndoStack(log, r.txn, 0) == [];
      forall k | 0 <= k < |log'| ensures !(SetsAt(log'[k], b) && log'[k].txn !in fin + {r.txn}) {
        if k < |log| && i <= k {
          assert Covers(log[k], b) ==> log[k].txn == r.txn;
        }
      }
      FirstOpenIs(log', fin + {r.txn}, b, -1);
      assert CommittedValue(v, log', b) == CommittedValue(v, log, b);
    } else {
      FinishElsewhere(v, log, r, b);
    }
  }

  lemma OtherControlKeepsGood(v: Byte, log: seq<Record>, r: Record, b: nat)
    requires r.Control? && r.kind != COMMIT && r.kind != ABORT_END
    requires Good(v, log, b)
    ensures Good(v, log + [r], b)
  {
    var log' := log + [r];
    Snoc(log, r);
    var fin := Finished(log);
    assert Finished(log') == fin && Committed(log') == Committed(log);
    var i := FirstOpen(log, fin, b);
    assert forall k :: 0 <= k < |log| ==> log'[k] == log[k];
    FirstOpenIs(log', fin, b, i);
    assert CommittedValue(v, log', b) == CommittedValue(v, log, b);
    if i >= 0 {
      UnwoundExtend(Redo(v, log, b), log, r, UndoStack(log, log[i].txn, 0), b);
    }
  }

  lemma {:induction false} WellFormedIsGood(base: Image, log: seq<Record>, b: nat)
    requires WellFormed(base, log)
    ensures Good(base(b), log, b)
  {
    if log == [] {
    } else {
      var pre, r := Init(log), Last(log);
      WellFormedIsGood(base, pre, b);
      assert log == pre + [r];
      if r.Set? {
        SetKeepsGood(base, pre, r, b);
      } else if r.Clr? {
        ClrKeepsGood(base, pre, r, b);
      } else if r.kind == COMMIT {
        CommitKeepsGood(base, pre, r, b);
      } else if r.kind == ABORT_END {
        AbortEndKeepsGood(base, pre, r, b);
      } else {
        OtherControlKeepsGood(base(b), pre, r, b);
      }
    }
  }

  /** Recovery is atomic and durable: at every byte it leaves the base image plus exactly the
      SETs of committed transactions. */
  lemma RecoveryIsAtomic(base: Image, log: seq<Record>, b: nat)
    requires WellFormed(base, log)
    ensures Recovered(base(b), log, b) == CommittedValue(base(b), log, b)
  {
    WellFormedIsGood(base, log, b);
  }
}
