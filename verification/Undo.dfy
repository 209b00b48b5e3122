/** Undoing transactions: what the CLRs of recovery and of abort leave in the data file, and
    why recovery may be interrupted and started again. */
module Undo {
  import opened Bytes
  import opened LogSemantics
  import opened Recovery

  // ---- replaying concatenated and repeated logs ----

  lemma {:induction false} RedoConcat(v: Byte, log: seq<Record>, more: seq<Record>, b: nat)
    ensures Redo(v, log + more, b) == Redo(Redo(v, log, b), more, b)
  {
    if more == [] {
      assert log + more == log;
    } else {
      assert Init(log + more) == log + Init(more);
      assert Last(log + more) == Last(more);
      RedoConcat(v, log, Init(more), b);
    }
  }

  ghost predicate Touches(log: seq<Record>, b: nat) {
    exists i :: 0 <= i < |log| && Covers(log[i], b)
  }

  /** Replay forgets what a byte held before, once the log writes it. */
  lemma {:induction false} RedoForgets(v: Byte, w: Byte, log: seq<Record>, b: nat)
    ensures Touches(log, b) ==> Redo(v, log, b) == Redo(w, log, b)
    ensures !Touches(log, b) ==> Redo(v, log, b) == v
  {
    if log == [] {
    } else {
      RedoForgets(v, w, Init(log), b);
      assert Last(log) == log[|log| - 1];
      if Touches(log, b) && !Covers(Last(log), b) {
        var i :| 0 <= i < |log| && Covers(log[i], b);
        assert Covers(Init(log)[i], b);
      }
      if Touches(Init(log), b) {
        var i :| 0 <= i < |Init(log)| && Covers(Init(log)[i], b);
        assert Covers(log[i], b);
      }
    }
  }

  /** Replaying a log over its own result changes nothing. */
  lemma RedoTwice(v: Byte, log: seq<Record>, b: nat)
    ensures Redo(Redo(v, log, b), log, b) == Redo(v, log, b)
  {
    RedoForgets(v, Redo(v, log, b), log, b);
  }

  /** A byte of the disk that reflects any prefix of the log is as good as the base byte: it was
      left alone, or the log writes it. */
  lemma AnyPrefixWillDo(v: Byte, log: seq<Record>, k: nat, b: nat)
    requires k <= |log|
    ensures Redo(v, log[..k], b) == v || Touches(log, b)
  {
    RedoForgets(v, v, log[..k], b);
    if Touches(log[..k], b) {
      var i :| 0 <= i < k && Covers(log[..k][i], b);
      assert Covers(log[i], b);
    }
  }

  /** Recovery reads the disk only where the log is silent. */
  lemma RecoveredForgets(v: Byte, w: Byte, log: seq<Record>, b: nat)
    requires v == w || Touches(log, b)
    ensures Recovered(v, log, b) == Recovered(w, log, b)
  {
    RedoForgets(v, w, log, b);
  }

  /** The main theorem about recovery: over any disk whose bytes each reflect some prefix of a
      well-formed log, redo and undo leave the base plus the committed SETs, and nothing else. */
  lemma RecoveryFromAnyDisk(base: Image, log: seq<Record>, k: nat, b: nat)
    requires WellFormed(base, log) && k <= |log|
    ensures Recovered(Redo(base(b), log[..k], b), log, b) == CommittedValue(base(b), log, b)
  {
    AnyPrefixWillDo(base(b), log, k, b);
    RecoveredForgets(Redo(base(b), log[..k], b), base(b), log, b);
    RecoveryIsAtomic(base, log, b);
  }

  // ---- what a run of CLRs does ----

  lemma {:induction false} CompensationsUnwind(v: Byte, log: seq<Record>, indices: seq<nat>, lsn: nat, b: nat)
    requires forall k :: 0 <= k < |indices| ==> indices[k] < |log| && log[indices[k]].Set?
    decreases indices
    ensures Redo(v, Compensations(log, indices, lsn), b) == Unwound(v, log, indices, b)
  {
    if indices == [] {
    } else {
      var n := |indices| - 1;
      var r := log[indices[n]];
      var clr := Compensation(r, lsn);
      RedoConcat(v, [clr], Compensations(log, indices[..n], lsn + 1), b);
      var w := if Covers(r, b) then OldAt(r, b) else v;
      assert Init([clr]) == [] && Last([clr]) == clr;
      assert Redo(v, [clr], b) == w;
      CompensationsUnwind(w, log, indices[..n], lsn + 1, b);
    }
  }

  lemma {:induction false} OpenSetsUnwind(v: Byte, log: seq<Record>, full: seq<Record>, fin: set<nat>, b: nat)
    requires log <= full
    decreases |log|
    ensures forall k :: 0 <= k < |OpenSets(log, fin)| ==> OpenSets(log, fin)[k] < |full| && full[OpenSets(log, fin)[k]].Set?
    ensures Unwound(v, full, OpenSets(log, fin), b)
         == (var i := FirstOpen(log, fin, b); if i >= 0 then OldAt(log[i], b) else v)
  {
    hide OpenSets, FirstOpen, Unwound;
    OpenSetsUnfolds(log, fin);
    FirstOpenUnfolds(log, fin, b);
    if log == [] {
      UnwoundUnfolds(v, full, [], b);
    } else {
      var n := |log| - 1;
      var rest := OpenSets(Init(log), fin);
      assert Last(log) == full[n] && Init(log) <= full;
      if Last(log).Set? && Last(log).txn !in fin {
        var w := if Covers(Last(log), b) then OldAt(Last(log), b) else v;
        OpenSetsUnwind(w, Init(log), full, fin, b);
        UnwoundUnfolds(v, full, rest + [n], b);
        assert (rest + [n])[..|rest|] == rest;
      } else {
        OpenSetsUnwind(v, Init(log), full, fin, b);
        assert OpenSets(log, fin) == rest;
      }
    }
  }

  lemma OpenSetsUnfolds(log: seq<Record>, fin: set<nat>)
    ensures OpenSets(log, fin)
         == if log == [] then []
            else OpenSets(Init(log), fin) + (if Last(log).Set? && Last(log).txn !in fin then [|log| - 1] else [])
    ensures forall k :: 0 <= k < |OpenSets(log, fin)| ==>
                          OpenSets(log, fin)[k] < |log| && log[OpenSets(log, fin)[k]].Set?
  {
  }

  lemma FirstOpenUnfolds(log: seq<Record>, fin: set<nat>, b: nat)
    ensures log == [] ==> FirstOpen(log, fin, b) == -1
    ensures log != [] ==>
              var i := FirstOpen(Init(log), fin, b);
              && FirstOpen(log, fin, b) == (if i >= 0 then i else if SetsAt(Last(log), b) && Last(log).txn !in fin then |log| - 1 else -1)
              && (i >= 0 ==> i < |log| - 1 && SetsAt(log[i], b) && log[i] == Init(log)[i])
  {
    if log != [] {
      var i := FirstOpen(Init(log), fin, b);
      assert i >= 0 ==> Init(log)[i] == log[i];
    }
  }

  lemma UnwoundUnfolds(v: Byte, log: seq<Record>, stack: seq<nat>, b: nat)
    requires forall k :: 0 <= k < |stack| ==> stack[k] < |log| && log[stack[k]].Set?
    ensures stack == [] ==> Unwound(v, log, stack, b) == v
    ensures stack != [] ==>
              var r := log[stack[|stack| - 1]];
              Unwound(v, log, stack, b) == Unwound(if Covers(r, b) then OldAt(r, b) else v, log, stack[..|stack| - 1], b)
  {
  }

  /** The records recovery appends before the ABORT_ENDs. */
  function RecoveryClrs(log: seq<Record>, lsn: nat): seq<Record> {
    Compensations(log, OpenSets(log, Finished(log)), lsn)
  }

  /** Replaying the log with recovery's own CLRs is what recovery computes. */
  lemma RecoveryReplays(v: Byte, log: seq<Record>, lsn: nat, b: nat)
    ensures Redo(v, log + RecoveryClrs(log, lsn), b) == Recovered(v, log, b)
  {
    var fin := Finished(log);
    RedoConcat(v, log, RecoveryClrs(log, lsn), b);
    CompensationsUnwind(Redo(v, log, b), log, OpenSets(log, fin), lsn, b);
    OpenSetsUnwind(Redo(v, log, b), log, log, fin, b);
  }

  // ---- restarting recovery ----

  /** `r` compensates a SET that `log` leaves unfinished. */
  ghost predicate Undoes(log: seq<Record>, r: Record) {
    exists i :: 0 <= i < |log| && log[i].Set? && log[i].txn !in Finished(log) && r == Compensation(log[i], r.lsn)
  }

  lemma {:induction false} CompensationsUndo(log: seq<Record>, indices: seq<nat>, lsn: nat)
    requires forall k :: 0 <= k < |indices| ==>
                           indices[k] < |log| && log[indices[k]].Set? && log[indices[k]].txn !in Finished(log)
    decreases indices
    ensures forall k :: 0 <= k < |indices| ==> Undoes(log, Compensations(log, indices, lsn)[k])
  {
    if indices == [] {
    } else {
      var n := |indices| - 1;
      CompensationsUndo(log, indices[..n], lsn + 1);
      assert Compensation(log[indices[n]], lsn).lsn == lsn;
      assert Undoes(log, Compensation(log[indices[n]], lsn));
    }
  }

  /** Everything recovery writes before the ABORT_ENDs undoes an unfinished SET. */
  lemma RecoveryClrsUndo(log: seq<Record>, lsn: nat)
    ensures forall k :: 0 <= k < |RecoveryClrs(log, lsn)| ==> Undoes(log, RecoveryClrs(log, lsn)[k])
  {
    CompensationsUndo(log, OpenSets(log, Finished(log)), lsn);
  }

  lemma {:induction false} ClrsFinishNothing(log: seq<Record>, clrs: seq<Record>)
    requires forall k :: 0 <= k < |clrs| ==> clrs[k].Clr?
    ensures Finished(log + clrs) == Finished(log) && Committed(log + clrs) == Committed(log)
  {
    if clrs == [] {
      assert log + clrs == log;
    } else {
      assert Init(log + clrs) == log + Init(clrs) && Last(log + clrs) == Last(clrs);
      ClrsFinishNothing(log, Init(clrs));
    }
  }

  /** Any CLRs of unfinished SETs, in any order and any number, leave the outcome of recovery alone. */
  lemma {:induction false} ClrsKeepRecovered(v: Byte, log: seq<Record>, clrs: seq<Record>, b: nat)
    requires forall k :: 0 <= k < |clrs| ==> Undoes(log, clrs[k])
    ensures Recovered(v, log + clrs, b) == Recovered(v, log, b)
  {
    ClrsFinishNothing(log, clrs);
    var fin := Finished(log);
    var i := FirstOpen(log, fin, b);
    var all := log + clrs;
    assert forall k :: 0 <= k < |log| ==> all[k] == log[k];
    assert forall k :: |log| <= k < |all| ==> all[k] == clrs[k - |log|] && all[k].Clr?;
    FirstOpenIs(all, fin, b, i);
    if i < 0 {
      if Touches(clrs, b) {
        var k :| 0 <= k < |clrs| && Covers(clrs[k], b);
        var j :| 0 <= j < |log| && log[j].Set? && log[j].txn !in fin && clrs[k] == Compensation(log[j], clrs[k].lsn);
        assert SetsAt(log[j], b);
      }
      RedoConcat(v, log, clrs, b);
      RedoForgets(Redo(v, log, b), v, clrs, b);
    }
  }

  /** A byte of the disk that reflects some part of a recovery is as it was before, or the log writes it. */
  lemma PartlyUndone(v: Byte, log: seq<Record>, onDisk: seq<Record>, k: nat, b: nat)
    requires forall j :: 0 <= j < |onDisk| ==> Undoes(log, onDisk[j])
    requires k <= |log + onDisk|
    ensures Redo(v, (log + onDisk)[..k], b) == v || Touches(log, b)
  {
    AnyPrefixWillDo(v, log + onDisk, k, b);
    if Touches(log + onDisk, b) {
      var i :| 0 <= i < |log + onDisk| && Covers((log + onDisk)[i], b);
      if i < |log| {
        assert Covers(log[i], b);
      } else {
        var clr := onDisk[i - |log|];
        var j :| 0 <= j < |log| && log[j].Set? && log[j].txn !in Finished(log) && clr == Compensation(log[j], clr.lsn);
        assert Covers(log[j], b);
      }
    }
  }

  /** Recovery may crash and start over, any number of times: whatever CLRs of unfinished SETs
      earlier attempts left in the log, and whatever prefix of an attempt each byte of the disk
      reflects, the outcome is the committed image. */
  lemma RecoveryIsRestartable(base: Image, log: seq<Record>, inLog: seq<Record>, onDisk: seq<Record>, k: nat, b: nat)
    requires WellFormed(base, log)
    requires forall j :: 0 <= j < |inLog| ==> Undoes(log, inLog[j])
    requires forall j :: 0 <= j < |onDisk| ==> Undoes(log, onDisk[j])
    requires k <= |log + onDisk|
    ensures Recovered(Redo(base(b), (log + onDisk)[..k], b), log + inLog, b) == CommittedValue(base(b), log, b)
  {
    hide WellFormed, Redo, Finished, Recovered;
    var w := Redo(base(b), (log + onDisk)[..k], b);
    ClrsKeepRecovered(w, log, inLog, b);
    PartlyUndone(base(b), log, onDisk, k, b);
    RecoveredForgets(w, base(b), log, b);
    RecoveryIsAtomic(base, log, b);
  }

  lemma {:induction false} FinishedConcat(log: seq<Record>, more: seq<Record>)
    ensures Finished(log + more) == Finished(log) + Finished(more)
    ensures Committed(log + more) == Committed(log) + Committed(more)
  {
    if more == [] {
      assert log + more == log;
    } else {
      assert Init(log + more) == log + Init(more) && Last(log + more) == Last(more);
      FinishedConcat(log, Init(more));
    }
  }

  lemma RecoveryOfBaseAfterAbortEnds(base: Image, log: seq<Record>, lsn: nat, ends: seq<Record>, b: nat)
    requires WellFormed(base, log)
    requires forall k :: 0 <= k < |ends| ==> ends[k].Control?
    ensures Recovered(base(b), log + RecoveryClrs(log, lsn) + ends, b) == CommittedValue(base(b), log, b)
  {
    hide WellFormed, Redo, Finished, Committed, RecoveryClrs, Applied;
    var v := base(b);
    var clrs := RecoveryClrs(log, lsn);
    RecoveryClrsUndo(log, lsn);
    ClrsFinishNothing(log, clrs);
    var fin := Finished(log);
    FinishedConcat(log + clrs, ends);
    var fin' := fin + Finished(ends);
    var all := log + clrs + ends;
    assert forall k :: 0 <= k < |log| ==> all[k] == log[k];
    assert forall k :: |log| <= k < |all| ==> !all[k].Set?;
    WellFormedIsGood(base, log, b);
    var i := FirstOpen(log, fin, b);
    if i >= 0 && log[i].txn in fin' {
      assert forall k :: 0 <= k < |log| && SetsAt(log[k], b) && log[k].txn !in fin ==> i <= k && log[k].txn == log[i].txn;
      FirstOpenIs(all, fin', b, -1);
    } else {
      FirstOpenIs(all, fin', b, i);
    }
    RedoConcat(v, log + clrs, ends, b);
    RedoForgets(Redo(v, log + clrs, b), v, ends, b);
    RecoveryReplays(v, log, lsn, b);
  }

  /** Even when some of the ABORT_ENDs already follow the complete set of CLRs, a second recovery ends in the
      same image, over any disk whose bytes reflect some part of any attempt. */
  lemma RecoveryAfterAbortEnds(base: Image, log: seq<Record>, lsn: nat, ends: seq<Record>, onDisk: seq<Record>, k: nat, b: nat)
    requires WellFormed(base, log)
    requires forall k :: 0 <= k < |ends| ==> ends[k].Control?
    requires forall j :: 0 <= j < |onDisk| ==> Undoes(log, onDisk[j])
    requires k <= |log + onDisk|
    ensures Recovered(Redo(base(b), (log + onDisk)[..k], b), log + RecoveryClrs(log, lsn) + ends, b)
         == CommittedValue(base(b), log, b)
  {
    hide WellFormed, Redo, Finished, Recovered, RecoveryClrs;
    var all := log + RecoveryClrs(log, lsn) + ends;
    PartlyUndone(base(b), log, onDisk, k, b);
    if Touches(log, b) {
      var i :| 0 <= i < |log| && Covers(log[i], b);
      assert all[i] == log[i];
    }
    RecoveredForgets(Redo(base(b), (log + onDisk)[..k], b), base(b), all, b);
    RecoveryOfBaseAfterAbortEnds(base, log, lsn, ends, b);
  }
}
