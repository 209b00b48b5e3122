/** The recovery procedure, over the loaded records and the bytes of the data file. */
module RedoUndo {
  import opened Basics
  import opened Bytes
  import opened LogSemantics
  import opened Recovery
  import opened Undo
  import opened Abort
  import opened CrashSafety
  import opened WalLog
  import opened Wal

  predicate Fits(r: Record, size: nat) {
    !r.Control? ==> r.loc + r.len <= size && |r.newVal| <= r.len && (r.Set? ==> |r.oldVal| <= r.len)
  }

  /** Copies the value of a SET or CLR into place and fills the rest of its range with zeros. */
  method ApplyRecord(store: array<Byte>, r: Record)
    requires Fits(r, store.Length)
    modifies store
    ensures forall b: nat :: b < store.Length ==> store[b] == if Covers(r, b) then NewAt(r, b) else old(store[b])
  {
    if !r.Control? {
      forall i | 0 <= i < |r.newVal| {
        store[r.loc + i] := r.newVal[i];
      }
      forall i | |r.newVal| <= i < r.len {
        store[r.loc + i] := 0;
      }
      forall b: nat | b < store.Length ensures store[b] == if Covers(r, b) then NewAt(r, b) else old(store[b]) {
        if Covers(r, b) {
          assert store[r.loc + (b - r.loc)] == NewAt(r, b);
        }
      }
    }
  }

  /** The first pass: redo everything and note which transactions ended. */
  method Replay(records: seq<Record>, store: array<Byte>, lsn: nat, txn: nat)
    returns (finished: set<nat>, nextLsn: nat, nextTxnId: nat)
    requires forall i :: 0 <= i < |records| ==> Fits(records[i], store.Length)
    modifies store
    ensures forall b: nat :: b < store.Length ==> store[b] == Redo(old(store[b]), records, b)
    ensures finished == Finished(records)
    ensures nextLsn >= lsn && nextTxnId >= txn
    ensures forall i :: 0 <= i < |records| ==> records[i].lsn < nextLsn && records[i].txn < nextTxnId
    ensures nextLsn == lsn || exists i :: 0 <= i < |records| && nextLsn == records[i].lsn + 1
    ensures nextTxnId == txn || exists i :: 0 <= i < |records| && nextTxnId == records[i].txn + 1
  {
    finished, nextLsn, nextTxnId := {}, lsn, txn;
    for i := 0 to |records|
      invariant forall b: nat :: b < store.Length ==> store[b] == Redo(old(store[b]), records[..i], b)
      invariant finished == Finished(records[..i])
      invariant nextLsn >= lsn && nextTxnId >= txn
      invariant forall k :: 0 <= k < i ==> records[k].lsn < nextLsn && records[k].txn < nextTxnId
      invariant nextLsn == lsn || exists k :: 0 <= k < i && nextLsn == records[k].lsn + 1
      invariant nextTxnId == txn || exists k :: 0 <= k < i && nextTxnId == records[k].txn + 1
    {
      var r := records[i];
      assert records[..i + 1] == records[..i] + [r];
      Snoc(records[..i], r);
      ApplyRecord(store, r);
      if IsKind(r, COMMIT) || IsKind(r, ABORT_END) {
        finished := finished + {r.txn};
      }
      nextLsn := Max(nextLsn, r.lsn + 1);
      nextTxnId := Max(nextTxnId, r.txn + 1);
    }
    assert records[..|records|] == records;
  }

  /** The second pass: the SETs to undo, and the names of all transactions that did not end. */
  method FindUnfinished(records: seq<Record>, finished: set<nat>) returns (toUndo: seq<nat>, aborted: set<nat>)
    ensures toUndo == OpenSets(records, finished)
    ensures forall t :: t in aborted <==> t !in finished && exists i :: 0 <= i < |records| && records[i].txn == t
  {
    toUndo, aborted := [], {};
    for i := 0 to |records|
      invariant toUndo == OpenSets(records[..i], finished)
      invariant forall t :: t in aborted <==> t !in finished && exists k :: 0 <= k < i && records[k].txn == t
    {
      var r := records[i];
      assert records[..i + 1] == records[..i] + [r];
      Snoc(records[..i], r);
      if r.txn !in finished {
        if r.Set? {
          toUndo := toUndo + [i];
        }
        aborted := aborted + {r.txn};
      }
    }
    assert records[..|records|] == records;
  }

  /** Creates, pushes and applies the CLRs, last SET first. */
  method UndoSets(log: seq<Record>, store: array<Byte>, toUndo: seq<nat>, lsn: nat) returns (records: seq<Record>,
                  nextLsn: nat)
    requires forall i :: 0 <= i < |log| ==> Fits(log[i], store.Length)
    requires forall k :: 0 <= k < |toUndo| ==> toUndo[k] < |log| && log[toUndo[k]].Set?
    modifies store
    ensures records == log + Compensations(log, toUndo, lsn) && nextLsn == lsn + |toUndo|
    ensures forall b: nat :: b < store.Length ==> store[b] == Unwound(old(store[b]), log, toUndo, b)
  {
    records, nextLsn := log, lsn;
    var j := |toUndo|;
    assert toUndo[..j] == toUndo;
    while j > 0
      invariant 0 <= j <= |toUndo| && nextLsn == lsn + |toUndo| - j
      invariant log <= records
      invariant records + Compensations(log, toUndo[..j], nextLsn) == log + Compensations(log, toUndo, lsn)
      invariant forall b: nat :: b < store.Length ==>
                  Unwound(store[b], log, toUndo[..j], b) == Unwound(old(store[b]), log, toUndo, b)
    {
      j := j - 1;
      assert toUndo[..j + 1][..j] == toUndo[..j];
      var clr := Compensation(records[toUndo[j]], nextLsn);
      nextLsn := nextLsn + 1;
      records := records + [clr];
      ApplyRecord(store, clr);
    }
    assert toUndo[..0] == [];
  }

  /** Writes an ABORT_END for every transaction that did not end, in no particular order. */
  method EndAborted(log: seq<Record>, aborted: set<nat>, lsn: nat) returns (ends: seq<Record>, nextLsn: nat)
    ensures forall k :: 0 <= k < |ends| ==> IsKind(ends[k], ABORT_END) && ends[k].lsn == lsn + k && ends[k].txn in aborted
    ensures nextLsn == lsn + |ends|
    ensures Finished(ends) == aborted && |ends| == |aborted|
  {
    ends, nextLsn := [], lsn;
    var rest := aborted;
    while rest != {}
      invariant forall k :: 0 <= k < |ends| ==> IsKind(ends[k], ABORT_END) && ends[k].lsn == lsn + k && ends[k].txn in aborted
      invariant nextLsn == lsn + |ends| && rest <= aborted
      invariant Finished(ends) == aborted - rest && |ends| + |rest| == |aborted|
    {
      var txn :| txn in rest;
      Snoc(ends, Control(nextLsn, txn, ABORT_END));
      ends := ends + [Control(nextLsn, txn, ABORT_END)];
      nextLsn := nextLsn + 1;
      rest := rest - {txn};
    }
  }

  lemma {:induction false} CompensationNumbers(log: seq<Record>, indices: seq<nat>, lsn: nat, bound: nat)
    requires forall k :: 0 <= k < |indices| ==> indices[k] < |log| && log[indices[k]].Set?
    requires forall i :: 0 <= i < |log| ==> log[i].txn < bound
    decreases indices
    ensures forall k :: 0 <= k < |indices| ==>
              Compensations(log, indices, lsn)[k].txn < bound && Compensations(log, indices, lsn)[k].lsn == lsn + k
  {
    if indices == [] {
    } else {
      CompensationNumbers(log, indices[..|indices| - 1], lsn + 1, bound);
    }
  }

  ghost predicate WellNumbered(log: seq<Record>) {
    && (forall i, j :: 0 <= i < j < |log| ==> log[i].lsn < log[j].lsn)
    && (forall i :: 0 <= i < |log| ==> log[i].txn <= log[i].lsn)
  }

  /** The LSN behind all of the log, the least such. */
  ghost predicate IsNextLsn(log: seq<Record>, lsn: nat) {
    && (forall i :: 0 <= i < |log| ==> log[i].lsn < lsn)
    && (lsn == 0 || exists i :: 0 <= i < |log| && lsn == log[i].lsn + 1)
  }

  /** The least transaction id behind all of the log. */
  ghost predicate IsNextTxnId(log: seq<Record>, txn: nat) {
    && (forall i :: 0 <= i < |log| ==> log[i].txn < txn)
    && (txn == 0 || exists i :: 0 <= i < |log| && txn == log[i].txn + 1)
  }

  lemma NextNumbers(log: seq<Record>, lsn: nat, txn: nat)
    requires forall i :: 0 <= i < |log| ==> log[i].lsn < lsn && log[i].txn < txn
    requires lsn == 0 || exists i :: 0 <= i < |log| && lsn == log[i].lsn + 1
    requires txn == 0 || exists i :: 0 <= i < |log| && txn == log[i].txn + 1
    ensures IsNextLsn(log, lsn) && IsNextTxnId(log, txn)
  {
  }

  lemma StillNumbered(log: seq<Record>, lsn: nat, txn: nat)
    requires WellNumbered(log) && IsNextLsn(log, lsn) && IsNextTxnId(log, txn)
    ensures Ordered(log, lsn) && Named(log, txn, lsn)
  {
  }

  /** Numbering stays strictly increasing through recovery, and still bounds the names. */
  lemma RecoveredNames(log: seq<Record>, indices: seq<nat>, ends: seq<Record>, lsn: nat, nextTxnId: nat)
    requires forall k :: 0 <= k < |indices| ==> indices[k] < |log| && log[indices[k]].Set?
    requires Ordered(log, lsn) && Named(log, nextTxnId, lsn)
    requires forall k :: 0 <= k < |ends| ==> ends[k].lsn == lsn + |indices| + k && ends[k].txn < lsn
    ensures var records := log + Compensations(log, indices, lsn) + ends;
      var nextLsn := lsn + |indices| + |ends|;
      Ordered(records, nextLsn) && Named(records, nextTxnId, nextLsn)
  {
    hide Compensations;
    CompensationNumbers(log, indices, lsn, lsn);
  }

  /** The ABORT_ENDs are those of all transactions the log names and does not finish. */
  ghost predicate EndsUnfinished(log: seq<Record>, ends: seq<Record>) {
    forall t :: t in Finished(ends) <==> t !in Finished(log) && exists i :: 0 <= i < |log| && log[i].txn == t
  }

  lemma AllEnded(log: seq<Record>, ends: seq<Record>)
    requires EndsUnfinished(log, ends)
    ensures AllFinished(log, Finished(log) + Finished(ends))
  {
    hide Finished;
  }

  lemma RecoveredNumbers(log: seq<Record>, ends: seq<Record>, lsn: nat, txn: nat)
    requires IsNextLsn(log, lsn) && IsNextTxnId(log, txn)
    requires forall k :: 0 <= k < |ends| ==> ends[k].lsn == lsn + |RecoveryClrs(log, lsn)| + k && ends[k].txn < txn
    ensures WellNumbered(log) ==>
              var nextLsn := lsn + |RecoveryClrs(log, lsn)| + |ends|;
              Ordered(log + RecoveryClrs(log, lsn) + ends, nextLsn) && Named(log + RecoveryClrs(log, lsn) + ends, txn, nextLsn)
  {
    hide Compensations, OpenSets, Ordered, WellNumbered, Finished;
    if WellNumbered(log) {
      StillNumbered(log, lsn, txn);
      RecoveredNames(log, OpenSets(log, Finished(log)), ends, lsn, txn);
    }
  }

  /** Recovery names no transaction that the log does not. */
  lemma RecoveredIds(log: seq<Record>, lsn: nat, ends: seq<Record>, txn: nat)
    requires forall i :: 0 <= i < |log| ==> log[i].txn < txn
    requires forall k :: 0 <= k < |ends| ==> ends[k].txn < txn
    ensures var records := log + RecoveryClrs(log, lsn) + ends;
      forall i :: 0 <= i < |records| ==> records[i].txn < txn
  {
    hide Compensations, OpenSets, Finished;
    CompensationNumbers(log, OpenSets(log, Finished(log)), lsn, txn);
  }

  /** What the passes leave in the log. */
  lemma PassesLeave(log: seq<Record>, lsn: nat, txn: nat, toUndo: seq<nat>, aborted: set<nat>, undone: seq<Record>, ends: seq<Record>)
    requires IsNextLsn(log, lsn) && IsNextTxnId(log, txn) && toUndo == OpenSets(log, Finished(log))
    requires forall t :: t in aborted <==> t !in Finished(log) && exists i :: 0 <= i < |log| && log[i].txn == t
    requires undone == log + Compensations(log, toUndo, lsn)
    requires forall k :: 0 <= k < |ends| ==> ends[k].lsn == lsn + |toUndo| + k && ends[k].txn in aborted
    requires Finished(ends) == aborted && |ends| == |aborted|
    ensures var records, nextLsn := undone + ends, lsn + |toUndo| + |ends|;
      && records == log + RecoveryClrs(log, lsn) + ends && nextLsn == lsn + |RecoveryClrs(log, lsn)| + |ends|
      && AllFinished(log, Finished(log) + Finished(ends)) && EndsUnfinished(log, ends) && |ends| == |Finished(ends)|
      && (forall i :: 0 <= i < |records| ==> records[i].txn < txn)
      && (WellNumbered(log) ==> Ordered(records, nextLsn) && Named(records, txn, nextLsn))
  {
    hide Compensations, OpenSets, Ordered, Named, WellNumbered, Finished, AllFinished, IsNextLsn;
    assert EndsUnfinished(log, ends);
    AllEnded(log, ends);
    RecoveredIds(log, lsn, ends, txn);
    RecoveredNumbers(log, ends, lsn, txn);
  }

  /** Recovery of loaded records over the bytes of the data file. */
  method Run(log: seq<Record>, store: array<Byte>) returns (records: seq<Record>, nextLsn: nat, nextTxnId: nat,
             ends: seq<Record>)
    requires forall i :: 0 <= i < |log| ==> Fits(log[i], store.Length)
    modifies store
    ensures forall b: nat :: b < store.Length ==> store[b] == Recovered(old(store[b]), log, b)
    ensures exists lsn: nat :: IsNextLsn(log, lsn) && records == log + RecoveryClrs(log, lsn) + ends
                               && nextLsn == lsn + |RecoveryClrs(log, lsn)| + |ends|
    ensures forall k :: 0 <= k < |ends| ==> IsKind(ends[k], ABORT_END)
    ensures AllFinished(log, Finished(log) + Finished(ends))
    ensures EndsUnfinished(log, ends) && |ends| == |Finished(ends)|
    ensures IsNextTxnId(log, nextTxnId) && forall i :: 0 <= i < |records| ==> records[i].txn < nextTxnId
    ensures WellNumbered(log) ==> Ordered(records, nextLsn) && Named(records, nextTxnId, nextLsn)
  {
    hide Redo, Unwound, Compensations, OpenSets, Ordered, Named, WellNumbered, FirstOpen, Finished, AllFinished, IsNextLsn,
         IsNextTxnId, EndsUnfinished, Fits, RecoveryClrs;
    var finished, lsn, txn := Replay(log, store, 0, 0);
    label Replayed:
    NextNumbers(log, lsn, txn);
    var toUndo, aborted := FindUnfinished(log, finished);
    records, nextLsn := UndoSets(log, store, toUndo, lsn);
    forall b: nat | b < store.Length ensures store[b] == Recovered(old(store[b]), log, b) {
      OpenSetsUnwind(old@Replayed(store[b]), log, log, finished, b);
    }
    nextTxnId := txn;
    ends, nextLsn := EndAborted(records, aborted, nextLsn);
    PassesLeave(log, lsn, txn, toUndo, aborted, records, ends);
    records := records + ends;
  }
}
