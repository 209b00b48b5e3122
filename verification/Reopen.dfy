/** Opening a database again after a crash: loading the log file, recovery, truncation. */
module Reopen {
  import opened Bytes
  import opened LogSemantics
  import opened Recovery
  import opened Undo
  import opened CrashSafety
  import opened LogCodec
  import opened WalLog
  import opened BufferPool
  import opened Wal
  import opened RedoUndo

  // ---- the bytes of the file as pages ----

  function PagesOf(bytes: seq<Byte>): map<nat, Page>
    requires |bytes| % PAGE_SIZE == 0
  {
    map p: nat | p < |bytes| / PAGE_SIZE :: PageIn(bytes, p)
  }

  function PageIn(bytes: seq<Byte>, p: nat): Page
    requires (p + 1) * PAGE_SIZE <= |bytes|
  {
    bytes[p * PAGE_SIZE..(p + 1) * PAGE_SIZE]
  }

  lemma PagesHold(bytes: seq<Byte>, b: nat)
    requires |bytes| % PAGE_SIZE == 0
    ensures DiskImage(PagesOf(bytes))(b) == if b < |bytes| then bytes[b] else 0
  {
    var p := b / PAGE_SIZE;
    assert b == p * PAGE_SIZE + b % PAGE_SIZE;
  }

  // ---- the records after recovery ----

  lemma RecoveredInPage(log: seq<Record>, lsn: nat, ends: seq<Record>)
    requires AllInPage(log) && forall k :: 0 <= k < |ends| ==> ends[k].Control?
    ensures AllInPage(log + RecoveryClrs(log, lsn) + ends)
  {
    hide Finished, InPage, RecoveryClrs;
    var clrs := RecoveryClrs(log, lsn);
    RecoveryClrsUndo(log, lsn);
    forall k | 0 <= k < |clrs| ensures InPage(clrs[k]) {
      assert Undoes(log, clrs[k]);
      var i :| 0 <= i < |log| && log[i].Set? && log[i].txn !in Finished(log) && clrs[k] == Compensation(log[i], clrs[k].lsn);
      CompensationInPage(log, i, clrs[k].lsn);
    }
    forall k | 0 <= k < |ends| ensures InPage(ends[k]) {
      ControlInPage(ends[k]);
    }
  }

  lemma ControlInPage(r: Record)
    requires r.Control?
    ensures InPage(r)
  {
  }

  /** What the state of a log says that can be opened again. */
  ghost predicate Reopenable(s: System) {
    Bounded(s) && Inv(s) && AllInPage(s.log) && WellNumbered(s.log)
  }

  /** The state of every log is such a state, and its file holds the durable records. */
  lemma StateIsReopenable(w: Wal)
    requires w.Valid()
    ensures Reopenable(w.State()) && w.log.file == EncodeAll(w.log.checksum, DurableLog(w.State()))
  {
    hide Inv, EncodeAll, Shown, InPage;
    assert DurableLog(w.State()) == w.log.records[w.log.first..w.log.unflushed];
  }

  /** The log file holds the first `upTo` records, and what follows them fails its checksum or is not there. */
  ghost predicate Survived(checksum: Checksum, logFile: seq<Byte>, s: System, upTo: nat)
    requires upTo <= |s.log|
  {
    var log := s.log[..upTo];
    AllStorable(log) && Holds(logFile, 0, EncodeAll(checksum, log)) && StopsAt(checksum, logFile, |EncodeAll(checksum, log)|)
  }

  /** The array has the bytes of the data file, with room for every record. */
  ghost predicate OnDisk(bytes: seq<Byte>, s: System) {
    && |bytes| % PAGE_SIZE == 0
    && (forall b: nat {:trigger s.disk(b)} :: s.disk(b) == if b < |bytes| then bytes[b] else 0)
    && forall i :: 0 <= i < |s.log| && !s.log[i].Control? ==> s.log[i].loc + s.log[i].len <= |bytes|
  }

  lemma RecordsFit(s: System, bytes: seq<Byte>, upTo: nat)
    requires OnDisk(bytes, s) && AllInPage(s.log) && upTo <= |s.log|
    ensures forall i :: 0 <= i < upTo ==> Fits(s.log[..upTo][i], |bytes|)
  {
  }

  /** The bytes recovery leaves are those the restart step leaves. */
  lemma RecoveredBytes(s: System, before: seq<Byte>, after: seq<Byte>, upTo: nat)
    requires OnDisk(before, s) && upTo <= |s.log| && |after| == |before|
    requires forall b: nat :: b < |after| ==> after[b] == Recovered(before[b], s.log[..upTo], b)
    ensures |after| % PAGE_SIZE == 0
    ensures forall b: nat :: DiskImage(PagesOf(after))(b) == AfterCrash(s.(flushed := upTo), b)
  {
    hide Recovered, DiskImage;
    forall b: nat ensures DiskImage(PagesOf(after))(b) == AfterCrash(s.(flushed := upTo), b) {
      PagesHold(after, b);
      assert s.disk(b) == if b < |before| then before[b] else 0;
      if b >= |after| {
        RecoveredUntouched(0, s.log[..upTo], b);
      }
    }
  }

  /** How much of the log a crash may leave in the file: what was flushed, more of it when a flush is torn
      behind the records the truncation kept, and some of these when the tear does no harm. */
  ghost predicate MayLeave(s: System, upTo: nat)
    requires Bounded(s)
  {
    s.flushed <= upTo <= |s.log| && (upTo == s.flushed || s.settled <= upTo || HarmlessTear(s, upTo))
  }

  lemma RestartIs(s: System, upTo: nat, lsn: nat, ends: seq<Record>)
    requires Inv(s) && MayLeave(s, upTo) && EndsAll(s.(flushed := upTo), ends)
    ensures var s1 := s.(flushed := upTo);
      && Enabled(s1, Restart(lsn, ends)) && Inv(Next(s1, Restart(lsn, ends)))
      && (forall b: nat :: AfterCrash(s1, b) == Durable(s1, b) == Next(s1, Restart(lsn, ends)).disk(b))
  {
    hide WellFormed, Finished, Redo, Recovered, RecoveryClrs, AllFinished;
    var s1 := s.(flushed := upTo);
    RestartKeepsInv(s1, lsn, ends);
    if upTo == s.flushed || s.settled <= upTo {
      if upTo == s.flushed {
        assert s1 == s;
      } else {
        FlushKeepsInv(s, upTo);
      }
      forall b: nat ensures AfterCrash(s1, b) == Durable(s1, b) {
        CrashSafe(s1, b);
      }
    } else {
      forall b: nat ensures AfterCrash(s1, b) == Durable(s1, b) {
        TornFlushIff(s, upTo, b);
        assert DurableRecent(s1) == DurableRecent(s);
      }
    }
  }

  lemma WellNumberedPrefix(log: seq<Record>, k: nat)
    requires WellNumbered(log) && AllInPage(log) && k <= |log|
    ensures WellNumbered(log[..k]) && AllInPage(log[..k])
  {
    hide InPage;
  }

  /** The state to go on from: that of the restart step, over the pages of the recovered bytes. */
  lemma StateAfter(s: System, upTo: nat, before: seq<Byte>, after: seq<Byte>, records: seq<Record>, lsn: nat, ends: seq<Record>)
    requires Reopenable(s) && MayLeave(s, upTo) && OnDisk(before, s) && |after| == |before|
    requires forall b: nat :: b < |after| ==> after[b] == Recovered(before[b], s.log[..upTo], b)
    requires records == s.log[..upTo] + RecoveryClrs(s.log[..upTo], lsn) + ends && EndsAll(s.(flushed := upTo), ends)
    ensures |after| % PAGE_SIZE == 0
    ensures var s1 := s.(flushed := upTo);
      && Enabled(s1, Restart(lsn, ends)) && AllInPage(records)
      && var s2 := System(Next(s1, Restart(lsn, ends)).base, |records|, records, 0, DiskImage(PagesOf(after)));
      && Inv(s2) && s2 == Next(s1, Restart(lsn, ends)).(disk := s2.disk)
      && (forall b: nat :: s2.disk(b) == Next(s1, Restart(lsn, ends)).disk(b) == Durable(s1, b))
  {
    hide Inv, Recovered, RecoveryClrs, WellNumbered, AllInPage, Durable, DiskImage, PagesOf, EndsAll, OnDisk;
    WellNumberedPrefix(s.log, upTo);
    RestartIs(s, upTo, lsn, ends);
    EndsAreControls(s.(flushed := upTo), ends);
    RecoveredInPage(s.log[..upTo], lsn, ends);
    RecoveredBytes(s, before, after, upTo);
    SameDisk(Next(s.(flushed := upTo), Restart(lsn, ends)), DiskImage(PagesOf(after)));
  }

  lemma EndsAreControls(s: System, ends: seq<Record>)
    requires s.flushed <= |s.log| && EndsAll(s, ends)
    ensures forall k :: 0 <= k < |ends| ==> ends[k].Control?
  {
  }

  lemma EndedAll(s: System, upTo: nat, ends: seq<Record>)
    requires upTo <= |s.log| && forall k :: 0 <= k < |ends| ==> IsKind(ends[k], ABORT_END)
    requires AllFinished(s.log[..upTo], Finished(s.log[..upTo]) + Finished(ends))
    ensures EndsAll(s.(flushed := upTo), ends)
  {
  }

  /** The load loop and the recovery passes, over the files a crash left behind. */
  method LoadAndRecover(checksum: Checksum, logFile: seq<Byte>, store: array<Byte>, ghost s: System, ghost upTo: nat)
    returns (l: Log, nextTxnId: nat, ghost lsn: nat, ghost ends: seq<Record>)
    requires Reopenable(s) && MayLeave(s, upTo) && Survived(checksum, logFile, s, upTo) && OnDisk(store[..], s)
    modifies store
    ensures fresh(l) && l.Valid() && l.checksum == checksum && l.first == l.unflushed == 0 && l.file == [] && Named(l.records, nextTxnId, l.nextLsn)
    ensures forall i :: 0 <= i < |l.records| ==> l.records[i].txn < nextTxnId
    ensures EndsAll(s.(flushed := upTo), ends) && l.records == s.log[..upTo] + RecoveryClrs(s.log[..upTo], lsn) + ends
    ensures forall b: nat :: b < store.Length ==> store[b] == Recovered(old(store[b]), s.log[..upTo], b)
  {
    hide Inv, Recovered, RecoveryClrs, WellNumbered, AllInPage, Ordered, Named, OnDisk, EndsAll, Finished, AllFinished, Fits,
         EncodeAll, LoadFrom, Log.Valid;
    ghost var log := s.log[..upTo];
    RecordsFit(s, store[..], upTo);
    WellNumberedPrefix(s.log, upTo);
    LoadReturnsStored(checksum, logFile, 0, log);
    l := new Log.Opened(checksum, logFile);
    l.Load();
    assert l.records == log;
    var records, nextLsn, txn, ends' := RedoUndo.Run(l.records, store);
    nextTxnId, ends := txn, ends';
    lsn :| records == log + RecoveryClrs(log, lsn) + ends;
    EndedAll(s, upTo, ends);
    l.TakeOver(records, nextLsn);
  }

  /** Opens a database after a crash that left the first `upTo` records of the log in its file. The new log
      stands where the restart step of the state machine leads, and shows the durably committed bytes. */
  method Reopen(checksum: Checksum, poolSize: nat, logFile: seq<Byte>, store: array<Byte>, ghost s: System, ghost upTo: nat)
    returns (w: Wal, ghost lsn: nat, ghost ends: seq<Record>)
    requires Reopenable(s) && MayLeave(s, upTo) && Survived(checksum, logFile, s, upTo) && OnDisk(store[..], s)
    modifies store
    ensures fresh(w) && w.Valid() && w.log.file == [] && w.log.checksum == checksum && w.pool.poolSize == poolSize
    ensures w.activeTransactions == 0
    ensures forall i :: 0 <= i < |w.log.records| ==> w.log.records[i].txn < w.nextTxnId
    ensures var s1 := s.(flushed := upTo);
      && Enabled(s1, Restart(lsn, ends))
      && w.State() == Next(s1, Restart(lsn, ends)).(disk := w.State().disk)
      && (forall b: nat :: w.State().disk(b) == Next(s1, Restart(lsn, ends)).disk(b))
      && (forall b: nat :: w.Contents(b) == AfterCrash(w.State(), b) == Durable(s1, b))
  {
    hide Inv, Recovered, RecoveryClrs, AllInPage, Named, OnDisk, Durable, DiskImage, PagesOf, EndsAll, Log.Valid, WellNumbered,
         Survived, Wal.Valid, Shown;
    ghost var before := store[..];
    var l, nextTxnId;
    l, nextTxnId, lsn, ends := LoadAndRecover(checksum, logFile, store, s, upTo);
    StateAfter(s, upTo, before, store[..], l.records, lsn, ends);
    w := new Wal.Reopened(l, poolSize, PagesOf(store[..]), nextTxnId, Next(s.(flushed := upTo), Restart(lsn, ends)).base);
  }
}
