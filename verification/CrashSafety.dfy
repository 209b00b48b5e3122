/** Whole runs of the logging layer, with a crash possible after every step. The state keeps the
    log since the last truncation, how much of it is durable, and what the data file holds; the
    theorem is that the two volatile images of an atomic store are all a client can ever see. */
module CrashSafety {
  import opened Bytes
  import opened LogSemantics
  import opened Recovery
  import opened Undo
  import opened Abort

  /** `base` is the data file at the last truncation. The first `settled` log records were already
      part of it then: a truncation does not forget the records in memory, so the next flush
      writes them again. */
  datatype System = System(base: Image, settled: nat, log: seq<Record>, flushed: nat, disk: Image)

  /** Append: a record is applied and pushed. Flush: the log file grows up to record `upTo`.
      WriteBack: the buffer pool writes a dirty page. Checkpoint: flush all pages, truncate.
      Restart: crash, then recovery, then truncation; `ends` are its ABORT_ENDs.
      CrashAgain: crash, then a recovery that crashes too, each byte of the file reflecting as
      much of that recovery as `reached` says. TornRestart: a crash in the first flush after a truncation
      leaves only `upTo` of the records the truncation kept in the log file; recoveries may crash, one
      completes. */
  datatype Step =
    | Append(r: Record)
    | Flush(upTo: nat)
    | WriteBack(page: nat)
    | Checkpoint
    | Restart(lsn: nat, ends: seq<Record>)
    | CrashAgain(lsn: nat, reached: nat -> nat)
    | TornRestart(upTo: nat, lsn: nat, ends: seq<Record>, reached: nat -> nat)

  /** The log records not already contained in the base image. */
  function Recent(s: System): seq<Record>
    requires s.settled <= |s.log|
  {
    s.log[s.settled..]
  }

  /** The logical contents, as the buffer pool shows them. */
  function Memory(s: System, b: nat): Byte {
    Redo(s.base(b), s.log, b)
  }

  function DurableLog(s: System): seq<Record>
    requires s.flushed <= |s.log|
  {
    s.log[..s.flushed]
  }

  function DurableRecent(s: System): seq<Record>
    requires s.settled <= |s.log| && s.flushed <= |s.log|
  {
    if s.flushed <= s.settled then [] else s.log[s.settled..s.flushed]
  }

  /** The committed image, counting commits whose record is not durable yet. */
  function Volatile(s: System, b: nat): Byte
    requires s.settled <= |s.log|
  {
    CommittedValue(s.base(b), Recent(s), b)
  }

  /** The committed image, counting only durable COMMIT records. */
  function Durable(s: System, b: nat): Byte
    requires s.settled <= |s.log| && s.flushed <= |s.log|
  {
    CommittedValue(s.base(b), DurableRecent(s), b)
  }

  /** What a crash now, followed by recovery, leaves in the data file. */
  function AfterCrash(s: System, b: nat): Byte
    requires s.flushed <= |s.log|
  {
    Recovered(s.disk(b), DurableLog(s), b)
  }

  ghost predicate AllFinished(log: seq<Record>, fin: set<nat>) {
    forall i :: 0 <= i < |log| && log[i].Set? ==> log[i].txn in fin
  }

  ghost predicate NoneFinished(log: seq<Record>, fin: set<nat>) {
    forall i :: 0 <= i < |log| && log[i].Set? ==> log[i].txn !in fin
  }

  /** The bytes of the file that do not hold the base byte are written by the durable log: what
      the write-ahead rule is for. */
  ghost predicate WriteAhead(s: System)
    requires s.flushed <= |s.log|
  {
    forall b {:trigger s.disk(b)} :: s.disk(b) == s.base(b) || Touches(DurableLog(s), b)
  }

  ghost predicate SettledInBase(s: System)
    requires s.settled <= |s.log|
  {
    forall b {:trigger s.base(b)} :: Redo(s.base(b), s.log[..s.settled], b) == s.base(b)
  }

  predicate Bounded(s: System) {
    s.settled <= |s.log| && s.flushed <= |s.log|
  }

  ghost predicate Inv(s: System) {
    && Bounded(s)
    && (s.flushed == 0 || s.settled <= s.flushed)
    && WellFormed(s.base, Recent(s))
    && AllFinished(s.log[..s.settled], Finished(s.log[..s.settled]))
    && NoneFinished(Recent(s), Finished(s.log[..s.settled]))
    && SettledInBase(s)
    && WriteAhead(s)
  }

  function Start(image: Image): System {
    System(image, 0, [], 0, image)
  }

  /** The record continues the log after its settled part, and names no transaction finished there. */
  ghost predicate MayAppend(base: Image, log: seq<Record>, settled: nat, r: Record)
    requires settled <= |log|
  {
    MayFollow(base, log[settled..], r) && (r.Set? ==> r.txn !in Finished(log[..settled]))
  }

  /** The log file holds only the first `upTo` records, all from before the truncation, and where they write
      they recover what all of those records left. */
  ghost predicate HarmlessTear(s: System, upTo: nat)
    requires upTo <= |s.log| && s.settled <= |s.log|
  {
    forall b :: Touches(s.log[..upTo], b) ==> Recovered(0, s.log[..upTo], b) == Redo(0, s.log[..s.settled], b)
  }

  /** The ABORT_ENDs finish everything that the durable log leaves unfinished. */
  ghost predicate EndsAll(s: System, ends: seq<Record>)
    requires s.flushed <= |s.log|
  {
    && (forall k :: 0 <= k < |ends| ==> IsKind(ends[k], ABORT_END))
    && AllFinished(DurableLog(s), Finished(DurableLog(s)) + Finished(ends))
  }

  function Tried(s: System, lsn: nat): seq<Record>
    requires s.flushed <= |s.log|
  {
    DurableLog(s) + RecoveryClrs(DurableLog(s), lsn)
  }

  /** The data file after a recovery that crashed. */
  ghost function PartlyRecovered(s: System, lsn: nat, reached: nat -> nat): Image
    requires s.flushed <= |s.log|
  {
    b => if reached(b) <= |Tried(s, lsn)| then Redo(s.disk(b), Tried(s, lsn)[..reached(b)], b) else s.disk(b)
  }

  /** Recovery and truncation. */
  ghost function Restarted(s: System, lsn: nat, ends: seq<Record>): System
    requires s.flushed <= |s.log|
  {
    var image: Image := b => AfterCrash(s, b);
    var log := Tried(s, lsn) + ends;
    System(image, |log|, log, 0, image)
  }

  ghost predicate Enabled(s: System, step: Step)
    requires Bounded(s)
  {
    match step
    case Append(r) =>
      MayAppend(s.base, s.log, s.settled, r)
    case Flush(upTo) =>
      s.flushed <= upTo <= |s.log| && s.settled <= upTo
    case WriteBack(page) =>
      // The write-ahead rule: every record that touched the page is durable.
      forall i, b :: s.flushed <= i < |s.log| && s.settled <= i && b / PAGE_SIZE == page ==> !Covers(s.log[i], b)
    case Checkpoint =>
      AllFinished(Recent(s), Finished(Recent(s)))
    case Restart(_, ends) =>
      EndsAll(s, ends)
    case CrashAgain(lsn, reached) =>
      forall b :: reached(b) <= |Tried(s, lsn)|
    case TornRestart(upTo, _, ends, _) =>
      s.flushed == 0 && upTo <= s.settled && HarmlessTear(s, upTo) && EndsAll(s.(flushed := upTo), ends)
  }

  ghost function Next(s: System, step: Step): System
    requires Bounded(s) && Enabled(s, step)
  {
    match step
    case Append(r) =>
      s.(log := s.log + [r])
    case Flush(upTo) =>
      s.(flushed := upTo)
    case WriteBack(page) =>
      s.(disk := (b: nat) => if b / PAGE_SIZE == page then Memory(s, b) else s.disk(b))
    case Checkpoint =>
      var image: Image := b => Memory(s, b);
      System(image, |s.log| - s.flushed, s.log[s.flushed..], 0, image)
    case Restart(lsn, ends) =>
      Restarted(s, lsn, ends)
    case CrashAgain(lsn, reached) =>
      System(s.base, if s.flushed == 0 then 0 else s.settled, DurableLog(s), s.flushed, PartlyRecovered(s, lsn, reached))
    case TornRestart(upTo, lsn, ends, reached) =>
      var torn := s.(flushed := upTo);
      Restarted(torn.(disk := PartlyRecovered(torn, lsn, reached)), lsn, ends)
  }

  // ---- a crash loses nothing but uncommitted work ----

  /** Records whose effect the base already has, all of finished transactions, do not matter. */
  lemma SettledPrefix(v: Byte, settled: seq<Record>, recent: seq<Record>, b: nat)
    requires AllFinished(settled, Finished(settled)) && NoneFinished(recent, Finished(settled))
    requires Redo(v, settled, b) == v
    ensures Recovered(v, settled + recent, b) == Recovered(v, recent, b)
    ensures Redo(v, settled + recent, b) == Redo(v, recent, b)
  {
    var all := settled + recent;
    var fin := Finished(settled) + Finished(recent);
    FinishedConcat(settled, recent);
    var j := FirstOpen(recent, Finished(recent), b);
    assert forall k :: 0 <= k < |settled| ==> all[k] == settled[k];
    assert forall k :: |settled| <= k < |all| ==> all[k] == recent[k - |settled|];
    FirstOpenIs(all, fin, b, if j < 0 then -1 else |settled| + j);
    RedoConcat(v, settled, recent, b);
  }

  lemma NoneFinishedPrefix(s: System)
    requires Inv(s) && s.settled <= s.flushed
    ensures NoneFinished(DurableRecent(s), Finished(s.log[..s.settled]))
    ensures WellFormed(s.base, DurableRecent(s))
    ensures DurableLog(s) == s.log[..s.settled] + DurableRecent(s)
  {
    var n := s.flushed - s.settled;
    WellFormedPrefix(s.base, Recent(s), n);
    assert Recent(s)[..n] == DurableRecent(s);
    assert forall k :: 0 <= k < n ==> DurableRecent(s)[k] == Recent(s)[k];
  }

  /** Crash safety of a state: recovery leaves exactly the durably committed image. */
  lemma CrashSafe(s: System, b: nat)
    requires Inv(s)
    ensures AfterCrash(s, b) == Durable(s, b)
  {
    hide WellFormed, MayFollow;
    if s.settled <= s.flushed {
      NoneFinishedPrefix(s);
      RecoveredForgets(s.disk(b), s.base(b), DurableLog(s), b);
      SettledPrefix(s.base(b), s.log[..s.settled], DurableRecent(s), b);
      RecoveryIsAtomic(s.base, DurableRecent(s), b);
    } else {
      assert DurableLog(s) == [] && DurableRecent(s) == [];
      assert s.disk(b) == s.base(b);
    }
  }

  /** The logical contents are the base with the recent records replayed. */
  lemma MemoryIsRecent(s: System, b: nat)
    requires Inv(s)
    ensures Memory(s, b) == Redo(s.base(b), Recent(s), b)
  {
    hide WellFormed, MayFollow;
    assert s.log == s.log[..s.settled] + Recent(s);
    SettledPrefix(s.base(b), s.log[..s.settled], Recent(s), b);
  }

  // ---- every step keeps the invariant ----

  lemma AppendKeepsInv(s: System, r: Record)
    requires Inv(s) && Enabled(s, Append(r))
    ensures Inv(Next(s, Append(r)))
    ensures Recent(Next(s, Append(r))) == Recent(s) + [r]
    ensures DurableLog(Next(s, Append(r))) == DurableLog(s)
    ensures DurableRecent(Next(s, Append(r))) == DurableRecent(s)
  {
    hide MayFollow, Finished, Redo, WellFormed, AllFinished, NoneFinished, Touches, Recent, DurableLog, DurableRecent;
    AppendedParts(s, r);
    AppendedRecent(s.base, Recent(s), Finished(s.log[..s.settled]), r);
  }

  lemma AppendedParts(s: System, r: Record)
    requires Bounded(s)
    ensures var s' := s.(log := s.log + [r]);
      && Recent(s') == Recent(s) + [r] && s'.log[..s.settled] == s.log[..s.settled]
      && DurableLog(s') == DurableLog(s) && DurableRecent(s') == DurableRecent(s)
    ensures Recent(s) == s.log[s.settled..]
  {
  }

  lemma AppendedRecent(base: Image, recent: seq<Record>, fin: set<nat>, r: Record)
    requires WellFormed(base, recent) && MayFollow(base, recent, r) && NoneFinished(recent, fin)
    requires r.Set? ==> r.txn !in fin
    ensures WellFormed(base, recent + [r]) && NoneFinished(recent + [r], fin)
  {
    hide MayFollow;
    Snoc(recent, r);
  }

  lemma TouchesGrows(log: seq<Record>, k: nat, l: nat, b: nat)
    requires k <= l <= |log| && Touches(log[..k], b)
    ensures Touches(log[..l], b)
  {
    var i :| 0 <= i < k && Covers(log[..k][i], b);
    assert Covers(log[..l][i], b);
  }

  lemma FlushKeepsInv(s: System, upTo: nat)
    requires Inv(s) && Enabled(s, Flush(upTo))
    ensures Inv(Next(s, Flush(upTo)))
  {
    hide WellFormed, Finished, Redo;
    var s' := Next(s, Flush(upTo));
    forall b: nat ensures s'.disk(b) == s'.base(b) || Touches(DurableLog(s'), b) {
      if s.disk(b) != s.base(b) {
        TouchesGrows(s.log, s.flushed, upTo, b);
      }
    }
  }

  lemma WriteBackKeepsInv(s: System, page: nat)
    requires Inv(s) && Enabled(s, WriteBack(page))
    ensures Inv(Next(s, WriteBack(page)))
  {
    hide WellFormed, Finished;
    var s' := Next(s, WriteBack(page));
    forall b: nat ensures s'.disk(b) == s'.base(b) || Touches(DurableLog(s'), b) {
      if b / PAGE_SIZE == page {
        MemoryIsRecent(s, b);
        RedoForgets(s.base(b), s.base(b), Recent(s), b);
        if Touches(Recent(s), b) {
          var i :| 0 <= i < |Recent(s)| && Covers(Recent(s)[i], b);
          assert Recent(s)[i] == s.log[s.settled + i];
          assert Covers(DurableLog(s)[s.settled + i], b);
        }
      }
    }
  }

  /** After a truncation the records still in memory belong to finished transactions only. */
  lemma {:induction false} TailFinished(base: Image, log: seq<Record>, k: nat)
    requires WellFormed(base, log) && AllFinished(log, Finished(log)) && k <= |log|
    ensures AllFinished(log[k..], Finished(log[k..]))
  {
    hide WellFormed, Finished;
    forall i | 0 <= i < |log[k..]| && log[k..][i].Set? ensures log[k..][i].txn in Finished(log[k..]) {
      assert log[k..][i] == log[k + i];
      FinishesLater(base, log, k, k + i);
    }
  }

  /** The transaction of a SET is finished by a record behind it. */
  lemma FinishesLater(base: Image, log: seq<Record>, k: nat, i: nat)
    requires WellFormed(base, log) && k <= i < |log| && log[i].Set? && log[i].txn in Finished(log)
    ensures log[i].txn in Finished(log[k..])
  {
    hide WellFormed, Finished, RecordsOldValue, ExclusiveAt;
    WellFormedPrefix(base, log, i);
    assert log == log[..k] + log[k..] && log[..i] == log[..k] + log[k..i];
    FinishedConcat(log[..k], log[k..]);
    FinishedConcat(log[..k], log[k..i]);
  }

  lemma CheckpointKeepsInv(s: System)
    requires Inv(s) && Enabled(s, Checkpoint)
    ensures Inv(Next(s, Checkpoint))
  {
    hide WellFormed, Finished, Redo, AllFinished, Touches;
    var s' := Next(s, Checkpoint);
    assert s'.log[..s'.settled] == s'.log;
    assert Recent(s') == [];
    EmptyIsWellFormed(s'.base);
    forall b ensures Redo(s'.base(b), s'.log, b) == s'.base(b) {
      assert s.log == s.log[..s.flushed] + s'.log;
      RedoConcat(s.base(b), s.log[..s.flushed], s'.log, b);
      RedoTwice(Redo(s.base(b), s.log[..s.flushed], b), s'.log, b);
    }
    UnflushedFinished(s);
  }

  lemma UnflushedFinished(s: System)
    requires Inv(s) && AllFinished(Recent(s), Finished(Recent(s)))
    ensures AllFinished(s.log[s.flushed..], Finished(s.log[s.flushed..]))
  {
    hide WellFormed, Finished, Redo, AllFinished, WriteAhead, SettledInBase, NoneFinished;
    var tail := s.log[s.flushed..];
    if s.settled <= s.flushed {
      TailFinished(s.base, Recent(s), s.flushed - s.settled);
      assert Recent(s)[s.flushed - s.settled..] == tail;
    } else {
      assert tail == s.log == s.log[..s.settled] + Recent(s);
      WholeFinished(s.log[..s.settled], Recent(s));
    }
  }

  lemma EmptyIsWellFormed(base: Image)
    ensures WellFormed(base, [])
  {
  }

  lemma WholeFinished(settled: seq<Record>, recent: seq<Record>)
    requires AllFinished(settled, Finished(settled)) && AllFinished(recent, Finished(recent))
    ensures AllFinished(settled + recent, Finished(settled + recent))
  {
    FinishedConcat(settled, recent);
  }

  lemma RestartKeepsInv(s: System, lsn: nat, ends: seq<Record>)
    requires s.flushed <= |s.log| && EndsAll(s, ends)
    ensures Inv(Restarted(s, lsn, ends))
  {
    hide WellFormed, Finished, Redo, RecoveryClrs, Recovered;
    var s' := Restarted(s, lsn, ends);
    var log := DurableLog(s);
    var clrs := RecoveryClrs(log, lsn);
    assert s'.log[..s'.settled] == s'.log;
    assert Recent(s') == [];
    EmptyIsWellFormed(s'.base);
    forall b ensures Redo(s'.base(b), s'.log, b) == s'.base(b) {
      RecoveryReplays(s.disk(b), log, lsn, b);
      RedoConcat(s.disk(b), log + clrs, ends, b);
      RedoForgets(Redo(s.disk(b), log + clrs, b), 0, ends, b);
      RedoTwice(s.disk(b), s'.log, b);
    }
    RecoveryClrsUndo(log, lsn);
    ClrsFinishNothing(log, clrs);
    FinishedConcat(log + clrs, ends);
    assert forall k :: 0 <= k < |s'.log| && s'.log[k].Set? ==> k < |log| && s'.log[k] == log[k];
  }

  lemma CrashAgainKeepsInv(s: System, lsn: nat, reached: nat -> nat)
    requires Inv(s) && Enabled(s, CrashAgain(lsn, reached))
    ensures Inv(Next(s, CrashAgain(lsn, reached)))
  {
    hide Finished, Redo, RecoveryClrs, MayFollow;
    var s' := Next(s, CrashAgain(lsn, reached));
    var log := DurableLog(s);
    var tried := log + RecoveryClrs(log, lsn);
    RecoveryClrsUndo(log, lsn);
    forall b: nat ensures s'.disk(b) == s'.base(b) || Touches(DurableLog(s'), b) {
      PartlyUndone(s.disk(b), log, RecoveryClrs(log, lsn), reached(b), b);
      assert DurableLog(s') == log;
    }
    if s.flushed == 0 {
      assert log == [];
      EmptyIsSettled(s.base);
    } else {
      NoneFinishedPrefix(s);
      assert Recent(s') == DurableRecent(s);
      assert s'.log[..s'.settled] == s.log[..s.settled];
    }
  }

  lemma EmptyIsSettled(base: Image)
    ensures forall b {:trigger base(b)} :: Redo(base(b), [], b) == base(b)
    ensures Finished([]) == {}
  {
  }

  lemma StepKeepsInv(s: System, step: Step)
    requires Inv(s) && Enabled(s, step)
    ensures Inv(Next(s, step))
  {
    match step
    case Append(r) => AppendKeepsInv(s, r);
    case Flush(upTo) => FlushKeepsInv(s, upTo);
    case WriteBack(page) => WriteBackKeepsInv(s, page);
    case Checkpoint => CheckpointKeepsInv(s);
    case Restart(lsn, ends) => RestartKeepsInv(s, lsn, ends);
    case CrashAgain(lsn, reached) => CrashAgainKeepsInv(s, lsn, reached);
    case TornRestart(upTo, lsn, ends, reached) =>
      var torn := s.(flushed := upTo);
      RestartKeepsInv(torn.(disk := PartlyRecovered(torn, lsn, reached)), lsn, ends);
  }

  // ---- flushes torn among the records a truncation kept ----

  /** What a crash leaves at a byte after a flush that was torn among the records the truncation kept: the
      durably committed byte, if and only if those that got written recover it wherever they write. */
  lemma TornFlushIff(s: System, upTo: nat, b: nat)
    requires Inv(s) && s.flushed == 0 && upTo <= s.settled
    ensures AfterCrash(s.(flushed := upTo), b) == Durable(s, b) <==>
            (Touches(s.log[..upTo], b) ==> Recovered(0, s.log[..upTo], b) == Redo(0, s.log[..s.settled], b))
  {
    hide WellFormed, Recovered, Redo, Finished;
    UntouchedIsBase(s, b);
    var torn := s.log[..upTo];
    if Touches(torn, b) {
      RecoveredForgets(s.disk(b), 0, torn, b);
      TouchesGrows(s.log, upTo, s.settled, b);
      RedoForgets(s.base(b), 0, s.log[..s.settled], b);
    } else {
      RecoveredUntouched(s.disk(b), torn, b);
    }
  }

  /** Before the first flush the data file is the base, which is all that is durable. */
  lemma UntouchedIsBase(s: System, b: nat)
    requires Inv(s) && s.flushed == 0
    ensures s.disk(b) == s.base(b) == Durable(s, b) && Redo(s.base(b), s.log[..s.settled], b) == s.base(b)
  {
    hide WellFormed;
    assert DurableLog(s) == [] && DurableRecent(s) == [];
  }

  lemma RecoveredUntouched(v: Byte, log: seq<Record>, b: nat)
    requires !Touches(log, b)
    ensures Recovered(v, log, b) == v
  {
    RedoForgets(v, v, log, b);
  }

  /** A recovery that crashed in between changes nothing. */
  lemma PartlyRecoveredSame(s: System, lsn: nat, reached: nat -> nat, b: nat)
    requires s.flushed <= |s.log|
    ensures AfterCrash(s.(disk := PartlyRecovered(s, lsn, reached)), b) == AfterCrash(s, b)
  {
    hide Recovered, RecoveryClrs, Redo;
    var log, tried := DurableLog(s), Tried(s, lsn);
    var w := PartlyRecovered(s, lsn, reached)(b);
    RecoveryClrsUndo(log, lsn);
    if reached(b) <= |tried| {
      PartlyUndone(s.disk(b), log, RecoveryClrs(log, lsn), reached(b), b);
    }
    RecoveredForgets(w, s.disk(b), log, b);
  }

  lemma TornRestartRefines(s: System, upTo: nat, lsn: nat, ends: seq<Record>, reached: nat -> nat, b: nat)
    requires Inv(s) && Enabled(s, TornRestart(upTo, lsn, ends, reached))
    ensures var s' := Next(s, TornRestart(upTo, lsn, ends, reached));
      Bounded(s') && Volatile(s', b) == Durable(s, b) && Durable(s', b) == Durable(s, b)
  {
    hide WellFormed, Recovered, RecoveryClrs, Redo, Finished, PartlyRecovered;
    var torn := s.(flushed := upTo);
    PartlyRecoveredSame(torn, lsn, reached, b);
    TornFlushIff(s, upTo, b);
    var s' := Next(s, TornRestart(upTo, lsn, ends, reached));
    assert Recent(s') == [] && DurableRecent(s') == [];
  }

  // ---- every step refines an atomic store ----

  predicate SetHere(log: seq<Record>, txn: nat, b: nat) {
    exists i :: 0 <= i < |log| && SetOf(log[i], txn) && Covers(log[i], b)
  }

  /** A COMMIT record makes the bytes its transaction SET committed as they now are in memory, and
      no other byte. */
  lemma CommitPublishes(base: Image, log: seq<Record>, r: Record, b: nat)
    requires WellFormed(base, log) && IsKind(r, COMMIT) && MayFollow(base, log, r)
    ensures CommittedValue(base(b), log + [r], b)
         == if SetHere(log, r.txn, b) then Redo(base(b), log, b) else CommittedValue(base(b), log, b)
  {
    var v := base(b);
    Snoc(log, r);
    WellFormedIsGood(base, log, b);
    if SetHere(log, r.txn, b) {
      var k :| 0 <= k < |log| && SetOf(log[k], r.txn) && Covers(log[k], b);
      assert SetsAt(log[k], b);
      var i := FirstOpen(log, Finished(log), b);
      assert log[i].txn == r.txn;
      OnlyChosenWrite(v, log, Committed(log + [r]), b, i);
    } else {
      AppliedAgree(v, log, Committed(log), Committed(log + [r]), b);
    }
  }

  lemma OtherRecordsPublishNothing(v: Byte, base: Image, log: seq<Record>, r: Record, b: nat)
    requires !IsKind(r, COMMIT) && MayFollow(base, log, r)
    ensures CommittedValue(v, log + [r], b) == CommittedValue(v, log, b)
  {
    Snoc(log, r);
    CommittedAreFinished(log);
    assert Committed(log + [r]) == Committed(log);
  }

  lemma AppendRefines(s: System, r: Record, b: nat)
    requires Inv(s) && Enabled(s, Append(r))
    ensures var s' := Next(s, Append(r));
      && Inv(s') && Durable(s', b) == Durable(s, b)
      && Volatile(s', b) == if IsKind(r, COMMIT) && SetHere(Recent(s), r.txn, b) then Memory(s, b) else Volatile(s, b)
  {
    hide Inv, WellFormed, MayFollow;
    AppendKeepsInv(s, r);
    MemoryIsRecent(s, b);
    InvWellFormed(s);
    EnabledMayFollow(s, r);
    if IsKind(r, COMMIT) {
      CommitPublishes(s.base, Recent(s), r, b);
    } else {
      OtherRecordsPublishNothing(s.base(b), s.base, Recent(s), r, b);
    }
  }

  lemma InvWellFormed(s: System)
    requires Inv(s)
    ensures s.settled <= |s.log| && s.flushed <= |s.log| && WellFormed(s.base, Recent(s))
  {
    hide WellFormed;
  }

  lemma EnabledMayFollow(s: System, r: Record)
    requires Inv(s) && Enabled(s, Append(r))
    ensures s.settled <= |s.log| && MayFollow(s.base, Recent(s), r)
  {
    hide MayFollow;
  }

  /** With all transactions finished, memory holds the committed image. */
  lemma QuiescentMemory(s: System, b: nat)
    requires Inv(s) && AllFinished(Recent(s), Finished(Recent(s)))
    ensures Memory(s, b) == Volatile(s, b)
  {
    hide WellFormed, MayFollow;
    MemoryIsRecent(s, b);
    RecoveryIsAtomic(s.base, Recent(s), b);
    var i := FirstOpen(Recent(s), Finished(Recent(s)), b);
    assert i < 0;
  }

  lemma RestartRefines(s: System, lsn: nat, ends: seq<Record>, b: nat)
    requires Inv(s) && Enabled(s, Restart(lsn, ends))
    ensures var s' := Next(s, Restart(lsn, ends));
      Inv(s') && Volatile(s', b) == Durable(s, b) && Durable(s', b) == Durable(s, b)
  {
    RestartKeepsInv(s, lsn, ends);
    CrashSafe(s, b);
    var s' := Next(s, Restart(lsn, ends));
    assert Recent(s') == [] && DurableRecent(s') == [];
  }

  lemma CrashAgainRefines(s: System, lsn: nat, reached: nat -> nat, b: nat)
    requires Inv(s) && Enabled(s, CrashAgain(lsn, reached))
    ensures var s' := Next(s, CrashAgain(lsn, reached));
      Inv(s') && Volatile(s', b) == Durable(s, b) && Durable(s', b) == Durable(s, b)
  {
    hide Redo, RecoveryClrs;
    CrashAgainKeepsInv(s, lsn, reached);
    var s' := Next(s, CrashAgain(lsn, reached));
    assert Recent(s') == DurableRecent(s);
    assert DurableRecent(s') == DurableRecent(s);
  }

  lemma CheckpointRefines(s: System, b: nat)
    requires Inv(s) && Enabled(s, Checkpoint)
    ensures var s' := Next(s, Checkpoint);
      Inv(s') && Volatile(s', b) == Volatile(s, b) && Durable(s', b) == Volatile(s, b)
  {
    CheckpointKeepsInv(s);
    QuiescentMemory(s, b);
    var s' := Next(s, Checkpoint);
    assert Recent(s') == [] && DurableRecent(s') == [];
  }

  /** The atomic store a client sees, at one byte: the committed value, and the committed value a
      crash would fall back to. */
  datatype View = View(volatile: Byte, durable: Byte)

  function Observe(s: System, b: nat): View
    requires s.settled <= |s.log| && s.flushed <= |s.log|
  {
    View(Volatile(s, b), Durable(s, b))
  }

  /** The committed value as it was when the log had `n` records. */
  function CommittedUpTo(s: System, n: nat, b: nat): Byte
    requires s.settled <= n <= |s.log|
  {
    CommittedValue(s.base(b), s.log[s.settled..n], b)
  }

  /** What one step does to that store. Only COMMIT changes the committed value; only a flush or a
      checkpoint moves it to the durable side; a crash falls back to the durable side. */
  ghost predicate AtomicStep(s: System, step: Step, b: nat, before: View, after: View)
    requires Bounded(s)
  {
    match step
    case Append(r) =>
      after == before.(volatile := if IsKind(r, COMMIT) && SetHere(Recent(s), r.txn, b) then Memory(s, b)
                                   else before.volatile)
    case Flush(upTo) =>
      && after.volatile == before.volatile && (upTo == |s.log| ==> after.durable == before.volatile)
      && s.settled <= upTo <= |s.log| && after.durable == CommittedUpTo(s, upTo, b)
    case WriteBack(_) => after == before
    case Checkpoint => after == View(before.volatile, before.volatile)
    case Restart(_, _) => after == View(before.durable, before.durable)
    case CrashAgain(_, _) => after == View(before.durable, before.durable)
    case TornRestart(_, _, _, _) => after == View(before.durable, before.durable)
  }

  lemma StepRefines(s: System, step: Step, b: nat)
    requires Inv(s) && Enabled(s, step)
    ensures Inv(Next(s, step))
    ensures AtomicStep(s, step, b, Observe(s, b), Observe(Next(s, step), b))
  {
    hide WellFormed, MayFollow, Redo, Recovered, CommittedValue, RecoveryClrs, SetHere;
    StepKeepsInv(s, step);
    var s' := Next(s, step);
    match step
    case Append(r) => AppendRefines(s, r, b);
    case Flush(upTo) =>
      assert DurableRecent(s') == s.log[s.settled..upTo];
      if upTo == |s.log| {
        assert DurableRecent(s') == Recent(s);
      }
    case WriteBack(page) =>
      assert Recent(s') == Recent(s) && DurableRecent(s') == DurableRecent(s);
    case Checkpoint => CheckpointRefines(s, b);
    case Restart(lsn, ends) => RestartRefines(s, lsn, ends, b);
    case CrashAgain(lsn, reached) => CrashAgainRefines(s, lsn, reached, b);
    case TornRestart(upTo, lsn, ends, reached) => TornRestartRefines(s, upTo, lsn, ends, reached, b);
  }

  // ---- runs ----

  ghost predicate Takes(s: System, step: Step, s': System) {
    Bounded(s) && Enabled(s, step) && s' == Next(s, step)
  }

  /** `states` is a run of the given steps. */
  ghost predicate Run(states: seq<System>, steps: seq<Step>) {
    && |states| == |steps| + 1
    && forall i :: 0 <= i < |steps| ==> Takes(states[i], steps[i], states[i + 1])
  }

  lemma {:induction false} RunKeepsInv(states: seq<System>, steps: seq<Step>, image: Image, n: nat)
    requires Run(states, steps) && states[0] == Start(image) && n < |states|
    ensures Inv(states[n])
  {
    hide Next, Enabled;
    if n == 0 {
      StartInv(image);
    } else {
      RunKeepsInv(states, steps, image, n - 1);
      assert Takes(states[n - 1], steps[n - 1], states[n - 1 + 1]);
      StepKeepsInv(states[n - 1], steps[n - 1]);
    }
  }

  lemma StartInv(image: Image)
    ensures Inv(Start(image))
  {
    EmptyIsWellFormed(image);
    EmptyIsSettled(image);
  }

  /** Safety of every run: at every point of every run, crash and recovery leave exactly the image
      of the transactions whose COMMIT record is durable, and each step acts on the two committed
      images as a step of an atomic store does. */
  lemma RunsAreCrashSafe(states: seq<System>, steps: seq<Step>, image: Image, n: nat, b: nat)
    requires Run(states, steps) && states[0] == Start(image) && n < |states|
    ensures Inv(states[n])
    ensures AfterCrash(states[n], b) == Durable(states[n], b)
    ensures n < |steps| ==> Bounded(states[n + 1])
    ensures n < |steps| ==> AtomicStep(states[n], steps[n], b, Observe(states[n], b), Observe(states[n + 1], b))
  {
    hide Next, Enabled, AtomicStep, WellFormed;
    RunKeepsInv(states, steps, image, n);
    CrashSafe(states[n], b);
    if n < |steps| {
      assert Takes(states[n], steps[n], states[n + 1]);
      StepRefines(states[n], steps[n], b);
    }
  }

  /** Durability: once a transaction's COMMIT record has been flushed, its bytes survive a crash. */
  lemma CommitIsDurable(s: System, txn: nat, lsn: nat, b: nat)
    requires Inv(s) && Enabled(s, Append(Control(lsn, txn, COMMIT)))
    requires SetHere(Recent(s), txn, b)
    ensures var s1 := Next(s, Append(Control(lsn, txn, COMMIT)));
      Inv(s1) && AfterCrash(Next(s1, Flush(|s1.log|)), b) == Memory(s, b)
  {
    hide WellFormed, MayFollow;
    var r := Control(lsn, txn, COMMIT);
    StepRefines(s, Append(r), b);
    var s1 := Next(s, Append(r));
    FlushAllEnabled(s1);
    StepRefines(s1, Flush(|s1.log|), b);
    CrashSafe(Next(s1, Flush(|s1.log|)), b);
  }

  lemma FlushAllEnabled(s: System)
    requires Inv(s)
    ensures Enabled(s, Flush(|s.log|))
  {
  }

  // ---- a torn flush that takes back a commit ----

  /** Two transactions: byte 0 is set to 1, committed, set to 2, committed. */
  function TwoCommits(): seq<Record> {
    [Set(1, 0, 0, 1, [], [1]), Control(2, 0, COMMIT), Set(4, 3, 0, 1, [1], [2]), Control(5, 3, COMMIT)]
  }

  lemma OneMore(pre: seq<Record>, r: Record)
    ensures Finished(pre + [r]) == Finished(pre) + (if IsKind(r, COMMIT) || IsKind(r, ABORT_END) then {r.txn} else {})
    ensures forall v: Byte, b: nat :: Redo(v, pre + [r], b) == if Covers(r, b) then NewAt(r, b) else Redo(v, pre, b)
    ensures OpenSets(pre + [r], {0, 3}) == OpenSets(pre, {0, 3}) + (if r.Set? && r.txn !in {0, 3} then [|pre|] else [])
  {
    hide Covers, NewAt, Finished, Redo, OpenSets;
    FinishedOneMore(pre, r);
    forall v: Byte, b: nat ensures Redo(v, pre + [r], b) == if Covers(r, b) then NewAt(r, b) else Redo(v, pre, b) {
      RedoOneMore(v, pre, r, b);
    }
    OpenSetsUnfolds(pre + [r], {0, 3});
    Snoc(pre, r);
  }

  lemma FinishedOneMore(pre: seq<Record>, r: Record)
    ensures Finished(pre + [r]) == Finished(pre) + (if IsKind(r, COMMIT) || IsKind(r, ABORT_END) then {r.txn} else {})
  {
    Snoc(pre, r);
  }

  lemma RedoOneMore(v: Byte, pre: seq<Record>, r: Record, b: nat)
    ensures Redo(v, pre + [r], b) == if Covers(r, b) then NewAt(r, b) else Redo(v, pre, b)
  {
    Snoc(pre, r);
  }

  lemma TwoCommitsMean()
    ensures var log := TwoCommits();
      && Finished([]) == {} && Finished(log[..1]) == {} && Finished(log[..2]) == Finished(log[..3]) == {0}
      && Finished(log) == {0, 3}
      && (forall v: Byte, b: nat :: Redo(v, log[..1], b) == Redo(v, log[..2], b) == if b == 0 then 1 else v)
      && (forall v: Byte, b: nat :: Redo(v, log, b) == if b == 0 then 2 else v)
      && OpenSets(log, {0, 3}) == []
  {
    hide Finished, Redo, OpenSets;
    var log := TwoCommits();
    NoRecords();
    assert log[..0] == [] && log[..4] == log;
    assert log[..1] == log[..0] + [log[0]] && log[..2] == log[..1] + [log[1]];
    assert log[..3] == log[..2] + [log[2]] && log == log[..3] + [log[3]];
    OneMore(log[..0], log[0]);
    OneMore(log[..1], log[1]);
    OneMore(log[..2], log[2]);
    OneMore(log[..3], log[3]);
  }

  lemma NoRecords()
    ensures Finished([]) == {} && OpenSets([], {0, 3}) == [] && forall v: Byte, b: nat :: Redo(v, [], b) == v
  {
  }

  /** A SET of byte 0 may follow records of transactions that have all ended. */
  lemma SetMayFollow(base: Image, pre: seq<Record>, r: Record)
    requires r.Set? && r.loc == 0 && r.len == 1 && r.txn !in Finished(pre)
    requires forall i :: 0 <= i < |pre| && pre[i].Set? ==> pre[i].txn in Finished(pre)
    requires ByteAt(r.oldVal, 0) == Redo(base(0), pre, 0)
    ensures MayFollow(base, pre, r)
  {
    hide Finished, Redo;
    assert forall b: nat :: Covers(r, b) ==> b == 0;
    assert forall b: nat :: ExclusiveAt(pre, r.txn, b);
  }

  /** The four records may be appended one after the other. */
  lemma TwoCommitsMayFollow()
    ensures var log, zero: Image := TwoCommits(), b => 0;
      forall i :: 0 <= i < 4 ==> MayFollow(zero, log[..i], log[i])
  {
    hide Finished, Redo, MayFollow;
    TwoCommitsMean();
    NoRecords();
    var log, zero: Image := TwoCommits(), b => 0;
    assert log[..0] == [];
    assert forall i, k :: 0 <= k < i <= 4 ==> log[..i][k] == log[k];
    SetMayFollow(zero, log[..0], log[0]);
    ControlsMayFollow(zero, log[..1], log[1]);
    SetMayFollow(zero, log[..2], log[2]);
    ControlsMayFollow(zero, log[..3], log[3]);
  }

  /** A run that leads to a state in which a torn flush takes back a commit that was durable before: the four
      records are appended and flushed, a restart truncates the log file but keeps them in memory, and of
      the next flush only two get into the file. */
  lemma TornFlushLosesCommit() returns (states: seq<System>, steps: seq<Step>)
    ensures Run(states, steps) && |steps| == 6 && states[0] == Start(b => 0)
    ensures var s := states[6];
      && Inv(s) && s.flushed == 0 && s.settled == 4 && Bounded(s)
      && AfterCrash(s, 0) == Durable(s, 0) == 2 && AfterCrash(s.(flushed := 2), 0) == 1
      && !HarmlessTear(s, 2)
  {
    hide MayFollow, Finished, Redo, OpenSets, WellFormed, FirstOpen;
    var log := TwoCommits();
    TwoCommitsMean();
    TwoCommitsMayFollow();
    var s0 := Start(b => 0);
    var s1, s2, s3, s4 := s0.(log := log[..1]), s0.(log := log[..2]), s0.(log := log[..3]), s0.(log := log);
    assert log[..1] == [] + [log[0]] && log[..2] == log[..1] + [log[1]];
    assert log[..3] == log[..2] + [log[2]] && log == log[..3] + [log[3]];
    AppendStep(s0, log, 0);
    AppendStep(s1, log, 1);
    AppendStep(s2, log, 2);
    AppendStep(s3, log, 3);
    var s5 := s4.(flushed := 4);
    var s6 := Restarted(s5, 9, []);
    RestartStep(s4);
    steps := [Append(log[0]), Append(log[1]), Append(log[2]), Append(log[3]), Flush(4), Restart(9, [])];
    states := [s0, s1, s2, s3, s4, s5, s6];
    forall i | 0 <= i < |steps| ensures Takes(states[i], steps[i], states[i + 1]) {
    }
    RunKeepsInv(states, steps, b => 0, 6);
    TearAfterRestart(s6);
  }

  lemma RestartStep(s4: System)
    requires s4 == Start(b => 0).(log := TwoCommits())
    ensures var s5 := s4.(flushed := 4);
      var s6 := Restarted(s5, 9, []);
      && Takes(s4, Flush(4), s5) && Takes(s5, Restart(9, []), s6)
      && s6.log == TwoCommits() && s6.flushed == 0 && s6.settled == 4 && DurableLog(s6) == [] && s6.disk(0) == 2
  {
    hide Finished, Redo, OpenSets, FirstOpen;
    TwoCommitsMean();
    var log := TwoCommits();
    assert DurableLog(s4.(flushed := 4)) == log && RecoveryClrs(log, 9) == [];
    FirstOpenIs(log, {0, 3}, 0, -1);
  }

  /** Tearing the flush that follows between the commits loses the second one. */
  lemma TearAfterRestart(s: System)
    requires Inv(s) && s.log == TwoCommits() && s.flushed == 0 && s.settled == 4 && DurableLog(s) == [] && s.disk(0) == 2
    ensures AfterCrash(s, 0) == Durable(s, 0) == 2 && AfterCrash(s.(flushed := 2), 0) == 1
    ensures !HarmlessTear(s, 2)
  {
    hide Finished, Redo, OpenSets, FirstOpen, WellFormed;
    TwoCommitsMean();
    FirstOpenIs(s.log[..2], {0}, 0, -1);
    UntouchedIsBase(s, 0);
    TornFlushIff(s, 2, 0);
    RecoveredNothing(s.disk(0), 0);
  }

  lemma AppendStep(s: System, log: seq<Record>, i: nat)
    requires i < |log| && s == Start(b => 0).(log := log[..i]) && MayFollow(s.base, log[..i], log[i])
    requires Finished([]) == {}
    ensures Takes(s, Append(log[i]), s.(log := log[..i + 1]))
  {
    hide MayFollow, Finished;
    assert log[..i][0..] == log[..i] && log[..i][..0] == [];
    assert log[..i + 1] == log[..i] + [log[i]];
  }

  lemma RecoveredNothing(v: Byte, b: nat)
    ensures Recovered(v, [], b) == v
  {
  }
}
