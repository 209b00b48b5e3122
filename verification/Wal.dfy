/** The write-ahead log over the buffer pool: every public operation is a run of steps of the
    crash-safe system, so its invariant holds at every point where a crash can be observed. */
module Wal {
  import opened Bytes
  import opened Basics
  import opened LogSemantics
  import opened Recovery
  import opened Undo
  import opened Abort
  import opened CrashSafety
  import opened LogCodec
  import opened WalLog
  import opened Replacer
  import opened BufferPool

  /** A record touches one page only, and its values fit its range. */
  predicate InPage(r: Record) {
    !r.Control? ==>
      && r.loc % PAGE_SIZE + r.len <= PAGE_SIZE
      && |r.newVal| <= r.len
      && (r.Set? ==> |r.oldVal| <= r.len)
  }

  predicate AllInPage(records: seq<Record>) {
    forall i :: 0 <= i < |records| ==> InPage(records[i])
  }

  lemma AllInPageSnoc(records: seq<Record>, r: Record)
    requires AllInPage(records) && InPage(r)
    ensures AllInPage(records + [r])
  {
  }

  function PageOf(r: Record): nat
    requires !r.Control?
  {
    r.loc / PAGE_SIZE
  }

  function PageByte(page: Page, b: nat): Byte {
    page[b % PAGE_SIZE]
  }

  function DiskImage(file: map<nat, Page>): Image {
    (b: nat) => PageByte(FilePage(file, b / PAGE_SIZE), b)
  }

  function ShownByte(file: map<nat, Page>, pages: seq<Page>, table: map<nat, nat>, b: nat): Byte {
    PageByte(Shown(file, pages, table, b / PAGE_SIZE), b)
  }

  /** Log records that are neither durable nor contained in the base image. */
  function Pending(s: System): seq<Record>
    requires Bounded(s)
  {
    s.log[Max(s.settled, s.flushed)..]
  }

  /** The page a record touched is cached, dirty, and knows a page LSN at least the record's. */
  ghost predicate Tracked(slots: Slots, r: Record) {
    r.Control? || (slots.Resident(PageOf(r)) && slots.Meta(PageOf(r)).dirty && r.lsn <= slots.Meta(PageOf(r)).pageLsn)
  }

  /** Every pending record is tracked by the pool. Page `except` is left out. */
  ghost predicate AllTracked(slots: Slots, pending: seq<Record>, except: int) {
    forall i :: 0 <= i < |pending| ==> Tracked(slots, pending[i]) || PageOf(pending[i]) == except
  }

  /** Readers see the logical contents of the system; page `except` is left out. */
  ghost predicate Coupled(s: System, file: map<nat, Page>, pages: seq<Page>, table: map<nat, nat>, except: int) {
    forall b: nat :: b / PAGE_SIZE != except ==> ShownByte(file, pages, table, b) == Memory(s, b)
  }

  lemma CoversInPage(r: Record, b: nat)
    requires InPage(r) && Covers(r, b)
    ensures b / PAGE_SIZE == PageOf(r)
  {
  }

  /** The heart of the write-ahead rule: whatever the pool evicted and wrote back to make room for
      page `p`, and whatever it flushed before, is a sequence of legal steps of the system. */
  lemma EvictionKeepsInv(s: System, file: map<nat, Page>, pages: seq<Page>, before: Slots,
                         file': map<nat, Page>, after: Slots, flushed': nat, p: nat)
    requires Inv(s) && s.disk == DiskImage(file) && AllInPage(s.log)
    requires Coupled(s, file, pages, before.table, p) && AllTracked(before, Pending(s), p)
    requires flushed' == s.flushed || flushed' == |s.log|
    requires WritesBackSafely(file, pages, before, file', after, s.log[flushed'..]) && after.Resident(p)
    ensures Inv(s.(flushed := flushed', disk := DiskImage(file')))
  {
    hide WellFormed, Finished, Redo, Shown, FilePage;
    var s' := s.(flushed := flushed', disk := DiskImage(file'));
    forall b: nat ensures s'.disk(b) == s'.base(b) || Touches(DurableLog(s'), b) {
      var q := b / PAGE_SIZE;
      if FilePage(file', q) == FilePage(file, q) {
        if s.disk(b) != s.base(b) {
          TouchesGrows(s.log, s.flushed, flushed', b);
        }
      } else {
        assert ShownByte(file, pages, before.table, b) == Memory(s, b);
        EvictedIsDurable(s, before, after, flushed', p, b);
      }
    }
  }

  lemma EvictedHasNoPending(s: System, before: Slots, after: Slots, flushed': nat, p: nat, q: nat, k: nat)
    requires Bounded(s) && AllTracked(before, Pending(s), p) && s.flushed <= flushed' <= |s.log|
    requires EvictsSafely(before, after, s.log[flushed'..]) && after.Resident(p)
    requires before.Resident(q) && !after.Resident(q) && before.Meta(q).dirty
    requires flushed' <= k < |s.log| && s.settled <= k
    ensures s.log[k].Control? || PageOf(s.log[k]) != q
  {
    var from := Max(s.settled, s.flushed);
    assert Pending(s)[k - from] == s.log[k];
    assert s.log[flushed'..][k - flushed'] == s.log[k];
  }

  lemma EvictedIsDurable(s: System, before: Slots, after: Slots, flushed': nat, p: nat, b: nat)
    requires Inv(s) && AllInPage(s.log) && AllTracked(before, Pending(s), p)
    requires s.flushed <= flushed' <= |s.log|
    requires EvictsSafely(before, after, s.log[flushed'..]) && after.Resident(p)
    requires before.Resident(b / PAGE_SIZE) && !after.Resident(b / PAGE_SIZE) && before.Meta(b / PAGE_SIZE).dirty
    ensures Memory(s, b) == s.base(b) || Touches(s.log[..flushed'], b)
  {
    hide WellFormed, Finished, Redo;
    MemoryIsRecent(s, b);
    RedoForgets(s.base(b), s.base(b), Recent(s), b);
    if Touches(Recent(s), b) {
      var i :| 0 <= i < |Recent(s)| && Covers(Recent(s)[i], b);
      var k := s.settled + i;
      var r := s.log[k];
      assert r == Recent(s)[i];
      CoversInPage(r, b);
      if k >= flushed' {
        EvictedHasNoPending(s, before, after, flushed', p, b / PAGE_SIZE, k);
        assert false;
      }
      assert Covers(s.log[..flushed'][k], b);
    }
  }

  /** After the pool made room for page `p`, what was tracked and durable-pending still is. */
  lemma EvictionKeepsTracking(pending: seq<Record>, before: Slots, after: Slots, p: nat, unflushed: seq<Record>,
                              pending': seq<Record>)
    requires AllTracked(before, pending, p) && KeepsOthers(before, after, p) && EvictsSafely(before, after, unflushed)
    requires after.Resident(p)
    requires forall i :: 0 <= i < |pending'| ==> pending'[i] in pending && pending'[i] in unflushed
    ensures AllTracked(after, pending', p)
  {
    forall i | 0 <= i < |pending'| ensures Tracked(after, pending'[i]) || PageOf(pending'[i]) == p {
      var r := pending'[i];
      var k :| 0 <= k < |pending| && pending[k] == r;
      assert Tracked(before, pending[k]) || PageOf(pending[k]) == p;
      var l :| 0 <= l < |unflushed| && unflushed[l] == r;
    }
  }

  /** The state of the system, and what the pool holds, agree except possibly at page `except`. */
  ghost predicate Agrees(s: System, file: map<nat, Page>, pages: seq<Page>, slots: Slots, except: int) {
    && Inv(s) && s.disk == DiskImage(file) && AllInPage(s.log)
    && Coupled(s, file, pages, slots.table, except)
    && AllTracked(slots, Pending(s), except)
  }

  /** Making room for page `p` keeps the agreement. */
  lemma EvictionKeepsAgreement(s: System, file: map<nat, Page>, pages: seq<Page>, before: Slots,
                               file': map<nat, Page>, pages': seq<Page>, after: Slots, flushed': nat, p: nat)
    requires Agrees(s, file, pages, before, p)
    requires flushed' == s.flushed || flushed' == |s.log|
    requires forall q :: q != p ==> Shown(file', pages', after.table, q) == Shown(file, pages, before.table, q)
    requires WritesBackSafely(file, pages, before, file', after, s.log[flushed'..]) && after.Resident(p)
    requires KeepsOthers(before, after, p)
    ensures Agrees(s.(flushed := flushed', disk := DiskImage(file')), file', pages', after, p)
  {
    hide WellFormed, Finished, Redo, Shown, FilePage, KeepsOthers, WritesBackEvicted, EvictsSafely, AllTracked, Coupled, Inv;
    var s' := s.(flushed := flushed', disk := DiskImage(file'));
    EvictionKeepsInv(s, file, pages, before, file', after, flushed', p);
    InvBounded(s);
    PendingShrinks(s, flushed', DiskImage(file'));
    EvictionKeepsTracking(Pending(s), before, after, p, s.log[flushed'..], Pending(s'));
    SameViewStaysCoupled(s, s', file, pages, before.table, file', pages', after.table, p);
  }

  lemma SameViewStaysCoupled(s: System, s': System, file: map<nat, Page>, pages: seq<Page>, table: map<nat, nat>,
                             file': map<nat, Page>, pages': seq<Page>, table': map<nat, nat>, p: int)
    requires Coupled(s, file, pages, table, p) && s'.base == s.base && s'.log == s.log
    requires forall q :: q != p ==> Shown(file', pages', table', q) == Shown(file, pages, table, q)
    ensures Coupled(s', file', pages', table', p)
  {
    hide Redo, Shown;
    forall b: nat | b / PAGE_SIZE != p ensures ShownByte(file', pages', table', b) == Memory(s', b) {
      assert ShownByte(file, pages, table, b) == Memory(s, b);
    }
  }

  /** Full agreement can be taken back at one page, and one page can be brought into agreement. */
  lemma AgreementExcept(s: System, file: map<nat, Page>, pages: seq<Page>, slots: Slots, p: nat)
    requires Agrees(s, file, pages, slots, -1)
    ensures Agrees(s, file, pages, slots, p)
    ensures forall b: nat :: ShownByte(file, pages, slots.table, b) == Memory(s, b)
    ensures Bounded(s) && forall i :: 0 <= i < |Pending(s)| ==> Tracked(slots, Pending(s)[i])
  {
    hide Inv, Shown, Redo;
    InvBounded(s);
    assert forall b: nat :: b / PAGE_SIZE != -1;
  }

  lemma AgreementRestored(s: System, file: map<nat, Page>, pages: seq<Page>, slots: Slots, p: nat)
    requires Agrees(s, file, pages, slots, p) && Bounded(s)
    requires forall b: nat :: b / PAGE_SIZE == p ==> ShownByte(file, pages, slots.table, b) == Memory(s, b)
    requires forall i :: 0 <= i < |Pending(s)| && !Pending(s)[i].Control? && PageOf(Pending(s)[i]) == p ==>
                           Tracked(slots, Pending(s)[i])
    ensures Agrees(s, file, pages, slots, -1)
  {
    hide Inv, Shown, Redo;
    forall b: nat ensures ShownByte(file, pages, slots.table, b) == Memory(s, b) {
    }
  }

  /** A record pushed for page `p` keeps the agreement everywhere else. */
  lemma PushKeepsAgreement(s: System, file: map<nat, Page>, pages: seq<Page>, slots: Slots, r: Record, p: int)
    requires Agrees(s, file, pages, slots, p) && InPage(r)
    requires Bounded(s) && MayAppend(s.base, s.log, s.settled, r) && (r.Control? || PageOf(r) == p)
    ensures Agrees(s.(log := s.log + [r]), file, pages, slots, p)
    ensures Bounded(s.(log := s.log + [r])) && Pending(s.(log := s.log + [r])) == Pending(s) + [r]
    ensures forall b :: Memory(s.(log := s.log + [r]), b) == if Covers(r, b) then NewAt(r, b) else Memory(s, b)
  {
    hide Inv, Shown, MayAppend;
    var s' := s.(log := s.log + [r]);
    StepKeepsInv(s, Append(r));
    assert Next(s, Append(r)) == s';
    Snoc(s.log, r);
    assert Pending(s') == Pending(s) + [r];
    forall b: nat | b / PAGE_SIZE != p ensures ShownByte(file, pages, slots.table, b) == Memory(s', b) {
      assert ShownByte(file, pages, slots.table, b) == Memory(s, b);
      if Covers(r, b) {
        CoversInPage(r, b);
      }
    }
  }

  lemma AgreesBounded(s: System, file: map<nat, Page>, pages: seq<Page>, slots: Slots, p: int)
    requires Agrees(s, file, pages, slots, p)
    ensures Inv(s) && Bounded(s)
  {
  }

  /** Dropping a pin changes no page and no page LSN. */
  lemma UnpinKeepsAgreement(s: System, file: map<nat, Page>, pages: seq<Page>, slots: Slots, i: nat, m: Metadata)
    requires Agrees(s, file, pages, slots, -1) && i < |slots.metadata|
    requires m.dirty == slots.metadata[i].dirty && m.pageLsn == slots.metadata[i].pageLsn
    ensures Agrees(s, file, pages, Slots(slots.metadata[i := m], slots.table), -1)
  {
    hide Inv, Coupled;
    AgreesBounded(s, file, pages, slots, -1);
    var slots' := Slots(slots.metadata[i := m], slots.table);
    forall k | 0 <= k < |Pending(s)| ensures Tracked(slots', Pending(s)[k]) || PageOf(Pending(s)[k]) == -1 {
      assert Tracked(slots, Pending(s)[k]);
    }
  }

  /** The transaction is running: it may set bytes and may end. */
  ghost predicate Running(log: seq<Record>, settled: nat, txn: nat)
    requires settled <= |log|
  {
    txn !in Finished(log[settled..]) && txn !in Finished(log[..settled])
  }

  /** No other unfinished transaction has set the byte. */
  ghost predicate Unclaimed(log: seq<Record>, txn: nat, loc: nat, len: nat) {
    forall b: nat :: loc <= b < loc + len ==> ExclusiveAt(log, txn, b)
  }

  lemma SetIsEnabled(s: System, r: Record)
    requires Inv(s) && r.Set? && Running(s.log, s.settled, r.txn) && Unclaimed(Recent(s), r.txn, r.loc, r.len)
    requires forall b: nat {:trigger Covers(r, b)} :: Covers(r, b) ==> OldAt(r, b) == Memory(s, b)
    ensures MayAppend(s.base, s.log, s.settled, r)
  {
    hide WellFormed, Finished, Redo, ExclusiveAt;
    forall b: nat | Covers(r, b) ensures OldAt(r, b) == Redo(s.base(b), Recent(s), b) && ExclusiveAt(Recent(s), r.txn, b) {
      MemoryIsRecent(s, b);
    }
  }

  /** A value without its trailing zeros. */
  predicate Trims(s: seq<Byte>, n: nat) {
    && n <= |s|
    && (forall i :: n <= i < |s| ==> s[i] == 0)
    && (n > 0 ==> s[n - 1] != 0)
  }

  method GetUnpaddedLength(data: seq<Byte>) returns (n: nat)
    ensures Trims(data, n)
  {
    var i := |data|;
    while i > 0
      invariant 0 <= i <= |data|
      invariant forall k :: i <= k < |data| ==> data[k] == 0
    {
      i := i - 1;
      if data[i] != 0 {
        return i + 1;
      }
    }
    return 0;
  }

  lemma TrimsWithin(data: seq<Byte>, n: nat)
    requires Trims(data, n)
    ensures n <= |data|
  {
  }

  lemma LastIsBelow(records: seq<Record>, nextLsn: nat)
    requires Ordered(records, nextLsn)
    ensures records != [] ==> Last(records).lsn < nextLsn
  {
  }

  lemma TrimmedIsOldValue(page: Page, r: Record, oldValue: seq<Byte>, n: nat)
    requires r.Set? && InPage(r) && oldValue == page[r.loc % PAGE_SIZE..r.loc % PAGE_SIZE + r.len]
    requires Trims(oldValue, n) && r.oldVal == oldValue[..n]
    ensures forall b: nat {:trigger Covers(r, b)} :: Covers(r, b) ==> OldAt(r, b) == PageByte(page, b)
    ensures Trims(r.oldVal, |r.oldVal|)
  {
    forall b: nat | Covers(r, b) ensures OldAt(r, b) == PageByte(page, b) {
      CoversInPage(r, b);
      assert b % PAGE_SIZE - r.loc % PAGE_SIZE == b - r.loc;
      assert oldValue[b - r.loc] == page[b % PAGE_SIZE];
    }
  }

  /** A SET that saves what its page shows, trimmed, may be appended. */
  lemma PinnedSet(s: System, file: map<nat, Page>, pages: seq<Page>, slots: Slots, r: Record, oldValue: seq<Byte>, n: nat)
    requires Agrees(s, file, pages, slots, -1) && Bounded(s) && r.Set? && InPage(r)
    requires Running(s.log, s.settled, r.txn) && Unclaimed(s.log[s.settled..], r.txn, r.loc, r.len)
    requires oldValue == Shown(file, pages, slots.table, PageOf(r))[r.loc % PAGE_SIZE..r.loc % PAGE_SIZE + r.len]
    requires Trims(oldValue, n) && r.oldVal == oldValue[..n]
    ensures MayAppend(s.base, s.log, s.settled, r) && Trims(r.oldVal, |r.oldVal|)
    ensures forall b: nat {:trigger Covers(r, b)} :: Covers(r, b) ==> OldAt(r, b) == ShownByte(file, pages, slots.table, b)
  {
    hide Inv, Shown, Running, Unclaimed, Trims, Covers, OldAt, MayAppend, Agrees;
    TrimmedIsOldValue(Shown(file, pages, slots.table, PageOf(r)), r, oldValue, n);
    forall b: nat | Covers(r, b) ensures OldAt(r, b) == ShownByte(file, pages, slots.table, b) == Memory(s, b) {
      CoversInPage(r, b);
      AgreesAt(s, file, pages, slots, b);
    }
    AgreesBounded(s, file, pages, slots, -1);
    SetIsEnabled(s, r);
  }

  lemma InvBounded(s: System)
    requires Inv(s)
    ensures Bounded(s) && (s.flushed == 0 || s.settled <= s.flushed)
  {
  }

  // ---- the bytes of one page ----

  /** What the whole range of a record holds once it is applied: its value, then fill zeros. */
  function Padded(r: Record): (s: seq<Byte>)
    requires !r.Control? && |r.newVal| <= r.len
    ensures |s| == r.len
  {
    r.newVal + Zeros(r.len - |r.newVal|)
  }

  lemma SpliceIsNewAt(page: Page, r: Record, b: nat)
    requires !r.Control? && InPage(r) && b / PAGE_SIZE == PageOf(r)
    ensures PageByte(Splice(page, r.loc % PAGE_SIZE, Padded(r)), b)
         == if Covers(r, b) then NewAt(r, b) else PageByte(page, b)
  {
    var offset, at := r.loc % PAGE_SIZE, b % PAGE_SIZE;
    assert at - offset == b - r.loc;
  }

  /** Once a record is both applied to its page and pushed, in either order, all agrees again. */
  lemma AppliedAndPushed(s: System, s': System, file: map<nat, Page>, pages: seq<Page>, before: Slots,
                         file': map<nat, Page>, pages': seq<Page>, after: Slots, r: Record)
    requires !r.Control? && InPage(r) && Bounded(s) && s.flushed <= s'.flushed <= |s.log| + 1
    requires Agrees(s, file, pages, before, -1) && Agrees(s', file', pages', after, PageOf(r))
    requires s' == s.(log := s.log + [r], flushed := s'.flushed, disk := s'.disk)
    requires forall b: nat :: b / PAGE_SIZE == PageOf(r) ==>
               ShownByte(file', pages', after.table, b)
               == if Covers(r, b) then NewAt(r, b) else ShownByte(file, pages, before.table, b)
    requires after.Resident(PageOf(r)) && Tracked(after, r)
    requires before.Resident(PageOf(r)) ==> before.Meta(PageOf(r)).pageLsn <= after.Meta(PageOf(r)).pageLsn
    ensures Agrees(s', file', pages', after, -1)
    ensures forall b: nat :: ShownByte(file', pages', after.table, b)
                          == if Covers(r, b) then NewAt(r, b) else ShownByte(file, pages, before.table, b)
  {
    hide Inv, Shown, Agrees;
    var p := PageOf(r);
    AgreementExcept(s, file, pages, before, p);
    AgreesBounded(s', file', pages', after, p);
    Snoc(s.log, r);
    forall b: nat ensures Memory(s', b) == if Covers(r, b) then NewAt(r, b) else ShownByte(file, pages, before.table, b) {
      assert ShownByte(file, pages, before.table, b) == Memory(s, b);
    }
    var from, from' := Max(s.settled, s.flushed), Max(s.settled, s'.flushed);
    forall i | 0 <= i < |Pending(s')| && !Pending(s')[i].Control? && PageOf(Pending(s')[i]) == p
      ensures Tracked(after, Pending(s')[i])
    {
      if from' + i < |s.log| {
        assert Pending(s')[i] == Pending(s)[from' - from + i];
        assert Tracked(before, Pending(s)[from' - from + i]);
      } else {
        assert Pending(s')[i] == r;
      }
    }
    AgreementRestored(s', file', pages', after, p);
    forall b: nat ensures ShownByte(file', pages', after.table, b) == Memory(s', b) {
      AgreesAt(s', file', pages', after, b);
    }
  }

  lemma AgreesAt(s: System, file: map<nat, Page>, pages: seq<Page>, slots: Slots, b: nat)
    requires Agrees(s, file, pages, slots, -1)
    ensures ShownByte(file, pages, slots.table, b) == Memory(s, b)
  {
    hide Inv, Shown, Redo;
  }

  /** Flushing the whole log keeps the agreement; nothing is pending then. */
  lemma FlushKeepsAgreement(s: System, file: map<nat, Page>, pages: seq<Page>, slots: Slots)
    requires Agrees(s, file, pages, slots, -1)
    ensures Agrees(s.(flushed := |s.log|), file, pages, slots, -1)
  {
    hide WellFormed, Shown, Redo, Finished;
    FlushKeepsInv(s, |s.log|);
    var s' := s.(flushed := |s.log|);
    SameViewStaysCoupled(s, s', file, pages, slots.table, file, pages, slots.table, -1);
  }

  lemma SameDisk(s: System, disk: Image)
    requires Inv(s) && forall b: nat {:trigger disk(b)} :: disk(b) == s.disk(b)
    ensures Inv(s.(disk := disk))
  {
    hide WellFormed, Redo, Finished;
  }

  /** Writing all pages and truncating the log is the checkpoint step. */
  lemma CheckpointAgrees(s: System, file: map<nat, Page>, pages: seq<Page>, slots: Slots, file': map<nat, Page>,
                         slots': Slots)
    requires Agrees(s, file, pages, slots, -1) && Bounded(s) && Enabled(s, Checkpoint) && slots'.table == slots.table
    requires forall q :: FilePage(file', q) == Shown(file, pages, slots.table, q) == Shown(file', pages, slots.table, q)
    ensures var s' := Next(s, Checkpoint).(disk := DiskImage(file'));
      && Agrees(s', file', pages, slots', -1)
      && forall b: nat :: AfterCrash(s', b) == ShownByte(file', pages, slots'.table, b) == ShownByte(file, pages, slots.table, b)
  {
    hide WellFormed, Shown, Redo, Finished, Enabled, FilePage, Recovered;
    CheckpointKeepsInv(s);
    var s1 := Next(s, Checkpoint);
    var s' := s1.(disk := DiskImage(file'));
    forall b: nat ensures s'.disk(b) == s1.disk(b) {
      AgreesAt(s, file, pages, slots, b);
    }
    SameDisk(s1, s'.disk);
    forall b: nat ensures ShownByte(file', pages, slots'.table, b) == Memory(s', b) {
      AgreesAt(s, file, pages, slots, b);
      assert Redo(s1.base(b), s1.log[..s1.settled], b) == s1.base(b);
      assert s1.log[..s1.settled] == s1.log;
    }
    assert Pending(s') == [];
    forall b: nat ensures AfterCrash(s', b) == Memory(s', b) {
      CrashOfEmptyLog(s', b);
    }
  }

  lemma CommitFlushed(s: System, s1: System, file: map<nat, Page>, pages: seq<Page>, slots: Slots, txn: nat,
                      lsn: nat, b: nat)
    requires Agrees(s, file, pages, slots, -1) && Bounded(s)
    requires MayAppend(s.base, s.log, s.settled, Control(lsn, txn, COMMIT)) && SetHere(Recent(s), txn, b)
    requires s1 == s.(log := s.log + [Control(lsn, txn, COMMIT)])
    ensures AfterCrash(s1.(flushed := |s1.log|), b) == ShownByte(file, pages, slots.table, b)
  {
    hide Inv, WellFormed, MayAppend, Redo, Shown, SetHere, Recovered;
    AgreesBounded(s, file, pages, slots, -1);
    CommitIsDurable(s, txn, lsn, b);
    AgreesAt(s, file, pages, slots, b);
  }

  lemma StartAgrees(file: map<nat, Page>, pages: seq<Page>, slots: Slots)
    requires slots.table == map[]
    ensures Agrees(Start(DiskImage(file)), file, pages, slots, -1)
  {
    StartInv(DiskImage(file));
  }

  /** An empty pool over the file agrees with a log whose records are all part of the file. */
  lemma RecoveredAgrees(s: System, file: map<nat, Page>, pages: seq<Page>, slots: Slots)
    requires slots.table == map[] && Inv(s) && s.disk == DiskImage(file) && AllInPage(s.log)
    requires s.settled == |s.log| && s.flushed == 0
    ensures Agrees(s, file, pages, slots, -1)
    ensures forall b: nat :: ShownByte(file, pages, slots.table, b) == AfterCrash(s, b) == s.disk(b)
  {
    hide WellFormed, Redo, Finished, Recovered;
    assert s.log[..s.settled] == s.log && DurableLog(s) == [];
    forall b: nat ensures ShownByte(file, pages, slots.table, b) == Memory(s, b) == s.disk(b) {
      assert s.disk(b) == s.base(b);
    }
    forall b: nat ensures AfterCrash(s, b) == s.disk(b) {
      CrashOfEmptyLog(s, b);
    }
    assert Pending(s) == [];
  }

  lemma CrashOfEmptyLog(s: System, b: nat)
    requires Bounded(s) && s.flushed == 0
    ensures AfterCrash(s, b) == s.disk(b)
  {
    assert DurableLog(s) == [];
  }

  // ---- names of transactions ----

  /** Record numbers bound the names they carry, so a name that is some BEGIN's LSN is new there. */
  ghost predicate Named(records: seq<Record>, nextTxnId: nat, nextLsn: nat) {
    && (forall i :: 0 <= i < |records| ==> records[i].txn <= records[i].lsn)
    && nextTxnId <= nextLsn
  }

  /** A BEGIN record at or after `from` gave the transaction its name. */
  ghost predicate Begun(records: seq<Record>, from: nat, txn: nat) {
    exists j :: from <= j < |records| && IsKind(records[j], BEGIN) && records[j].lsn == txn
  }

  /** No record before a transaction's own BEGIN carries its name. */
  lemma NameIsNew(records: seq<Record>, nextTxnId: nat, nextLsn: nat, from: nat, txn: nat)
    requires Ordered(records, nextLsn) && Named(records, nextTxnId, nextLsn) && Begun(records, from, txn) && from <= |records|
    ensures forall i :: 0 <= i < from ==> records[i].txn < txn
    ensures !Mentions(records[..from], txn) && txn < nextLsn
  {
    var j :| from <= j < |records| && IsKind(records[j], BEGIN) && records[j].lsn == txn;
    assert forall i :: 0 <= i < from ==> records[i].lsn < records[j].lsn;
  }

  /** In a serial run, that is, when no BEGIN follows that of the transaction to abort, the scan of
      the abort neither skips one of its SETs nor starts at another transaction's BEGIN. */
  lemma SerialScanSeesAll(records: seq<Record>, nextTxnId: nat, nextLsn: nat, txn: nat, j: nat)
    requires Ordered(records, nextLsn) && Named(records, nextTxnId, nextLsn)
    requires j < |records| && IsKind(records[j], BEGIN) && records[j].lsn == txn
    requires forall i :: j < i < |records| ==> !IsKind(records[i], BEGIN)
    ensures ScanSeesAll(records, txn)
    ensures ScanStart(records, txn) in {0, j + 1}
    ensures forall i :: 0 <= i < |records| && SetOf(records[i], txn) ==> j < i
  {
    assert forall i :: 0 <= i < j ==> records[i].lsn < records[j].lsn;
    assert forall i :: 0 <= i < j ==> records[i].txn < txn;
  }

  lemma CompensationInPage(records: seq<Record>, index: nat, lsn: nat)
    requires AllInPage(records) && index < |records| && records[index].Set?
    ensures InPage(Compensation(records[index], lsn))
  {
  }

  lemma RunningGrows(live: seq<Record>, settled: nat, txn: nat, r: Record)
    requires settled <= |live| && Running(live, settled, txn)
    requires !IsKind(r, COMMIT) && !IsKind(r, ABORT_END)
    ensures Running(live + [r], settled, txn)
  {
    assert (live + [r])[settled..] == live[settled..] + [r];
    Snoc(live[settled..], r);
    assert (live + [r])[..settled] == live[..settled];
  }

  lemma CompensationsPeel(log: seq<Record>, indices: seq<nat>, i: nat, lsn: nat)
    requires i < |indices| && forall k :: 0 <= k < |indices| ==> indices[k] < |log| && log[indices[k]].Set?
    ensures Compensations(log, indices[..i + 1], lsn)
         == [Compensation(log[indices[i]], lsn)] + Compensations(log, indices[..i], lsn + 1)
    ensures indices[..i + 1][..i] == indices[..i]
  {
    assert indices[..i + 1][..i] == indices[..i];
  }

  lemma CompensationsOfNone(log: seq<Record>, lsn: nat)
    ensures Compensations(log, [], lsn) == []
  {
  }

  lemma {:induction false} CompensationNames(log: seq<Record>, indices: seq<nat>, lsn: nat, txn: nat)
    requires forall k :: 0 <= k < |indices| ==> indices[k] < |log| && log[indices[k]].Set? && log[indices[k]].txn == txn
    decreases indices
    ensures forall k :: 0 <= k < |indices| ==>
              Compensations(log, indices, lsn)[k].txn == txn && Compensations(log, indices, lsn)[k].lsn == lsn + k
  {
    if indices == [] {
    } else {
      CompensationNames(log, indices[..|indices| - 1], lsn + 1, txn);
    }
  }

  lemma AbortIsNamed(records: seq<Record>, nextTxnId: nat, lsn: nat, txn: nat)
    requires Named(records, nextTxnId, lsn) && txn <= lsn
    ensures Named(records + AbortRecords(records, txn, lsn), nextTxnId, lsn + |AbortRecords(records, txn, lsn)|)
  {
    hide UndoStack, ScanStart, Compensations;
    var begun := records + [Control(lsn, txn, ABORT_BEGIN)];
    CompensationNames(begun, UndoStack(begun, txn, ScanStart(begun, txn)), lsn + 1, txn);
  }

  /** What an abort leaves in memory, seen from the records since the last truncation. */
  lemma AbortedContents(s: System, records: seq<Record>, from: nat, s': System, records': seq<Record>, txn: nat,
                        lsn: nat, b: nat)
    requires Inv(s) && Inv(s') && s'.base == s.base && from <= |records| && !Mentions(records[..from], txn)
    requires Recent(s) == records[from..] && from <= |records'| && Recent(s') == records'[from..]
    requires ScanSeesAll(records, txn) && records' == records + AbortRecords(records, txn, lsn)
    requires txn !in Finished(Recent(s))
    ensures Memory(s', b) == Redo(s.base(b), Recent(s)[..FirstSetOf(Recent(s), txn, b)], b)
  {
    hide WellFormed, Finished, UndoRecords, AbortRecords, ScanSeesAll, Mentions, Redo;
    var recent := Recent(s);
    AbortUndoesAll(records, txn, lsn);
    UndoRecordsShift(records[..from], recent, txn, lsn);
    assert records == records[..from] + recent;
    assert Recent(s') == recent + UndoRecords(recent, txn, lsn);
    MemoryIsRecent(s', b);
    InvWellFormed(s);
    UndoRestores(s.base, recent, txn, lsn, b);
  }

  lemma OpenIsRunning(records: seq<Record>, first: nat, settled: nat, txn: nat)
    requires first + settled <= |records| && forall i :: 0 <= i < first + settled ==> records[i].txn < txn
    requires txn !in Finished(records[first..][settled..])
    ensures Running(records[first..], settled, txn)
  {
    FinishedAreNamed(records[first..][..settled], txn);
  }

  lemma AbortBegun(records: seq<Record>, begun: seq<Record>, first: nat, settled: nat, txn: nat, lsn: nat)
    requires first + settled <= |records| && begun == records + [Control(lsn, txn, ABORT_BEGIN)]
    requires ScanSeesAll(records, txn) && Running(records[first..], settled, txn)
    ensures UndoStack(begun, txn, ScanStart(begun, txn)) == UndoStack(begun, txn, 0)
    ensures Running(begun[first..], settled, txn)
  {
    hide UndoStack, ScanStart, Running;
    var r := Control(lsn, txn, ABORT_BEGIN);
    ScanStartExtend(records, r, txn);
    StackFrom(begun, txn, ScanStart(begun, txn));
    RunningGrows(records[first..], settled, txn, r);
    assert begun[first..] == records[first..] + [r];
  }

  lemma MayBeginAbort(base: Image, live: seq<Record>, settled: nat, txn: nat, lsn: nat)
    requires settled <= |live|
    ensures MayAppend(base, live, settled, Control(lsn, txn, ABORT_BEGIN))
  {
  }

  lemma UndoneMayEnd(base: Image, records: seq<Record>, first: nat, settled: nat, txn: nat, lsn: nat)
    requires first + settled <= |records| && !Mentions(records[..first + settled], txn)
    requires UndoStack(records, txn, 0) == []
    ensures MayAppend(base, records[first..], settled, Control(lsn, txn, ABORT_END))
  {
    hide UndoStack, Mentions, Finished;
    var recent := records[first..][settled..];
    assert records == records[..first + settled] + recent;
    StackShifts(records[..first + settled], recent, txn);
  }

  lemma AbortRecordsAre(records: seq<Record>, begun: seq<Record>, records': seq<Record>, txn: nat, lsn: nat,
                        toUndo: seq<nat>)
    requires begun == records + [Control(lsn, txn, ABORT_BEGIN)] && toUndo == UndoStack(begun, txn, ScanStart(begun, txn))
    requires records' == begun + Compensations(begun, toUndo, lsn + 1) + [Control(lsn + 1 + |toUndo|, txn, ABORT_END)]
    ensures records' == records + AbortRecords(records, txn, lsn)
  {
    hide UndoStack, ScanStart, Compensations, Compensation;
    Regrouped(records, Control(lsn, txn, ABORT_BEGIN), Compensations(begun, toUndo, lsn + 1),
              Control(lsn + 1 + |toUndo|, txn, ABORT_END));
  }

  lemma Regrouped(records: seq<Record>, begin: Record, clrs: seq<Record>, end: Record)
    ensures records + [begin] + clrs + [end] == records + ([begin] + clrs + [end])
  {
  }

  function TopOf(s: seq<nat>): nat
    requires s != []
  {
    s[|s| - 1]
  }

  lemma {:induction false} FinishedAreNamed(log: seq<Record>, bound: nat)
    requires forall i :: 0 <= i < |log| ==> log[i].txn < bound
    ensures bound !in Finished(log) && forall t :: t in Finished(log) ==> t < bound
  {
    if log == [] {
    } else {
      assert forall i :: 0 <= i < |Init(log)| ==> Init(log)[i] == log[i];
      FinishedAreNamed(Init(log), bound);
    }
  }

  lemma NewNameIsRunning(records: seq<Record>, nextTxnId: nat, nextLsn: nat, first: nat, settled: nat, txn: nat)
    requires first + settled < |records| && IsKind(Last(records), BEGIN) && Last(records).lsn == txn
    requires Named(records, nextTxnId, nextLsn) && Ordered(records, nextLsn)
    ensures Running(records[first..], settled, txn)
  {
    var live := records[first..];
    assert forall i :: 0 <= i < |records| - 1 ==> records[i].lsn < records[|records| - 1].lsn;
    FinishedAreNamed(live[..settled], txn);
    var recent := live[settled..];
    assert Init(recent) == records[first + settled..|records| - 1];
    FinishedAreNamed(Init(recent), txn);
    assert Last(recent) == Last(records);
  }

  lemma NamedGrows(records: seq<Record>, r: Record, nextTxnId: nat, nextTxnId': nat, nextLsn': nat, from: nat)
    requires Named(records, nextTxnId, r.lsn) && r.txn <= r.lsn && nextTxnId' <= nextLsn' && from <= |records|
    ensures Named(records + [r], nextTxnId', nextLsn')
    ensures IsKind(r, BEGIN) ==> Begun(records + [r], from, r.lsn)
    ensures forall t :: Begun(records, from, t) ==> Begun(records + [r], from, t)
  {
    assert (records + [r])[|records|] == r;
    assert forall i :: 0 <= i < |records| ==> (records + [r])[i] == records[i];
  }

  lemma BeginIsNamed(records: seq<Record>, lsn: nat, nextTxnId: nat, from: nat)
    requires Named(records, nextTxnId, lsn) && from <= |records|
    ensures var records' := records + [Control(lsn, nextTxnId, BEGIN)];
      Named(records', nextTxnId + 1, lsn + 1) && Begun(records', from, lsn)
  {
    NamedGrows(records, Control(lsn, nextTxnId, BEGIN), nextTxnId, nextTxnId + 1, lsn + 1, from);
  }

  method FindScanStart(records: seq<Record>, txn: nat) returns (start: nat)
    ensures start == ScanStart(records, txn)
  {
    for i := 0 to |records|
      invariant ScanStart(records[..i], txn) == 0
    {
      assert Init(records[..i + 1]) == records[..i];
      if records[i].txn == txn && IsKind(records[i], BEGIN) {
        ScanStartPrefix(records, i + 1, txn);
        return i + 1;
      }
    }
    assert records[..|records|] == records;
    return 0;
  }

  lemma {:induction false} ScanStartPrefix(records: seq<Record>, k: nat, txn: nat)
    requires k <= |records| && ScanStart(records[..k], txn) > 0
    ensures ScanStart(records, txn) == ScanStart(records[..k], txn)
  {
    if k == |records| {
      assert records[..k] == records;
    } else {
      assert Init(records)[..k] == records[..k];
      ScanStartPrefix(Init(records), k, txn);
    }
  }

  lemma ScanStarts(records: seq<Record>, txn: nat, start: nat)
    requires |records| == start
    ensures UndoStack(records, txn, start) == []
  {
  }

  /** One record more for the scan. */
  lemma ScanStep(records: seq<Record>, txn: nat, start: nat, i: nat)
    requires start <= i < |records|
    ensures var stack := UndoStack(records[..i], txn, start);
      var r := records[i];
      && (forall k :: 0 <= k < |stack| ==> stack[k] < i)
      && UndoStack(records[..i + 1], txn, start)
      == if r.txn != txn then stack
         else if r.Set? then stack + [i]
         else if r.Clr? && stack != [] && r.undoLsn == records[stack[|stack| - 1]].lsn then stack[..|stack| - 1]
         else stack
  {
    var stack := UndoStack(records[..i], txn, start);
    assert Init(records[..i + 1]) == records[..i] && Last(records[..i + 1]) == records[i];
    assert forall k :: 0 <= k < |stack| ==> records[..i + 1][stack[k]] == records[stack[k]];
  }

  /** The scan for SETs still to be compensated. The last element of an empty stack is never looked
      at when CLRs come in reverse order of their SETs. */
  method CollectUndo(records: seq<Record>, txn: nat, start: nat) returns (toUndo: seq<nat>)
    requires start <= |records|
    ensures toUndo == UndoStack(records, txn, start)
  {
    hide UndoStack;
    ScanStarts(records[..start], txn, start);
    toUndo := [];
    for i := start to |records|
      invariant toUndo == UndoStack(records[..i], txn, start)
      invariant forall k :: 0 <= k < |toUndo| ==> toUndo[k] < i
    {
      ScanStep(records, txn, start, i);
      var r := records[i];
      if r.txn == txn {
        if r.Set? {
          toUndo := toUndo + [i];
        } else if r.Clr? && toUndo != [] && r.undoLsn == records[toUndo[|toUndo| - 1]].lsn {
          toUndo := toUndo[..|toUndo| - 1];
        }
      }
    }
    assert records[..|records|] == records;
  }

  /** The CLR for the top of the undo stack is allowed next, and pops it. */
  lemma TopMayBeUndone(base: Image, records: seq<Record>, from: nat, txn: nat, lsn: nat)
    requires from <= |records| && !Mentions(records[..from], txn) && txn !in Finished(records[from..])
    requires UndoStack(records, txn, 0) != []
    ensures var stack := UndoStack(records, txn, 0);
      var clr := Compensation(records[stack[|stack| - 1]], lsn);
      && MayFollow(base, records[from..], clr)
      && UndoStack(records + [clr], txn, 0) == stack[..|stack| - 1]
  {
    hide UndoStack, Finished;
    var live := records[from..];
    assert records == records[..from] + live;
    StackShifts(records[..from], live, txn);
    var stack := UndoStack(records, txn, 0);
    var clr := Compensation(records[stack[|stack| - 1]], lsn);
    StackUnfolds(records + [clr], txn);
    Snoc(records, clr);
  }

  /** The CLR for the top of the undo stack may be appended, and afterwards the transaction still runs, with
      one SET less to undo. */
  lemma OneUndone(base: Image, records: seq<Record>, first: nat, settled: nat, txn: nat, lsn: nat)
    requires first + settled <= |records| && AllInPage(records) && UndoStack(records, txn, 0) != []
    requires !Mentions(records[..first + settled], txn) && Running(records[first..], settled, txn)
    ensures var stack := UndoStack(records, txn, 0);
      var undone := records[stack[|stack| - 1]];
      var clr := Compensation(undone, lsn);
      && undone.Set? && InPage(clr) && clr.Clr? && clr.lsn == lsn
      && MayAppend(base, records[first..], settled, clr)
      && UndoStack(records + [clr], txn, 0) == stack[..|stack| - 1]
      && !Mentions((records + [clr])[..first + settled], txn)
      && Running((records + [clr])[first..], settled, txn)
  {
    hide UndoStack, Mentions, Finished, AllInPage, InPage, MayFollow;
    var stack := UndoStack(records, txn, 0);
    var clr := Compensation(records[stack[|stack| - 1]], lsn);
    var from := first + settled;
    assert records[first..][settled..] == records[from..];
    TopMayBeUndone(base, records, from, txn, lsn);
    CompensationInPage(records, stack[|stack| - 1], lsn);
    RunningGrows(records[first..], settled, txn, clr);
    assert (records + [clr])[first..] == records[first..] + [clr];
    assert (records + [clr])[..from] == records[..from];
  }

  // ---- the class ----

  class Wal {
    const pool: Pool
    const log: Log
    var nextTxnId: nat
    var activeTransactions: int
    ghost var base: Image        // the data file at the last truncation
    ghost var settled: nat       // how many records of the current log are part of it

    ghost predicate Shape()
      reads pool, pool.replacer, pool.replacer.Repr, pool.wal
    {
      && pool.wal == log && pool.Valid() && this !in pool.replacer.Repr
      && AllInPage(log.records)
    }

    /** The records since the last truncation. */
    ghost function LiveLog(): seq<Record>
      reads log
      requires log.first <= |log.records|
    {
      log.records[log.first..]
    }

    /** The state of the crash-safe system this object stands for. */
    ghost function State(): System
      reads this`base, this`settled, pool, log
      requires log.first <= log.unflushed <= |log.records|
    {
      System(base, settled, LiveLog(), log.unflushed - log.first, DiskImage(pool.file))
    }

    /** Memory and pool agree with the state, except possibly at page `except`. */
    ghost predicate Consistent(except: int)
      reads this`base, this`settled, pool, pool.replacer, pool.replacer.Repr, pool.wal
      ensures Consistent(except) ==> log.first <= log.unflushed <= |log.records| && settled <= |LiveLog()|
    {
      Shape() && Agrees(State(), pool.file, pool.pages, pool.SlotsOf(), except)
    }

    ghost predicate Valid()
      reads this, pool, pool.replacer, pool.replacer.Repr, pool.wal
      ensures Valid() ==> Consistent(-1)
    {
      Consistent(-1) && Named(log.records, nextTxnId, log.nextLsn)
    }

    /** The byte of the data file a reader sees at `b`. */
    ghost function Contents(b: nat): Byte
      reads pool
    {
      ShownByte(pool.file, pool.pages, pool.fileToPoolIndex, b)
    }

    /** Only more of the log became durable, and more of the file written back. */
    twostate predicate OnlyWritesBack()
      reads this, pool, log
    {
      && log.records == old(log.records) && log.first == old(log.first)
      && (log.unflushed == |log.records| || log.unflushed == old(log.unflushed))
      && base == old(base) && settled == old(settled)
    }

    /** A log over a data file that needs no recovery. */
    constructor (checksum: Checksum, poolSize: nat, file: map<nat, Page>)
      ensures Valid() && fresh(pool) && fresh(log) && fresh(pool.replacer.Repr)
      ensures State() == Start(DiskImage(file)) && log.records == [] && log.nextLsn == 0 && nextTxnId == 0
      ensures activeTransactions == 0 && log.checksum == checksum && pool.poolSize == poolSize
    {
      hide Agrees, TableOk, CleanOk, FreeSlots, EncodeAll, DualPriorityReplacer.Valid, Ordered, AllInPage;
      var l := new Log(checksum);
      log := l;
      pool := new Pool(poolSize, file, l);
      nextTxnId, activeTransactions := 0, 0;
      base, settled := DiskImage(file), 0;
      new;
      StartAgrees(file, pool.pages, pool.SlotsOf());
      assert log.records[0..] == [];
    }

    /** A log over a data file that recovery has brought up to date. The records it went through stay in
        memory, though the truncated file has none of them. */
    constructor Reopened(l: Log, poolSize: nat, file: map<nat, Page>, nextTxnId: nat, ghost image: Image)
      requires l.Valid() && l.first == l.unflushed == 0
      requires AllInPage(l.records) && Named(l.records, nextTxnId, l.nextLsn)
      requires Inv(System(image, |l.records|, l.records, 0, DiskImage(file)))
      ensures Valid() && log == l && fresh(pool) && fresh(pool.replacer.Repr)
      ensures State() == System(image, |l.records|, l.records, 0, DiskImage(file)) && this.nextTxnId == nextTxnId
      ensures activeTransactions == 0 && pool.poolSize == poolSize
      ensures forall b: nat :: Contents(b) == AfterCrash(State(), b) == State().disk(b)
    {
      hide Agrees, TableOk, CleanOk, FreeSlots, EncodeAll, DualPriorityReplacer.Valid, Ordered, AllInPage, Inv, Named,
           Recovered, Shown, FilePage;
      log := l;
      pool := new Pool(poolSize, file, l);
      this.nextTxnId, activeTransactions := nextTxnId, 0;
      base, settled := image, |l.records|;
      new;
      assert log.records[0..] == log.records;
      RecoveredAgrees(State(), file, pool.pages, pool.SlotsOf());
    }

    /** Applies a record to its page: the value bytes, then zeros to the end of the range. */
    method ApplyRecord(r: Record)
      requires Shape() && log.first <= log.unflushed && !r.Control? && InPage(r)
      requires Consistent(PageOf(r))
      requires pool.SlotsOf().Resident(PageOf(r)) || pool.Room()
      modifies pool, pool.replacer.Repr, log
      ensures Consistent(PageOf(r)) && fresh(pool.replacer.Repr - old(pool.replacer.Repr))
      ensures OnlyWritesBack() && log.nextLsn == old(log.nextLsn)
      ensures SamePins(old(pool.SlotsOf()), pool.SlotsOf()) && (old(pool.Room()) ==> pool.Room())
      ensures pool.SlotsOf().Resident(PageOf(r)) && Tracked(pool.SlotsOf(), r)
      ensures var p := PageOf(r);
        old(pool.SlotsOf()).Resident(p) ==>
          pool.SlotsOf().Meta(p).refcount == old(pool.SlotsOf()).Meta(p).refcount
          && pool.SlotsOf().Meta(p).pageLsn >= old(pool.SlotsOf()).Meta(p).pageLsn
      ensures forall b: nat :: b / PAGE_SIZE == PageOf(r) ==>
                Contents(b) == if Covers(r, b) then NewAt(r, b) else old(Contents(b))
    {
      hide Agrees, Shown, TableOk, CleanOk, KeepsOthers, WritesBackSafely, EncodeAll, Ordered, DualPriorityReplacer.Valid,
           Splice, FreeSlots, SamePins;
      ghost var s, file, pages, before := State(), pool.file, pool.pages, pool.SlotsOf();
      var p := PageOf(r);
      ghost var page := pool.View(p);
      pool.Modify(p, r.loc % PAGE_SIZE, Padded(r), r.lsn);
      LogSuffix();
      forall q: nat | q != p ensures Shown(pool.file, pool.pages, pool.SlotsOf().table, q) == Shown(file, pages, before.table, q) {
        assert pool.View(q) == old(pool.View(q));
      }
      EvictionKeepsAgreement(s, file, pages, before, pool.file, pool.pages, pool.SlotsOf(), State().flushed, p);
      assert pool.View(p) == Splice(page, r.loc % PAGE_SIZE, Padded(r));
      forall b: nat | b / PAGE_SIZE == p
        ensures Contents(b) == if Covers(r, b) then NewAt(r, b) else old(Contents(b))
      {
        SpliceIsNewAt(page, r, b);
      }
    }

    /** Pins a page; the pool may evict others, under the write-ahead rule. */
    method GetPage(page: nat) returns (r: Retained)
      requires Consistent(-1)
      modifies pool, pool.replacer.Repr, log
      ensures Consistent(-1) && fresh(pool.replacer.Repr - old(pool.replacer.Repr))
      ensures r.Slot? <==> old(pool.SlotsOf().Resident(page) || pool.Room())
      ensures r.Slot? ==> pool.SlotsOf().Resident(page) && pool.SlotsOf().Meta(page).refcount > 0
      ensures r.Slot? ==> !pool.SlotsOf().Meta(page).adviseEviction
      ensures r.Slot? ==> PinsMoved(old(pool.SlotsOf()), pool.SlotsOf(), page, 1)
      ensures r.Full? ==> pool.SlotsOf() == old(pool.SlotsOf())
      ensures OnlyWritesBack() && log.nextLsn == old(log.nextLsn)
      ensures forall b :: Contents(b) == old(Contents(b))
    {
      hide Agrees, Shown, TableOk, CleanOk, KeepsOthers, WritesBackSafely, EncodeAll, Ordered, DualPriorityReplacer.Valid, PinsMoved;
      ghost var s, file, pages, before := State(), pool.file, pool.pages, pool.SlotsOf();
      AgreementExcept(s, file, pages, before, page);
      pool.RoomMeansNotFull(page);
      r := pool.Retain(page, false);
      LogSuffix();
      forall q: nat ensures Shown(pool.file, pool.pages, pool.SlotsOf().table, q) == Shown(file, pages, before.table, q) {
        assert pool.View(q) == old(pool.View(q));
      }
      if r.Slot? {
        EvictionKeepsAgreement(s, file, pages, before, pool.file, pool.pages, pool.SlotsOf(), State().flushed, page);
        assert State() == s.(flushed := State().flushed, disk := DiskImage(pool.file));
        StaysTracked(s, State().flushed, DiskImage(pool.file), before, pool.SlotsOf(), page);
        forall b: nat ensures Contents(b) == Memory(State(), b) {
          assert ShownByte(file, pages, before.table, b) == Memory(s, b);
        }
        AgreementRestored(State(), pool.file, pool.pages, pool.SlotsOf(), page);
      }
    }

    /** Sets `writeLength` bytes from `loc` on to `data` followed by zeros. False stands for the
        exception of a pool with every page pinned; then only an LSN is used up. */
    method Set(txn: nat, loc: nat, data: seq<Byte>, writeLength: nat) returns (ok: bool)
      requires Valid() && Running(LiveLog(), settled, txn) && Unclaimed(LiveLog()[settled..], txn, loc, writeLength)
      requires |data| <= writeLength && loc % PAGE_SIZE + writeLength <= PAGE_SIZE
      requires Begun(log.records, log.first + settled, txn)
      modifies pool, pool.replacer.Repr, log
      ensures Valid() && fresh(pool.replacer.Repr - old(pool.replacer.Repr))
      ensures log.nextLsn == old(log.nextLsn) + 1 && log.first == old(log.first)
      ensures base == old(base) && settled == old(settled)
      ensures ok <==> old(pool.SlotsOf().Resident(loc / PAGE_SIZE) || pool.Room())
      ensures SamePins(old(pool.SlotsOf()), pool.SlotsOf()) && (pool.Room() <==> old(pool.Room()))
      ensures !ok ==> log.records == old(log.records) && forall b :: Contents(b) == old(Contents(b))
      ensures ok ==> |log.records| == |old(log.records)| + 1 && old(log.records) <= log.records
      ensures ok ==>
        var r := Last(log.records);
        && r.Set? && r.lsn == old(log.nextLsn) && r.txn == txn && r.loc == loc && r.len == writeLength && r.newVal == data
        && (forall b: nat {:trigger Covers(r, b)} :: Covers(r, b) ==> OldAt(r, b) == old(Contents(b)))
        && Trims(r.oldVal, |r.oldVal|)
        && (forall b: nat :: Contents(b) == if Covers(r, b) then NewAt(r, b) else old(Contents(b)))
    {
      hide Consistent, Shown, Ordered, AllInPage, Running, Unclaimed, Trims, Covers, NewAt, OldAt, PinsMoved, SamePins, HasRoom,
           Shape;
      ConsistentBounds(-1);
      ghost var before := pool.SlotsOf();
      NameIsNew(log.records, nextTxnId, log.nextLsn, log.first + settled, txn);
      ghost var live := LiveLog();
      var lsn := NextLsn();
      assert LiveLog() == live;
      var handle := GetPage(loc / PAGE_SIZE);
      assert LiveLog() == live;
      if handle.Full? {
        SamePinsSelf(before);
        RoomKept();
        return false;
      }
      ghost var mid := pool.SlotsOf();
      var _ := SetPinned(lsn, txn, loc, data, writeLength);
      ghost var after := pool.SlotsOf();
      ReleasePage(loc / PAGE_SIZE);
      SamePinsBetween(before, mid, after, pool.SlotsOf(), loc / PAGE_SIZE);
      RoomKept();
      ok := true;
    }

    /** The part of a SET done while its page is pinned. */
    method SetPinned(lsn: nat, txn: nat, loc: nat, data: seq<Byte>, writeLength: nat) returns (r: Record)
      requires Consistent(-1) && Running(LiveLog(), settled, txn) && Unclaimed(LiveLog()[settled..], txn, loc, writeLength)
      requires |data| <= writeLength && loc % PAGE_SIZE + writeLength <= PAGE_SIZE
      requires lsn < log.nextLsn && (log.records != [] ==> Last(log.records).lsn < lsn)
      requires pool.SlotsOf().Resident(loc / PAGE_SIZE) && pool.SlotsOf().Meta(loc / PAGE_SIZE).refcount > 0
      modifies pool, pool.replacer.Repr, log
      ensures Consistent(-1) && fresh(pool.replacer.Repr - old(pool.replacer.Repr))
      ensures SamePins(old(pool.SlotsOf()), pool.SlotsOf())
      ensures log.records == old(log.records) + [r] && log.nextLsn == old(log.nextLsn) && log.first == old(log.first)
      ensures pool.SlotsOf().Resident(loc / PAGE_SIZE) && pool.SlotsOf().Meta(loc / PAGE_SIZE).refcount > 0
      ensures r.Set? && r.lsn == lsn && r.txn == txn && r.loc == loc && r.len == writeLength && r.newVal == data
      ensures forall b: nat {:trigger Covers(r, b)} :: Covers(r, b) ==> OldAt(r, b) == old(Contents(b))
      ensures Trims(r.oldVal, |r.oldVal|)
      ensures forall b: nat :: Contents(b) == if Covers(r, b) then NewAt(r, b) else old(Contents(b))
    {
      hide Consistent, Shape, Agrees, Shown, MayAppend, Running, Unclaimed, Trims, Covers, NewAt, OldAt, DiskImage, SamePins;
      ConsistentParts(-1);
      var oldValue := pool.View(loc / PAGE_SIZE)[loc % PAGE_SIZE..loc % PAGE_SIZE + writeLength];
      var fromLength := GetUnpaddedLength(oldValue);
      TrimsWithin(oldValue, fromLength);
      r := Record.Set(lsn, txn, loc, writeLength, oldValue[..fromLength], data);
      PinnedSet(State(), pool.file, pool.pages, pool.SlotsOf(), r, oldValue, fromLength);
      ApplyThenPush(r);
    }

    /** The order of a SET: the page, which is pinned, is changed before the log has the record. */
    method ApplyThenPush(r: Record)
      requires Consistent(-1) && r.Set? && InPage(r)
      requires settled <= |LiveLog()| && MayAppend(base, LiveLog(), settled, r)
      requires pool.SlotsOf().Resident(PageOf(r)) && pool.SlotsOf().Meta(PageOf(r)).refcount > 0
      requires r.lsn < log.nextLsn && (log.records != [] ==> Last(log.records).lsn < r.lsn)
      modifies pool, pool.replacer.Repr, log
      ensures Consistent(-1) && fresh(pool.replacer.Repr - old(pool.replacer.Repr))
      ensures SamePins(old(pool.SlotsOf()), pool.SlotsOf())
      ensures log.records == old(log.records) + [r] && log.nextLsn == old(log.nextLsn) && log.first == old(log.first)
      ensures pool.SlotsOf().Resident(PageOf(r)) && pool.SlotsOf().Meta(PageOf(r)).refcount > 0
      ensures forall b: nat :: Contents(b) == if Covers(r, b) then NewAt(r, b) else old(Contents(b))
    {
      hide Agrees, Shown, TableOk, CleanOk, EncodeAll, DualPriorityReplacer.Valid, FreeSlots, MayAppend, Ordered, AllInPage,
           InPage, Pending, Redo, Covers, DiskImage, Tracked, SamePins;
      ghost var s, file, pages, before := State(), pool.file, pool.pages, pool.SlotsOf();
      var p := PageOf(r);
      AgreementExcept(s, file, pages, before, p);
      ApplyRecord(r);
      Push(r, p);
      AppliedAndPushed(s, State(), file, pages, before, pool.file, pool.pages, pool.SlotsOf(), r);
    }

    /** The order of a CLR: the log has the record before the page is changed. */
    method PushThenApply(r: Record)
      requires Consistent(-1) && r.Clr? && InPage(r) && pool.Room()
      requires settled <= |LiveLog()| && MayAppend(base, LiveLog(), settled, r)
      requires r.lsn < log.nextLsn && (log.records != [] ==> Last(log.records).lsn < r.lsn)
      modifies pool, pool.replacer.Repr, log
      ensures Consistent(-1) && fresh(pool.replacer.Repr - old(pool.replacer.Repr)) && pool.Room()
      ensures SamePins(old(pool.SlotsOf()), pool.SlotsOf())
      ensures log.records == old(log.records) + [r] && log.nextLsn == old(log.nextLsn) && log.first == old(log.first)
      ensures forall b: nat :: Contents(b) == if Covers(r, b) then NewAt(r, b) else old(Contents(b))
    {
      hide Consistent, Shape, Agrees, Shown, DualPriorityReplacer.Valid, HasRoom, MayAppend, InPage, Redo, Covers, DiskImage, Tracked, AllInPage, Ordered,
           SamePins;
      ConsistentParts(-1);
      ghost var s, file, pages, before := State(), pool.file, pool.pages, pool.SlotsOf();
      AgreesBounded(s, file, pages, before, -1);
      AgreementExcept(s, file, pages, before, PageOf(r));
      ConsistentWhole(PageOf(r));
      Push(r, PageOf(r));
      ConsistentParts(PageOf(r));
      ApplyRecord(r);
      ConsistentParts(PageOf(r));
      AppliedAndPushed(s, State(), file, pages, before, pool.file, pool.pages, pool.SlotsOf(), r);
      ConsistentWhole(-1);
    }

    method ReleasePage(page: nat)
      requires Consistent(-1) && pool.SlotsOf().Resident(page) && pool.SlotsOf().Meta(page).refcount > 0
      modifies pool`metadata, pool.replacer.Repr
      ensures Consistent(-1) && fresh(pool.replacer.Repr - old(pool.replacer.Repr))
      ensures forall b :: Contents(b) == old(Contents(b))
      ensures PinsMoved(old(pool.SlotsOf()), pool.SlotsOf(), page, -1)
    {
      hide Agrees, Shown, TableOk, CleanOk, EncodeAll, DualPriorityReplacer.Valid, FreeSlots, Ordered, PinsMoved;
      pool.SlotsAreInjective(page);
      var index := pool.fileToPoolIndex[page];
      ghost var before, m := pool.SlotsOf(), pool.metadata[index];
      ChangePins(pool.poolSize, pool.nextPoolIndex, pool.metadata, pool.fileToPoolIndex, page, m.(refcount := m.refcount - 1));
      UnpinKeepsAgreement(State(), pool.file, pool.pages, before, index, m.(refcount := m.refcount - 1));
      var _ := pool.Release(index);
    }

    /** Pushes a record that the log discipline allows. */
    method Push(r: Record, ghost except: int)
      requires Consistent(except) && InPage(r) && (r.Control? || PageOf(r) == except)
      requires settled <= |LiveLog()| && MayAppend(base, LiveLog(), settled, r)
      requires r.lsn < log.nextLsn && (log.records != [] ==> Last(log.records).lsn < r.lsn)
      modifies log`records
      ensures Consistent(except) && log.records == old(log.records) + [r]
      ensures State() == old(State()).(log := old(State()).log + [r])
    {
      hide Agrees, Shown, TableOk, CleanOk, EncodeAll, DualPriorityReplacer.Valid, FreeSlots, MayAppend, Ordered, AllInPage,
           InPage, Pending, Redo, Covers, DiskImage, Tracked;
      ghost var s := State();
      AgreesBounded(s, pool.file, pool.pages, pool.SlotsOf(), except);
      PushKeepsAgreement(s, pool.file, pool.pages, pool.SlotsOf(), r, except);
      AllInPageSnoc(log.records, r);
      log.Push(r);
      assert LiveLog() == s.log + [r];
    }

    /** Starts a transaction and returns its name: the LSN of its BEGIN record. The record itself
        carries a counter. */
    method Begin() returns (txn: nat)
      requires Valid()
      modifies this`nextTxnId, this`activeTransactions, log
      ensures Valid() && txn == old(log.nextLsn) && log.nextLsn == txn + 1
      ensures log.records == old(log.records) + [Control(txn, old(nextTxnId), BEGIN)]
      ensures log.first == old(log.first) && nextTxnId == old(nextTxnId) + 1
      ensures activeTransactions == old(activeTransactions) + 1
      ensures Begun(log.records, log.first + settled, txn) && Running(LiveLog(), settled, txn)
    {
      hide Agrees, Pool.Valid, Log.Valid, Ordered, AllInPage, Running, Named, Begun;
      ghost var from := log.first + settled;
      ConsistentBounds(-1);
      txn := AppendControl(nextTxnId, BEGIN);
      BeginIsNamed(old(log.records), txn, nextTxnId, from);
      ConsistentBounds(-1);
      nextTxnId := nextTxnId + 1;
      activeTransactions := activeTransactions + 1;
      NewNameIsRunning(log.records, nextTxnId, log.nextLsn, log.first, settled, txn);
    }

    /** As many handles as before leave as much room. */
    twostate lemma RoomKept()
      requires old(Consistent(-1)) && Consistent(-1) && SamePins(old(pool.SlotsOf()), pool.SlotsOf())
      ensures pool.Room() <==> old(pool.Room())
    {
      hide Agrees, SamePins, HasRoom, TableOk, CleanOk, FreeSlots, DualPriorityReplacer.Valid, Log.Valid;
      pool.RoomUnmoved();
    }

    lemma ConsistentParts(except: int)
      requires Consistent(except)
      ensures Shape() && log.first <= log.unflushed <= |log.records| && log.first + settled <= |log.records|
      ensures Agrees(State(), pool.file, pool.pages, pool.SlotsOf(), except)
      ensures this !in pool.replacer.Repr && pool !in pool.replacer.Repr && log !in pool.replacer.Repr && pool.wal == log
    {
      hide Agrees;
    }

    lemma ConsistentWhole(except: int)
      requires Shape() && log.first <= log.unflushed <= |log.records| && log.first + settled <= |log.records|
      requires Agrees(State(), pool.file, pool.pages, pool.SlotsOf(), except)
      ensures Consistent(except)
    {
    }

    lemma ConsistentBounds(except: int)
      requires Consistent(except)
      ensures log.first <= log.unflushed <= |log.records| && log.first + settled <= |log.records|
      ensures Ordered(log.records, log.nextLsn) && AllInPage(log.records)
      ensures log.records[log.first + settled..] == LiveLog()[settled..]
      ensures this !in pool.replacer.Repr && pool !in pool.replacer.Repr && log !in pool.replacer.Repr
    {
      hide Agrees, Ordered, AllInPage;
    }

    method NextLsn() returns (lsn: nat)
      requires Consistent(-1)
      modifies log`nextLsn
      ensures Consistent(-1) && lsn == old(log.nextLsn) && log.nextLsn == lsn + 1
      ensures log.records != [] ==> Last(log.records).lsn < lsn
    {
      hide Agrees, Shown, TableOk, CleanOk, EncodeAll, DualPriorityReplacer.Valid, FreeSlots, Ordered, AllInPage;
      LastIsBelow(log.records, log.nextLsn);
      lsn := log.TakeLsn();
    }

    /** Numbers and pushes a record that changes no page. */
    method AppendControl(txn: nat, kind: Byte) returns (lsn: nat)
      requires Consistent(-1)
      requires MayAppend(base, LiveLog(), settled, Control(log.nextLsn, txn, kind))
      modifies log`nextLsn, log`records
      ensures Consistent(-1)
      ensures lsn == old(log.nextLsn) && log.nextLsn == lsn + 1
      ensures log.records == old(log.records) + [Control(lsn, txn, kind)]
    {
      hide Agrees, Shown, TableOk, CleanOk, EncodeAll, DualPriorityReplacer.Valid, FreeSlots, Ordered, AllInPage,
           Pending, Redo, Covers, DiskImage, Tracked, MayAppend;
      lsn := NextLsn();
      Push(Control(lsn, txn, kind), -1);
    }

    /** Ends a transaction; when this returns, a crash can no longer undo it. */
    method Commit(txn: nat)
      requires Valid() && Begun(log.records, log.first + settled, txn)
      requires txn !in Finished(LiveLog()[settled..]) && !HasClr(LiveLog()[settled..], txn)
      modifies this`activeTransactions, log
      ensures Valid() && log.first == old(log.first)
      ensures log.records == old(log.records) + [Control(old(log.nextLsn), txn, COMMIT)]
      ensures log.unflushed == |log.records|
      ensures activeTransactions == old(activeTransactions) - 1
      ensures forall b: nat :: Contents(b) == old(Contents(b))
      ensures forall b: nat :: SetHere(old(LiveLog()[settled..]), txn, b) ==> AfterCrash(State(), b) == Contents(b)
    {
      hide Agrees, TableOk, CleanOk, FreeSlots, DualPriorityReplacer.Valid, Ordered, AllInPage, Begun, Finished, HasClr,
           EncodeAll, Redo, Shown, FilePage, Recovered, SetHere;
      NameIsNew(log.records, nextTxnId, log.nextLsn, log.first + settled, txn);
      ghost var s := State();
      var lsn := AppendControl(txn, COMMIT);
      ghost var s1 := State();
      NamedGrows(old(log.records), Control(lsn, txn, COMMIT), nextTxnId, nextTxnId, lsn + 1, 0);
      FlushKeepsAgreement(s1, pool.file, pool.pages, pool.SlotsOf());
      log.Flush();
      activeTransactions := activeTransactions - 1;
      assert State() == s1.(flushed := |s1.log|);
      forall b: nat | SetHere(old(LiveLog()[settled..]), txn, b) ensures AfterCrash(State(), b) == Contents(b) {
        CommitFlushed(s, s1, pool.file, pool.pages, pool.SlotsOf(), txn, lsn, b);
      }
    }

    /** Undoes a transaction: every byte it set holds again what it held before the first of its
        SETs, and no other byte changes. A pool slot must be available, as the page of a SET may
        have been evicted. */
    method Abort(txn: nat)
      requires Valid() && pool.Room()
      requires Begun(log.records, log.first + settled, txn) && txn !in Finished(LiveLog()[settled..])
      requires ScanSeesAll(log.records, txn)
      modifies this`activeTransactions, pool, pool.replacer.Repr, log
      ensures Valid() && fresh(pool.replacer.Repr - old(pool.replacer.Repr))
      ensures SamePins(old(pool.SlotsOf()), pool.SlotsOf()) && pool.Room()
      ensures log.records == old(log.records) + AbortRecords(old(log.records), txn, old(log.nextLsn))
      ensures log.first == old(log.first) && activeTransactions == old(activeTransactions) - 1
      ensures forall b: nat :: Contents(b) ==
                Redo(base(b), old(LiveLog()[settled..])[..FirstSetOf(old(LiveLog()[settled..]), txn, b)], b)
    {
      hide Agrees, Ordered, AllInPage, Named, Begun, Finished, Redo, Shown, FilePage, ScanSeesAll, Pool.Valid, HasRoom,
           Log.Valid, Mentions, FirstSetOf, Running, AbortRecords, SamePins;
      ghost var records, from, s := log.records, log.first + settled, State();
      ConsistentBounds(-1);
      NameIsNew(records, nextTxnId, log.nextLsn, from, txn);
      OpenIsRunning(records, log.first, settled, txn);
      AbortIsNamed(records, nextTxnId, log.nextLsn, txn);
      AgreesBounded(s, pool.file, pool.pages, pool.SlotsOf(), -1);
      WriteAbort(txn);
      activeTransactions := activeTransactions - 1;
      AgreesBounded(State(), pool.file, pool.pages, pool.SlotsOf(), -1);
      assert LiveLog()[settled..] == log.records[from..];
      forall b: nat ensures Contents(b) ==
          Redo(base(b), records[from..][..FirstSetOf(records[from..], txn, b)], b)
      {
        AgreesAt(State(), pool.file, pool.pages, pool.SlotsOf(), b);
        AbortedContents(s, records, from, State(), log.records, txn, old(log.nextLsn), b);
      }
    }

    method WriteAbort(txn: nat)
      requires Consistent(-1) && pool.Room() && ScanSeesAll(log.records, txn)
      requires !Mentions(log.records[..log.first + settled], txn) && Running(LiveLog(), settled, txn)
      modifies pool, pool.replacer.Repr, log
      ensures Consistent(-1) && fresh(pool.replacer.Repr - old(pool.replacer.Repr))
      ensures SamePins(old(pool.SlotsOf()), pool.SlotsOf()) && pool.Room()
      ensures log.records == old(log.records) + AbortRecords(old(log.records), txn, old(log.nextLsn))
      ensures log.nextLsn == old(log.nextLsn) + |AbortRecords(old(log.records), txn, old(log.nextLsn))|
      ensures log.first == old(log.first)
    {
      hide Consistent, UndoStack, Mentions, Running, AllInPage, Ordered, HasRoom, Compensations, ScanStart, ScanSeesAll, Shape,
           MayAppend, AbortRecords, Finished, SamePins;
      ghost var records, from := log.records, log.first + settled;
      ConsistentBounds(-1);
      MayBeginAbort(base, LiveLog(), settled, txn, log.nextLsn);
      var lsn := AppendControl(txn, ABORT_BEGIN);
      ghost var begun := log.records;
      var start := FindScanStart(log.records, txn);
      var toUndo := CollectUndo(log.records, txn, start);
      AbortBegun(records, begun, log.first, settled, txn, lsn);
      assert begun[..from] == records[..from];
      UndoAll(txn, toUndo);
      ConsistentBounds(-1);
      assert log.records[..from] == records[..from];
      UndoneMayEnd(base, log.records, log.first, settled, txn, log.nextLsn);
      var _ := AppendControl(txn, ABORT_END);
      AbortRecordsAre(records, begun, log.records, txn, lsn, toUndo);
    }

    /** Writes and applies the CLRs of an undo stack, last SET first. */
    method UndoAll(txn: nat, toUndo: seq<nat>)
      requires Consistent(-1) && pool.Room()
      requires toUndo == UndoStack(log.records, txn, 0)
      requires !Mentions(log.records[..log.first + settled], txn) && Running(LiveLog(), settled, txn)
      modifies pool, pool.replacer.Repr, log
      ensures Consistent(-1) && pool.Room() && fresh(pool.replacer.Repr - old(pool.replacer.Repr))
      ensures SamePins(old(pool.SlotsOf()), pool.SlotsOf())
      ensures log.first == old(log.first) && log.nextLsn == old(log.nextLsn) + |toUndo|
      ensures log.records == old(log.records) + Compensations(old(log.records), toUndo, old(log.nextLsn))
      ensures UndoStack(log.records, txn, 0) == [] && Running(LiveLog(), settled, txn)
    {
      hide Consistent, UndoStack, Mentions, Running, AllInPage, Ordered, HasRoom, Compensations, SamePins;
      ConsistentBounds(-1);
      ghost var begun, lsn, before := log.records, log.nextLsn, pool.SlotsOf();
      SamePinsSelf(before);
      var i := |toUndo|;
      assert toUndo[..i] == toUndo;
      while i > 0
        invariant 0 <= i <= |toUndo| && Consistent(-1) && pool.Room()
        invariant fresh(pool.replacer.Repr - old(pool.replacer.Repr)) && SamePins(before, pool.SlotsOf())
        invariant log.first == old(log.first) && log.nextLsn == lsn + |toUndo| - i
        invariant begun <= log.records && !Mentions(log.records[..log.first + settled], txn)
        invariant log.records + Compensations(begun, toUndo[..i], log.nextLsn) == begun + Compensations(begun, toUndo, lsn)
        invariant UndoStack(log.records, txn, 0) == toUndo[..i] && Running(LiveLog(), settled, txn)
      {
        i := i - 1;
        CompensationsPeel(begun, toUndo, i, log.nextLsn);
        ghost var mid := pool.SlotsOf();
        UndoOne(txn, toUndo[i]);
        SamePinsTwice(before, mid, pool.SlotsOf());
      }
      CompensationsOfNone(begun, log.nextLsn);
      assert toUndo[..0] == [];
    }

    /** Writes and applies the CLR for the last SET that is not undone. */
    method UndoOne(txn: nat, index: nat)
      requires Consistent(-1) && pool.Room()
      requires UndoStack(log.records, txn, 0) != [] && TopOf(UndoStack(log.records, txn, 0)) == index
      requires !Mentions(log.records[..log.first + settled], txn) && Running(LiveLog(), settled, txn)
      modifies pool, pool.replacer.Repr, log
      ensures Consistent(-1) && pool.Room() && fresh(pool.replacer.Repr - old(pool.replacer.Repr))
      ensures SamePins(old(pool.SlotsOf()), pool.SlotsOf())
      ensures log.first == old(log.first) && log.nextLsn == old(log.nextLsn) + 1
      ensures index < |old(log.records)| && old(log.records)[index].Set?
      ensures log.records == old(log.records) + [Compensation(old(log.records)[index], old(log.nextLsn))]
      ensures UndoStack(log.records, txn, 0) == old(UndoStack(log.records, txn, 0))[..|old(UndoStack(log.records, txn, 0))| - 1]
      ensures Running(LiveLog(), settled, txn) && !Mentions(log.records[..log.first + settled], txn)
    {
      hide Consistent, UndoStack, Mentions, Running, AllInPage, InPage, MayAppend, Ordered, HasRoom, Covers, NewAt, Shown,
           ShownByte, Shape, SamePins;
      ConsistentBounds(-1);
      ghost var records, first, live := log.records, log.first, LiveLog();
      OneUndone(base, records, first, settled, txn, log.nextLsn);
      var lsn := NextLsn();
      assert LiveLog() == live;
      var clr := Compensation(log.records[index], lsn);
      PushThenApply(clr);
      assert log.records == records + [clr] && log.first == first;
    }

    /** With no transaction running, writes all pages and truncates the log. Records that were not
        flushed stay so, and will open the next log file. */
    method Checkpoint()
      requires Valid() && AllFinished(LiveLog()[settled..], Finished(LiveLog()[settled..]))
      modifies this`base, this`settled, pool, log
      ensures Valid() && log.records == old(log.records) && log.nextLsn == old(log.nextLsn)
      ensures log.file == [] && log.first == log.unflushed == old(log.unflushed) && settled == |LiveLog()|
      ensures SamePins(old(pool.SlotsOf()), pool.SlotsOf()) && pool.fileToPoolIndex == old(pool.fileToPoolIndex)
      ensures forall q :: FilePage(pool.file, q) == pool.View(q) == old(pool.View(q))
      ensures forall b: nat :: AfterCrash(State(), b) == Contents(b) == old(Contents(b))
    {
      hide Agrees, TableOk, CleanOk, FreeSlots, DualPriorityReplacer.Valid, Ordered, AllInPage, Named, Finished, AllFinished,
           EncodeAll, Redo, Shown, ShownByte, FilePage, Recovered, MayAppend, Memory, Consistent;
      ConsistentParts(-1);
      ghost var s, file, pages, before := State(), pool.file, pool.pages, pool.SlotsOf();
      AgreesBounded(s, file, pages, before, -1);
      pool.FlushAll();
      CheckpointAgrees(s, file, pages, before, pool.file, pool.SlotsOf());
      log.Truncate();
      base := Next(s, Step.Checkpoint).base;
      settled := |s.log| - s.flushed;
      assert State() == Next(s, Step.Checkpoint).(disk := DiskImage(pool.file));
      ConsistentWhole(-1);
    }

    lemma LogSuffix()
      requires log.first <= log.unflushed <= |log.records|
      ensures log.records[log.first..][log.unflushed - log.first..] == log.records[log.unflushed..]
    {
    }
  }

  /** The page LSN and the dirty flag of a page that stays only grow, so its records stay tracked. */
  lemma StaysTracked(s: System, flushed': nat, disk: Image, before: Slots, after: Slots, p: nat)
    requires Bounded(s) && s.flushed <= flushed' <= |s.log|
    requires forall i :: 0 <= i < |Pending(s)| ==> Tracked(before, Pending(s)[i])
    requires before.Resident(p) ==>
               after.Resident(p) && (before.Meta(p).dirty ==> after.Meta(p).dirty)
               && before.Meta(p).pageLsn <= after.Meta(p).pageLsn
    ensures var s' := s.(flushed := flushed', disk := disk);
      Bounded(s') && forall i :: 0 <= i < |Pending(s')| && !Pending(s')[i].Control? && PageOf(Pending(s')[i]) == p ==>
                       Tracked(after, Pending(s')[i])
  {
    PendingShrinks(s, flushed', disk);
    var s' := s.(flushed := flushed', disk := disk);
    forall i | 0 <= i < |Pending(s')| && !Pending(s')[i].Control? && PageOf(Pending(s')[i]) == p
      ensures Tracked(after, Pending(s')[i])
    {
      var k :| 0 <= k < |Pending(s)| && Pending(s)[k] == Pending(s')[i];
      assert Tracked(before, Pending(s)[k]);
    }
  }

  lemma PendingShrinks(s: System, flushed': nat, disk: Image)
    requires Bounded(s) && s.flushed <= flushed' <= |s.log|
    ensures var s' := s.(flushed := flushed', disk := disk);
      Bounded(s') && forall i :: 0 <= i < |Pending(s')| ==> Pending(s')[i] in Pending(s) && Pending(s')[i] in s.log[flushed'..]
  {
    hide Max;
    var from, from' := Max(s.settled, s.flushed), Max(s.settled, flushed');
    MaxBounds(s.settled, s.flushed);
    MaxBounds(s.settled, flushed');
    SuffixOfSuffix(s.log, from, from');
    SuffixOfSuffix(s.log, flushed', from');
  }

  lemma MaxBounds(x: nat, y: nat)
    ensures Max(x, y) >= x && Max(x, y) >= y && (Max(x, y) == x || Max(x, y) == y)
  {
  }

  lemma SuffixOfSuffix(log: seq<Record>, i: nat, j: nat)
    requires i <= j <= |log|
    ensures forall r :: r in log[j..] ==> r in log[i..]
  {
    assert log[i..][j - i..] == log[j..];
  }
}
