/** The buffer pool: a cache of file pages with reference counts, dirty flags and eviction. */
module BufferPool {
  import opened Bytes
  import opened Basics
  import opened LogSemantics
  import opened WalLog
  import opened Replacer

  type Page = s: seq<Byte> | |s| == PAGE_SIZE witness seq(PAGE_SIZE, _ => 0)

  const ZERO_PAGE: Page := Zeros(PAGE_SIZE)

  /** Reading a page of the file; past its end, and in holes, there are zeros. */
  function FilePage(file: map<nat, Page>, page: nat): Page {
    if page in file then file[page] else ZERO_PAGE
  }

  datatype Metadata = Metadata(fileIndex: int, pageLsn: nat, refcount: nat, dirty: bool, adviseEviction: bool)

  const UNUSED := Metadata(-1, 0, 0, false, false)

  datatype Retained = Full | Slot(index: nat)

  /** The page table and the slot metadata are inverse to each other; slots not handed out yet are
      unused. */
  ghost predicate TableOk(slots: nat, used: nat, metadata: seq<Metadata>, table: map<nat, nat>) {
    && used <= slots == |metadata|
    && (forall p :: p in table ==> table[p] < used && metadata[table[p]].fileIndex == p)
    && (forall i {:trigger metadata[i]} :: 0 <= i < used ==>
          metadata[i].fileIndex >= 0 && metadata[i].fileIndex in table && table[metadata[i].fileIndex] == i)
    && (forall i {:trigger metadata[i]} :: used <= i < slots ==> metadata[i] == UNUSED)
  }

  /** The slots in use that nobody has pinned. */
  function FreeSlots(used: nat, metadata: seq<Metadata>): set<int> {
    set i | 0 <= i < used && i < |metadata| && metadata[i].refcount == 0
  }

  lemma FreeSlotsUpdate(used: nat, metadata: seq<Metadata>, i: nat, m: Metadata)
    requires i < used <= |metadata|
    ensures FreeSlots(used, metadata[i := m])
         == if m.refcount == 0 then FreeSlots(used, metadata) + {i} else FreeSlots(used, metadata) - {i}
    ensures i in FreeSlots(used, metadata) <==> metadata[i].refcount == 0
  {
  }

  lemma FreeSlotsLoad(slots: nat, used: nat, used': nat, metadata: seq<Metadata>, i: nat, m: Metadata)
    requires TakesSlot(slots, used, used', i) && slots == |metadata| && i < slots && m.refcount > 0
    ensures FreeSlots(used', metadata[i := m]) == FreeSlots(used, metadata) - {i}
  {
  }

  lemma FreeSlotsBounds(used: nat, metadata: seq<Metadata>)
    ensures forall i :: i in FreeSlots(used, metadata) ==> 0 <= i < used && i < |metadata| && metadata[i].refcount == 0
    ensures used == |metadata| ==> (FreeSlots(used, metadata) == {} <==> forall i :: 0 <= i < |metadata| ==> metadata[i].refcount > 0)
  {
    if used == |metadata| && FreeSlots(used, metadata) == {} {
      forall i | 0 <= i < |metadata| ensures metadata[i].refcount > 0 {
        assert i !in FreeSlots(used, metadata);
      }
    }
  }

  /** What a reader sees of file page `p`: the cached copy if there is one. */
  function Shown(file: map<nat, Page>, pages: seq<Page>, table: map<nat, nat>, p: nat): Page {
    if p in table && table[p] < |pages| then pages[table[p]] else FilePage(file, p)
  }

  /** A slot that is not dirty agrees with the file. */
  ghost predicate CleanOk(file: map<nat, Page>, pages: seq<Page>, metadata: seq<Metadata>, table: map<nat, nat>)
    requires |pages| == |metadata|
  {
    forall p :: p in table && table[p] < |pages| && !metadata[table[p]].dirty ==>
      pages[table[p]] == FilePage(file, p)
  }

  /** The file after slot `i` has been given up: a dirty page is written back first. */
  function WrittenBack(file: map<nat, Page>, pages: seq<Page>, m: Metadata, i: nat): map<nat, Page>
    requires i < |pages|
  {
    if m.dirty && m.fileIndex >= 0 then file[m.fileIndex as nat := pages[i]] else file
  }

  /** The page table without the page that used to be in a slot. */
  function Dropped(table: map<nat, nat>, m: Metadata): map<nat, nat> {
    if m.fileIndex >= 0 then table - {m.fileIndex as nat} else table
  }

  ghost predicate TakesSlot(slots: nat, used: nat, used': nat, i: nat) {
    (used' == used && i < used) || (used' == used + 1 <= slots && i == used)
  }

  /** The page table with the metadata of the slots it leads to. */
  datatype Slots = Slots(metadata: seq<Metadata>, table: map<nat, nat>) {
    predicate Resident(p: nat) {
      p in table && table[p] < |metadata|
    }

    function Meta(p: nat): Metadata
      requires Resident(p)
    {
      metadata[table[p]]
    }

    /** How many handles there are on page `p`. */
    function Pins(p: nat): nat {
      if Resident(p) then Meta(p).refcount else 0
    }
  }

  /** Page `p` has `by` more handles, and no other page has more or less. */
  ghost predicate PinsMoved(before: Slots, after: Slots, p: nat, more: int) {
    forall q :: after.Pins(q) == before.Pins(q) + if q == p then more else 0
  }

  /** Every page has as many handles as before. */
  ghost predicate SamePins(before: Slots, after: Slots) {
    forall q :: after.Pins(q) == before.Pins(q)
  }

  lemma PinsBack(before: Slots, mid: Slots, after: Slots, p: nat)
    requires PinsMoved(before, mid, p, 1) && PinsMoved(mid, after, p, -1)
    ensures SamePins(before, after)
  {
    forall q ensures after.Pins(q) == before.Pins(q) {
      assert mid.Pins(q) == before.Pins(q) + if q == p then 1 else 0;
    }
  }

  lemma SamePinsSelf(slots: Slots)
    ensures SamePins(slots, slots)
  {
  }

  lemma SamePinsBack(before: Slots, after: Slots)
    requires SamePins(before, after)
    ensures SamePins(after, before)
  {
    forall q ensures before.Pins(q) == after.Pins(q) {
      assert after.Pins(q) == before.Pins(q);
    }
  }

  lemma SamePinsTwice(before: Slots, mid: Slots, after: Slots)
    requires SamePins(before, mid) && SamePins(mid, after)
    ensures SamePins(before, after)
  {
    forall q ensures after.Pins(q) == before.Pins(q) {
      assert mid.Pins(q) == before.Pins(q);
    }
  }

  lemma SamePinsBetween(before: Slots, mid: Slots, after: Slots, last: Slots, p: nat)
    requires PinsMoved(before, mid, p, 1) && SamePins(mid, after) && PinsMoved(after, last, p, -1)
    ensures SamePins(before, last)
  {
    forall q ensures last.Pins(q) == before.Pins(q) {
      assert mid.Pins(q) == before.Pins(q) + if q == p then 1 else 0;
      assert after.Pins(q) == mid.Pins(q);
    }
  }

  /** Changing the metadata of page `p` in its slot moves only the pins of that page. */
  lemma ChangePins(slots: nat, used: nat, metadata: seq<Metadata>, table: map<nat, nat>, p: nat, m: Metadata)
    requires TableOk(slots, used, metadata, table) && p in table && table[p] < |metadata|
    ensures var before := Slots(metadata, table);
      PinsMoved(before, Slots(metadata[table[p] := m], table), p, m.refcount - before.Pins(p))
  {
    var before, after := Slots(metadata, table), Slots(metadata[table[p] := m], table);
    forall q ensures after.Pins(q) == before.Pins(q) + if q == p then m.refcount - before.Pins(p) else 0 {
      if q in table && q != p {
        assert metadata[table[q]].fileIndex == q;
      }
    }
  }

  /** Loading a page into a slot that nobody has pinned moves only the pins of that page. */
  lemma LoadPins(slots: nat, used: nat, used': nat, metadata: seq<Metadata>, table: map<nat, nat>, i: nat, p: nat,
                 m: Metadata)
    requires TableOk(slots, used, metadata, table) && TakesSlot(slots, used, used', i)
    requires p !in table && m.fileIndex == p && metadata[i].refcount == 0
    ensures PinsMoved(Slots(metadata, table), Slots(metadata[i := m], Dropped(table, metadata[i])[p := i]), p, m.refcount)
  {
    var before, after := Slots(metadata, table), Slots(metadata[i := m], Dropped(table, metadata[i])[p := i]);
    forall q ensures after.Pins(q) == before.Pins(q) + if q == p then m.refcount else 0 {
      if q in table && q != p {
        assert metadata[table[q]].fileIndex == q;
      }
    }
  }

  /** Pages other than `p` stay in their slots exactly as they are, or leave if not pinned. */
  ghost predicate KeepsOthers(before: Slots, after: Slots, p: nat) {
    forall q :: q != p && before.Resident(q) && (after.Resident(q) || before.Meta(q).refcount > 0) ==>
      after.Resident(q) && after.table[q] == before.table[q] && after.Meta(q) == before.Meta(q)
  }

  /** A dirty page leaves the pool only when it is not pinned and the log is durable up to its
      page LSN, that is, what is still `unflushed` is newer: the write-ahead rule. */
  ghost predicate EvictsSafely(before: Slots, after: Slots, unflushed: seq<Record>) {
    forall q :: before.Resident(q) && !after.Resident(q) ==>
      before.Meta(q).refcount == 0
      && (before.Meta(q).dirty ==> forall k :: 0 <= k < |unflushed| ==> unflushed[k].lsn > before.Meta(q).pageLsn)
  }

  /** The file changes only at dirty pages that leave the pool, to the contents readers saw. */
  ghost predicate WritesBackEvicted(file: map<nat, Page>, pages: seq<Page>, before: Slots, file': map<nat, Page>,
                                    after: Slots) {
    forall q :: FilePage(file', q) == FilePage(file, q) ||
      (&& before.Resident(q) && !after.Resident(q) && before.Meta(q).dirty
       && FilePage(file', q) == Shown(file, pages, before.table, q))
  }

  ghost predicate WritesBackSafely(file: map<nat, Page>, pages: seq<Page>, before: Slots,
                                   file': map<nat, Page>, after: Slots, unflushed: seq<Record>) {
    EvictsSafely(before, after, unflushed) && WritesBackEvicted(file, pages, before, file', after)
  }

  lemma LoadKeepsTable(slots: nat, used: nat, used': nat, metadata: seq<Metadata>, table: map<nat, nat>, i: nat,
                       m: Metadata, q: nat)
    requires TableOk(slots, used, metadata, table) && TakesSlot(slots, used, used', i)
    requires q !in table && m.fileIndex == q
    ensures TableOk(slots, used', metadata[i := m], Dropped(table, metadata[i])[q := i])
  {
  }

  /** Giving slot `i` to page `q` changes nothing a reader sees, and writes at most one page: a
      dirty one, with the contents readers saw. */
  lemma LoadIsTransparent(file: map<nat, Page>, pages: seq<Page>, slots: nat, used: nat, used': nat,
                          metadata: seq<Metadata>, table: map<nat, nat>, i: nat, q: nat, m: Metadata)
    requires TableOk(slots, used, metadata, table) && |pages| == slots && TakesSlot(slots, used, used', i)
    requires q !in table && CleanOk(file, pages, metadata, table) && m.fileIndex == q
    ensures var file' := WrittenBack(file, pages, metadata[i], i);
      var pages' := pages[i := FilePage(file', q)];
      var table' := Dropped(table, metadata[i])[q := i];
      && CleanOk(file', pages', metadata[i := m], table')
      && (forall p :: Shown(file', pages', table', p) == Shown(file, pages, table, p))
      && WritesBackEvicted(file, pages, Slots(metadata, table), file', Slots(metadata[i := m], table'))
  {
  }

  lemma LoadEvictsSafely(slots: nat, used: nat, used': nat, metadata: seq<Metadata>, table: map<nat, nat>,
                         i: nat, q: nat, m: Metadata, unflushed: seq<Record>)
    requires TableOk(slots, used, metadata, table) && TakesSlot(slots, used, used', i) && q !in table
    requires metadata[i].refcount == 0
    requires metadata[i].dirty ==> forall k :: 0 <= k < |unflushed| ==> unflushed[k].lsn > metadata[i].pageLsn
    ensures EvictsSafely(Slots(metadata, table), Slots(metadata[i := m], Dropped(table, metadata[i])[q := i]), unflushed)
  {
  }

  lemma LoadKeepsOthers(slots: nat, used: nat, used': nat, metadata: seq<Metadata>, table: map<nat, nat>, i: nat,
                        q: nat, m: Metadata)
    requires TableOk(slots, used, metadata, table) && TakesSlot(slots, used, used', i)
    requires q !in table && m.fileIndex == q && metadata[i].refcount == 0
    ensures var table' := Dropped(table, metadata[i])[q := i];
      && KeepsOthers(Slots(metadata, table), Slots(metadata[i := m], table'), q)
      && (forall p :: p in table && table[p] != i ==> p in table')
  {
  }

  /** Changing the reference count of a slot, or the hint, or its page LSN. */
  lemma UpdateKeepsTable(slots: nat, used: nat, metadata: seq<Metadata>, table: map<nat, nat>, p: nat, m: Metadata)
    requires TableOk(slots, used, metadata, table) && p in table && table[p] < |metadata|
    requires m.fileIndex == metadata[table[p]].fileIndex
    ensures table[p] < used <= slots == |metadata| && TableOk(slots, used, metadata[table[p] := m], table)
    ensures KeepsOthers(Slots(metadata, table), Slots(metadata[table[p] := m], table), p)
  {
  }

  /** A dirty page left its slot. */
  ghost predicate DirtyLeft(before: Slots, after: Slots) {
    exists q :: before.Resident(q) && !after.Resident(q) && before.Meta(q).dirty
  }

  lemma EvictedLeft(slots: nat, used: nat, used': nat, metadata: seq<Metadata>, table: map<nat, nat>, i: nat, p: nat,
                    m: Metadata)
    requires TableOk(slots, used, metadata, table) && TakesSlot(slots, used, used', i) && p !in table && metadata[i].dirty
    ensures DirtyLeft(Slots(metadata, table), Slots(metadata[i := m], Dropped(table, metadata[i])[p := i]))
  {
    var before, after := Slots(metadata, table), Slots(metadata[i := m], Dropped(table, metadata[i])[p := i]);
    var q: nat := metadata[i].fileIndex;
    assert before.Resident(q) && !after.Resident(q);
  }

  lemma NothingHappened(file: map<nat, Page>, pages: seq<Page>, slots: Slots, unflushed: seq<Record>, p: nat)
    ensures KeepsOthers(slots, slots, p) && WritesBackSafely(file, pages, slots, file, slots, unflushed)
  {
  }

  /** Modifying the page in a slot and marking the slot dirty shows through at that page only. */
  lemma UpdateShows(file: map<nat, Page>, pages: seq<Page>, slots: nat, used: nat, metadata: seq<Metadata>,
                    table: map<nat, nat>, p: nat, m: Metadata, page: Page)
    requires TableOk(slots, used, metadata, table) && |pages| == slots && p in table
    requires CleanOk(file, pages, metadata, table) && m.dirty
    ensures table[p] < used
    ensures CleanOk(file, pages[table[p] := page], metadata[table[p] := m], table)
    ensures forall q :: Shown(file, pages[table[p] := page], table, q)
                     == if q == p then page else Shown(file, pages, table, q)
  {
    assert forall q :: q in table && q != p ==> metadata[table[q]].fileIndex != metadata[table[p]].fileIndex;
    var pages' := pages[table[p] := page];
    assert forall k :: 0 <= k < slots && k != table[p] ==> pages'[k] == pages[k];
    forall q ensures Shown(file, pages', table, q) == if q == p then page else Shown(file, pages, table, q) {
    }
  }

  /** Writing a slot to the file makes it clean and shows nothing new. */
  lemma CleaningIsTransparent(file: map<nat, Page>, pages: seq<Page>, slots: nat, used: nat, metadata: seq<Metadata>,
                              table: map<nat, nat>, i: nat)
    requires TableOk(slots, used, metadata, table) && |pages| == slots && i < slots
    requires CleanOk(file, pages, metadata, table) && metadata[i].dirty
    ensures var file' := WrittenBack(file, pages, metadata[i], i);
      var metadata' := metadata[i := metadata[i].(dirty := false)];
      && TableOk(slots, used, metadata', table)
      && CleanOk(file', pages, metadata', table)
      && forall q :: Shown(file', pages, table, q) == Shown(file, pages, table, q)
  {
    SlotInUse(slots, used, metadata, table, i);
    var p: nat := metadata[i].fileIndex;
    UpdateKeepsTable(slots, used, metadata, table, p, metadata[i].(dirty := false));
    var file' := WrittenBack(file, pages, metadata[i], i);
    assert file' == file[p := pages[i]];
    assert forall q :: FilePage(file', q) == if q == p then pages[i] else FilePage(file, q);
  }

  lemma CleanIgnoresPins(file: map<nat, Page>, pages: seq<Page>, metadata: seq<Metadata>, table: map<nat, nat>,
                         i: nat, m: Metadata)
    requires |pages| == |metadata| && i < |metadata| && CleanOk(file, pages, metadata, table)
    requires m.dirty == metadata[i].dirty
    ensures CleanOk(file, pages, metadata[i := m], table)
  {
  }

  lemma SlotInUse(slots: nat, used: nat, metadata: seq<Metadata>, table: map<nat, nat>, i: nat)
    requires TableOk(slots, used, metadata, table) && i < slots && metadata[i] != UNUSED
    ensures i < used && metadata[i].fileIndex >= 0
    ensures metadata[i].fileIndex in table && table[metadata[i].fileIndex] == i
  {
  }

  /** Changing the metadata of page `p` in place evicts nothing. */
  lemma ChangeInPlace(file: map<nat, Page>, pages: seq<Page>, before: Slots, file': map<nat, Page>, mid: Slots,
                      unflushed: seq<Record>, p: nat, m: Metadata)
    requires KeepsOthers(before, mid, p) && WritesBackSafely(file, pages, before, file', mid, unflushed)
    requires mid.Resident(p) && forall q :: mid.Resident(q) && q != p ==> mid.table[q] != mid.table[p]
    ensures var after := Slots(mid.metadata[mid.table[p] := m], mid.table);
      && after.Resident(p) && after.Meta(p) == m
      && KeepsOthers(before, after, p) && WritesBackSafely(file, pages, before, file', after, unflushed)
      && forall q :: after.Resident(q) <==> mid.Resident(q)
  {
    var after := Slots(mid.metadata[mid.table[p] := m], mid.table);
    assert forall q :: after.Resident(q) <==> mid.Resident(q);
    assert forall q :: mid.Resident(q) && q != p ==> after.Meta(q) == mid.Meta(q);
  }

  /** Some slot is free or not pinned. */
  predicate HasRoom(used: nat, slots: nat, metadata: seq<Metadata>) {
    used < slots || exists i :: 0 <= i < |metadata| && metadata[i].refcount == 0
  }

  /** With as many handles on every page as before there is as much room. */
  lemma RoomStays(slots: nat, used: nat, before: Slots, used': nat, after: Slots)
    requires TableOk(slots, used, before.metadata, before.table) && TableOk(slots, used', after.metadata, after.table)
    requires SamePins(before, after)
    ensures HasRoom(used, slots, before.metadata) ==> HasRoom(used', slots, after.metadata)
  {
    if !HasRoom(used', slots, after.metadata) {
      AllPinned(slots, used, before, used', after);
    }
  }

  lemma AllPinned(slots: nat, used: nat, before: Slots, used': nat, after: Slots)
    requires TableOk(slots, used, before.metadata, before.table) && TableOk(slots, used', after.metadata, after.table)
    requires SamePins(before, after) && used' == slots && forall i :: 0 <= i < slots ==> after.metadata[i].refcount > 0
    ensures used == slots && forall k :: 0 <= k < slots ==> before.metadata[k].refcount > 0
  {
    hide SamePins;
    ghost var at := seq(slots, i requires 0 <= i < slots => PinnedBefore(slots, used, before, used', after, i));
    forall i, j | 0 <= i < j < slots ensures at[i] != at[j] {
      assert after.metadata[i].fileIndex != after.metadata[j].fileIndex;
    }
    forall k | 0 <= k < slots ensures k < used && before.metadata[k].refcount > 0 {
      Pigeonhole(at, k);
    }
    assert slots > 0 ==> before.metadata[slots - 1].refcount > 0;
  }

  /** Where a page that is pinned now was before. */
  ghost function PinnedBefore(slots: nat, used: nat, before: Slots, used': nat, after: Slots, i: nat): (j: nat)
    requires TableOk(slots, used, before.metadata, before.table) && TableOk(slots, used', after.metadata, after.table)
    requires SamePins(before, after) && i < used' && after.metadata[i].refcount > 0
    ensures j < used && before.metadata[j].refcount > 0 && before.metadata[j].fileIndex == after.metadata[i].fileIndex
  {
    assert after.Pins(after.metadata[i].fileIndex) == after.metadata[i].refcount;
    before.table[after.metadata[i].fileIndex]
  }

  class Pool {
    const poolSize: nat
    const replacer: DualPriorityReplacer
    const wal: Log?
    var file: map<nat, Page>
    var nextPoolIndex: nat
    var pages: seq<Page>
    var metadata: seq<Metadata>
    var fileToPoolIndex: map<nat, nat>

    ghost predicate Valid()
      reads this, replacer, replacer.Repr, wal
    {
      && |pages| == poolSize
      && TableOk(poolSize, nextPoolIndex, metadata, fileToPoolIndex)
      && CleanOk(file, pages, metadata, fileToPoolIndex)
      && replacer.Valid() && this !in replacer.Repr
      && replacer.members == FreeSlots(nextPoolIndex, metadata)
      && (wal != null ==> wal.Valid() && wal !in replacer.Repr)
    }

    /** The logical contents of file page `p`. */
    function View(p: nat): Page
      reads this
    {
      Shown(file, pages, fileToPoolIndex, p)
    }

    function SlotsOf(): Slots
      reads this
    {
      Slots(metadata, fileToPoolIndex)
    }

    /** Records of the log that are not durable yet. */
    function Unflushed(): seq<Record>
      reads this, wal
      requires wal != null ==> wal.Valid()
    {
      if wal == null then [] else wal.records[wal.unflushed..]
    }

    constructor (poolSize: nat, file: map<nat, Page>, wal: Log?)
      requires wal != null ==> wal.Valid()
      ensures Valid() && fresh(replacer.Repr) && this.wal == wal && this.file == file && this.poolSize == poolSize
      ensures nextPoolIndex == 0 && fileToPoolIndex == map[]
    {
      this.poolSize := poolSize;
      this.wal := wal;
      this.file := file;
      nextPoolIndex := 0;
      pages := seq(poolSize, _ => ZERO_PAGE);
      metadata := seq(poolSize, _ => UNUSED);
      fileToPoolIndex := map[];
      replacer := new DualPriorityReplacer();
    }

    lemma TableBounds()
      requires Valid()
      ensures |metadata| == poolSize >= nextPoolIndex
      ensures forall q :: q in fileToPoolIndex ==> SlotsOf().Resident(q)
    {
    }

    /** Takes a slot for a page that is not resident: a free one, or the one the replacer gives up;
        -1 when every slot is pinned. */
    method TakeSlot() returns (index: int)
      requires Valid()
      modifies this`nextPoolIndex, replacer.Repr
      ensures replacer.Valid() && fresh(replacer.Repr - old(replacer.Repr))
      ensures replacer.members == FreeSlots(old(nextPoolIndex), metadata) - {index}
      ensures index == -1 <==> old(nextPoolIndex == poolSize && forall i :: 0 <= i < |metadata| ==> metadata[i].refcount > 0)
      ensures index == -1 ==> nextPoolIndex == old(nextPoolIndex)
      ensures index != -1 ==> 0 <= index < |metadata| && TakesSlot(poolSize, old(nextPoolIndex), nextPoolIndex, index)
      ensures index != -1 ==> metadata[index].refcount == 0
      ensures if old(nextPoolIndex) < poolSize then index == old(nextPoolIndex) && replacer.Order() == old(replacer.Order())
              else if index == -1 then replacer.Order() == old(replacer.Order())
              else GivesUp(old(replacer.Order()), replacer.Order(), index)
    {
      hide FreeSlots, TableOk, CleanOk, Log.Valid;
      TableBounds();
      FreeSlotsBounds(nextPoolIndex, metadata);
      if nextPoolIndex < poolSize {
        index := nextPoolIndex;
        nextPoolIndex := nextPoolIndex + 1;
        assert metadata[index].refcount == 0 by { UnusedSlot(index); }
      } else {
        index := replacer.Evict();
      }
    }

    lemma UnusedSlot(index: nat)
      requires TableOk(poolSize, index, metadata, fileToPoolIndex) && index < poolSize
      ensures metadata[index].refcount == 0
    {
    }

    /** The log keeps its records; they may have become durable. */
    twostate predicate LogOnlyFlushes()
      reads wal
    {
      wal != null ==>
        && wal.records == old(wal.records) && wal.nextLsn == old(wal.nextLsn) && wal.first == old(wal.first)
        && (wal.unflushed == |wal.records| || wal.unflushed == old(wal.unflushed))
    }

    /** The log file is as it was. */
    twostate predicate LogUntouched()
      reads wal
    {
      wal != null ==> wal.unflushed == old(wal.unflushed) && wal.file == old(wal.file)
    }

    /** Neither the pool's slots nor the files have changed. */
    twostate predicate Untouched()
      reads this, wal
    {
      && file == old(file) && pages == old(pages) && SlotsOf() == old(SlotsOf())
      && (wal != null ==> wal.unflushed == old(wal.unflushed))
    }

    method Pin(fileIndex: nat, adviseEviction: bool) returns (index: nat)
      requires Valid() && SlotsOf().Resident(fileIndex)
      modifies this`metadata, replacer.Repr
      ensures Valid() && fresh(replacer.Repr - old(replacer.Repr))
      ensures index == fileToPoolIndex[fileIndex] && index < |metadata|
      ensures metadata == old(metadata)[index := metadata[index]]
      ensures SlotsOf().Meta(fileIndex) == old(SlotsOf().Meta(fileIndex)).(refcount := old(SlotsOf().Meta(fileIndex)).refcount + 1,
                                                       adviseEviction := old(SlotsOf().Meta(fileIndex)).adviseEviction && adviseEviction)
      ensures KeepsOthers(old(SlotsOf()), SlotsOf(), fileIndex)
      ensures PinsMoved(old(SlotsOf()), SlotsOf(), fileIndex, 1)
      ensures replacer.Order().important == Without(old(replacer.Order()).important, index)
      ensures replacer.Order().unimportant == Without(old(replacer.Order()).unimportant, index)
    {
      hide TableOk, CleanOk, FreeSlots, KeepsOthers, Log.Valid, Without, DualPriorityReplacer.Valid, PinsMoved;
      index := fileToPoolIndex[fileIndex];
      var m := metadata[index];
      var m' := m.(refcount := m.refcount + 1, adviseEviction := m.adviseEviction && adviseEviction);
      UpdateKeepsTable(poolSize, nextPoolIndex, metadata, fileToPoolIndex, fileIndex, m');
      ChangePins(poolSize, nextPoolIndex, metadata, fileToPoolIndex, fileIndex, m');
      CleanIgnoresPins(file, pages, metadata, fileToPoolIndex, index, m');
      FreeSlotsUpdate(nextPoolIndex, metadata, index, m');
      var _ := replacer.Remove(index);
      metadata := metadata[index := m'];
    }

    /** Loads a page into a slot taken for it, writing back what was there. */
    method Load(index: nat, ghost used: nat, fileIndex: nat, adviseEviction: bool)
      requires |pages| == |metadata| == poolSize && TableOk(poolSize, used, metadata, fileToPoolIndex)
      requires CleanOk(file, pages, metadata, fileToPoolIndex)
      requires TakesSlot(poolSize, used, nextPoolIndex, index) && fileIndex !in fileToPoolIndex && index < |metadata|
      requires metadata[index].refcount == 0
      requires wal != null ==> wal.Valid()
      modifies this`file, this`pages, this`metadata, this`fileToPoolIndex, wal
      ensures |pages| == |metadata| == poolSize && TableOk(poolSize, nextPoolIndex, metadata, fileToPoolIndex)
      ensures CleanOk(file, pages, metadata, fileToPoolIndex)
      ensures metadata == old(metadata)[index := Metadata(fileIndex, 0, 1, false, adviseEviction)]
      ensures fileToPoolIndex == Dropped(old(fileToPoolIndex), old(metadata)[index])[fileIndex := index]
      ensures forall q :: View(q) == old(View(q))
      ensures KeepsOthers(old(SlotsOf()), SlotsOf(), fileIndex) && LogOnlyFlushes()
      ensures PinsMoved(old(SlotsOf()), SlotsOf(), fileIndex, 1)
      ensures LogUntouched() || DirtyLeft(old(SlotsOf()), SlotsOf())
      ensures wal != null ==> wal.Valid()
      ensures WritesBackSafely(old(file), old(pages), old(SlotsOf()), file, SlotsOf(), Unflushed())
    {
      hide TableOk, CleanOk, Shown, KeepsOthers, EvictsSafely, WritesBackEvicted, Log.Valid, PinsMoved, DirtyLeft;
      var evicted := metadata[index];
      ghost var before := SlotsOf();
      var m := Metadata(fileIndex, 0, 1, false, adviseEviction);
      LoadKeepsOthers(poolSize, used, nextPoolIndex, metadata, fileToPoolIndex, index, fileIndex, m);
      LoadPins(poolSize, used, nextPoolIndex, metadata, fileToPoolIndex, index, fileIndex, m);
      LoadKeepsTable(poolSize, used, nextPoolIndex, metadata, fileToPoolIndex, index, m, fileIndex);
      LoadIsTransparent(file, pages, poolSize, used, nextPoolIndex, metadata, fileToPoolIndex, index, fileIndex, m);
      fileToPoolIndex := Dropped(fileToPoolIndex, evicted)[fileIndex := index];
      metadata := metadata[index := m];
      if evicted.dirty {
        EvictedLeft(poolSize, used, nextPoolIndex, before.metadata, before.table, index, fileIndex, m);
        if wal != null {
          wal.FlushUpTo(evicted.pageLsn);
        }
        file := WrittenBack(file, pages, evicted, index);
      }
      pages := pages[index := FilePage(file, fileIndex)];
      UnflushedBound();
      LoadEvictsSafely(poolSize, used, nextPoolIndex, before.metadata, before.table, index, fileIndex, m, Unflushed());
    }

    lemma UnflushedBound()
      requires wal != null ==> wal.Valid()
      ensures wal != null ==> wal.unflushed <= |wal.records|
    {
    }

    /** Pins a file page, reading it in and evicting another if needed. */
    method Retain(fileIndex: nat, adviseEviction: bool) returns (r: Retained)
      requires Valid()
      modifies this, replacer.Repr, wal
      ensures Valid() && fresh(replacer.Repr - old(replacer.Repr))
      ensures r.Full? <==> old(fileIndex !in fileToPoolIndex && nextPoolIndex == poolSize
                               && forall i :: 0 <= i < |metadata| ==> metadata[i].refcount > 0)
      ensures forall q :: View(q) == old(View(q))
      ensures KeepsOthers(old(SlotsOf()), SlotsOf(), fileIndex) && LogOnlyFlushes()
      ensures WritesBackSafely(old(file), old(pages), old(SlotsOf()), file, SlotsOf(), Unflushed())
      ensures if old(SlotsOf().Resident(fileIndex)) then
                r.Slot? && replacer.Order() == Lists(Without(old(replacer.Order()).important, r.index),
                                                     Without(old(replacer.Order()).unimportant, r.index))
              else if old(nextPoolIndex) < poolSize then
                r == Slot(old(nextPoolIndex)) && replacer.Order() == old(replacer.Order())
              else if r.Full? then replacer.Order() == old(replacer.Order())
              else GivesUp(old(replacer.Order()), replacer.Order(), r.index)
      ensures LogUntouched() || DirtyLeft(old(SlotsOf()), SlotsOf())
      ensures r.Full? ==> Untouched()
      ensures r.Slot? ==> PinsMoved(old(SlotsOf()), SlotsOf(), fileIndex, 1)
      ensures r.Slot? ==>
        && SlotsOf().Resident(fileIndex) && fileToPoolIndex[fileIndex] == r.index
        && (if old(SlotsOf().Resident(fileIndex)) then
              fileToPoolIndex == old(fileToPoolIndex) && nextPoolIndex == old(nextPoolIndex)
              && metadata == old(metadata)[r.index := SlotsOf().Meta(fileIndex)]
              && SlotsOf().Meta(fileIndex) == old(SlotsOf().Meta(fileIndex)).(refcount := old(SlotsOf().Meta(fileIndex)).refcount + 1,
                                                          adviseEviction := old(SlotsOf().Meta(fileIndex)).adviseEviction && adviseEviction)
            else SlotsOf().Meta(fileIndex) == Metadata(fileIndex, 0, 1, false, adviseEviction))
    {
      if fileIndex in fileToPoolIndex {
        var index := Pin(fileIndex, adviseEviction);
        return Slot(index);
      }
      var index := Fetch(fileIndex, adviseEviction);
      return if index == -1 then Full else Slot(index);
    }

    method Fetch(fileIndex: nat, adviseEviction: bool) returns (index: int)
      requires Valid() && fileIndex !in fileToPoolIndex
      modifies this, replacer.Repr, wal
      ensures Valid() && fresh(replacer.Repr - old(replacer.Repr))
      ensures index == -1 <==> old(nextPoolIndex == poolSize && forall i :: 0 <= i < |metadata| ==> metadata[i].refcount > 0)
      ensures forall q :: View(q) == old(View(q))
      ensures KeepsOthers(old(SlotsOf()), SlotsOf(), fileIndex) && LogOnlyFlushes()
      ensures WritesBackSafely(old(file), old(pages), old(SlotsOf()), file, SlotsOf(), Unflushed())
      ensures if old(nextPoolIndex) < poolSize then index == old(nextPoolIndex) && replacer.Order() == old(replacer.Order())
              else if index == -1 then replacer.Order() == old(replacer.Order())
              else GivesUp(old(replacer.Order()), replacer.Order(), index)
      ensures LogUntouched() || DirtyLeft(old(SlotsOf()), SlotsOf())
      ensures index == -1 ==> Untouched()
      ensures index != -1 ==> PinsMoved(old(SlotsOf()), SlotsOf(), fileIndex, 1)
      ensures index != -1 ==>
        && 0 <= index && SlotsOf().Resident(fileIndex) && fileToPoolIndex[fileIndex] == index
        && SlotsOf().Meta(fileIndex) == Metadata(fileIndex, 0, 1, false, adviseEviction)
    {
      hide CleanOk, Shown, TableOk, KeepsOthers, WritesBackSafely, FreeSlots, Log.Valid, DualPriorityReplacer.Valid, PinsMoved, DirtyLeft;
      ghost var used := nextPoolIndex;
      TableBounds();
      FreeSlotsBounds(nextPoolIndex, metadata);
      index := TakeSlot();
      if index == -1 {
        NothingHappened(file, pages, SlotsOf(), Unflushed(), fileIndex);
        return;
      }
      FreeSlotsLoad(poolSize, used, nextPoolIndex, metadata, index, Metadata(fileIndex, 0, 1, false, adviseEviction));
      Load(index, used, fileIndex, adviseEviction);
    }

    /** Registers a slot that the replacer does not have. */
    method InsertNew(index: int, adviseEviction: bool)
      requires replacer.Valid() && index !in replacer.members
      modifies replacer.Repr
      ensures replacer.Valid() && fresh(replacer.Repr - old(replacer.Repr)) && replacer.members == old(replacer.members) + {index}
      ensures var before := old(replacer.Order());
        replacer.Order() == if adviseEviction then Lists(before.important, [index] + before.unimportant)
                            else Lists([index] + before.important, before.unimportant)
    {
      hide Without, Inserted;
      ghost var before := replacer.Order();
      InsertedAbsent(before.important, index);
      InsertedAbsent(before.unimportant, index);
      replacer.Insert(index, adviseEviction);
    }

    /** Gives up one pin; false stands for the exception when there is none. */
    method Release(index: nat) returns (ok: bool)
      requires Valid() && index < poolSize
      modifies this`metadata, replacer.Repr
      ensures Valid() && fresh(replacer.Repr - old(replacer.Repr))
      ensures ok <==> old(metadata)[index].refcount > 0
      ensures metadata == if ok then old(metadata)[index := old(metadata)[index].(refcount := old(metadata)[index].refcount - 1)]
                          else old(metadata)
      ensures var before := old(replacer.Order());
        replacer.Order() == if !ok || old(metadata)[index].refcount > 1 then before
                            else if old(metadata)[index].adviseEviction then Lists(before.important, [index] + before.unimportant)
                            else Lists([index] + before.important, before.unimportant)
    {
      hide FreeSlots, Log.Valid, TableOk, KeepsOthers, Without, Inserted, CleanOk, DualPriorityReplacer.Valid;
      TableBounds();
      var m := metadata[index];
      if m.refcount == 0 {
        return false;
      }
      SlotInUse(poolSize, nextPoolIndex, metadata, fileToPoolIndex, index);
      UpdateKeepsTable(poolSize, nextPoolIndex, metadata, fileToPoolIndex, m.fileIndex, m.(refcount := m.refcount - 1));
      CleanIgnoresPins(file, pages, metadata, fileToPoolIndex, index, m.(refcount := m.refcount - 1));
      FreeSlotsUpdate(nextPoolIndex, metadata, index, m.(refcount := m.refcount - 1));
      metadata := metadata[index := m.(refcount := m.refcount - 1)];
      if m.refcount == 1 {
        InsertNew(index, m.adviseEviction);
      }
      return true;
    }

    /** Writes bytes through a handle on page `p` and notes the log record that did it. */
    method Update(p: nat, offset: nat, data: seq<Byte>, lsn: nat)
      requires Valid() && SlotsOf().Resident(p) && offset + |data| <= PAGE_SIZE
      modifies this`pages, this`metadata
      ensures Valid()
      ensures metadata == old(metadata)[fileToPoolIndex[p] := old(SlotsOf().Meta(p)).(
                            dirty := true, pageLsn := Max(lsn, old(SlotsOf().Meta(p)).pageLsn))]
      ensures forall q :: View(q) == if q == p then Splice(old(View(p)), offset, data) else old(View(q))
    {
      hide Log.Valid, FreeSlots, TableOk, CleanOk;
      var index := fileToPoolIndex[p];
      var m := metadata[index];
      var m' := m.(dirty := true, pageLsn := Max(lsn, m.pageLsn));
      UpdateKeepsTable(poolSize, nextPoolIndex, metadata, fileToPoolIndex, p, m');
      UpdateShows(file, pages, poolSize, nextPoolIndex, metadata, fileToPoolIndex, p, m', Splice(pages[index], offset, data));
      FreeSlotsUpdate(nextPoolIndex, metadata, index, m');
      pages := pages[index := Splice(pages[index], offset, data)];
      metadata := metadata[index := m'];
    }

    /** Some slot is free or not pinned. */
    predicate Room()
      reads this
    {
      HasRoom(nextPoolIndex, poolSize, metadata)
    }

    lemma SlotsAreInjective(p: nat)
      requires Valid() && SlotsOf().Resident(p)
      ensures forall q :: SlotsOf().Resident(q) && q != p ==> fileToPoolIndex[q] != fileToPoolIndex[p]
      ensures fileToPoolIndex[p] < poolSize == |metadata|
    {
      assert forall q :: SlotsOf().Resident(q) ==> metadata[fileToPoolIndex[q]].fileIndex == q;
    }

    /** Writes bytes of page `p` under a handle of its own. */
    method Modify(p: nat, offset: nat, data: seq<Byte>, lsn: nat)
      requires Valid() && (SlotsOf().Resident(p) || Room()) && offset + |data| <= PAGE_SIZE
      modifies this, replacer.Repr, wal
      ensures Valid() && fresh(replacer.Repr - old(replacer.Repr))
      ensures forall q :: View(q) == if q == p then Splice(old(View(p)), offset, data) else old(View(q))
      ensures SlotsOf().Resident(p) && SlotsOf().Meta(p).dirty && SlotsOf().Meta(p).pageLsn >= lsn
      ensures !SlotsOf().Meta(p).adviseEviction
      ensures old(SlotsOf().Resident(p)) ==>
                fileToPoolIndex[p] == old(fileToPoolIndex[p])
                && SlotsOf().Meta(p).refcount == old(SlotsOf().Meta(p)).refcount
                && SlotsOf().Meta(p).pageLsn == Max(lsn, old(SlotsOf().Meta(p)).pageLsn)
                && fileToPoolIndex == old(fileToPoolIndex) && nextPoolIndex == old(nextPoolIndex)
                && metadata == old(metadata)[fileToPoolIndex[p] := SlotsOf().Meta(p)]
      ensures !old(SlotsOf().Resident(p)) ==> SlotsOf().Meta(p).refcount == 0 && SlotsOf().Meta(p).pageLsn == lsn
      ensures SamePins(old(SlotsOf()), SlotsOf()) && (old(Room()) ==> Room())
      ensures KeepsOthers(old(SlotsOf()), SlotsOf(), p) && LogOnlyFlushes()
      ensures WritesBackSafely(old(file), old(pages), old(SlotsOf()), file, SlotsOf(), Unflushed())
    {
      hide Log.Valid, Shown, KeepsOthers, WritesBackSafely, FreeSlots, TableOk, CleanOk, HasRoom, Pool.Untouched, PinsMoved,
           SamePins, DualPriorityReplacer.Valid;
      ghost var before, oldFile, oldPages, used := SlotsOf(), file, pages, nextPoolIndex;
      RoomMeansNotFull(p);
      var _ := Retain(p, false);
      ghost var mid := SlotsOf();
      SlotsAreInjective(p);
      UpdateAndRelease(p, offset, data, lsn);
      ChangeInPlace(oldFile, oldPages, before, file, mid, Unflushed(), p, SlotsOf().Meta(p));
      PinsBack(before, mid, SlotsOf(), p);
      RoomStays(poolSize, used, before, nextPoolIndex, SlotsOf());
    }

    /** With as many handles on every page as before, there is room exactly when there was. */
    twostate lemma RoomUnmoved()
      requires old(Valid()) && Valid() && SamePins(old(SlotsOf()), SlotsOf())
      ensures Room() <==> old(Room())
    {
      hide TableOk, SamePins, HasRoom, CleanOk, FreeSlots, DualPriorityReplacer.Valid, Log.Valid;
      RoomStays(poolSize, old(nextPoolIndex), old(SlotsOf()), nextPoolIndex, SlotsOf());
      SamePinsBack(old(SlotsOf()), SlotsOf());
      RoomStays(poolSize, nextPoolIndex, SlotsOf(), old(nextPoolIndex), old(SlotsOf()));
    }

    method UpdateAndRelease(p: nat, offset: nat, data: seq<Byte>, lsn: nat)
      requires Valid() && SlotsOf().Resident(p) && SlotsOf().Meta(p).refcount > 0 && offset + |data| <= PAGE_SIZE
      modifies this`pages, this`metadata, replacer.Repr
      ensures Valid() && fresh(replacer.Repr - old(replacer.Repr))
      ensures metadata == old(metadata)[fileToPoolIndex[p] := old(SlotsOf().Meta(p)).(
                            dirty := true, pageLsn := Max(lsn, old(SlotsOf().Meta(p)).pageLsn),
                            refcount := old(SlotsOf().Meta(p)).refcount - 1)]
      ensures PinsMoved(old(SlotsOf()), SlotsOf(), p, -1)
      ensures forall q :: View(q) == if q == p then Splice(old(View(p)), offset, data) else old(View(q))
    {
      hide Log.Valid, Shown, FreeSlots, TableOk, CleanOk, PinsMoved, DualPriorityReplacer.Valid, DualPriorityReplacer.Order, Splice;
      SlotsAreInjective(p);
      ChangePins(poolSize, nextPoolIndex, metadata, fileToPoolIndex, p, SlotsOf().Meta(p).(
                   dirty := true, pageLsn := Max(lsn, SlotsOf().Meta(p).pageLsn), refcount := SlotsOf().Meta(p).refcount - 1));
      ghost var view := View(p);
      Update(p, offset, data, lsn);
      assert View(p) == Splice(view, offset, data);
      ghost var updated := metadata;
      var _ := Release(fileToPoolIndex[p]);
      assert metadata == updated[fileToPoolIndex[p] := metadata[fileToPoolIndex[p]]];
    }

    lemma RoomMeansNotFull(p: nat)
      requires Valid()
      ensures SlotsOf().Resident(p) || Room()
         <==> !(p !in fileToPoolIndex && nextPoolIndex == poolSize && forall i :: 0 <= i < |metadata| ==> metadata[i].refcount > 0)
    {
    }

    method FlushAll()
      requires Valid()
      modifies this`file, this`metadata
      ensures Valid()
      ensures forall q :: View(q) == old(View(q)) == FilePage(file, q)
      ensures |metadata| == |old(metadata)|
      ensures forall i :: 0 <= i < |metadata| ==> metadata[i] == old(metadata)[i].(dirty := false)
    {
      hide Log.Valid, FreeSlots, TableOk, CleanOk, Shown, WrittenBack, DualPriorityReplacer.Valid;
      TableBounds();
      for i := 0 to poolSize
        invariant |pages| == poolSize && TableOk(poolSize, nextPoolIndex, metadata, fileToPoolIndex)
        invariant |metadata| == poolSize && CleanOk(file, pages, metadata, fileToPoolIndex)
        invariant replacer.members == FreeSlots(nextPoolIndex, metadata)
        invariant forall q :: View(q) == old(View(q))
        invariant forall j :: 0 <= j < poolSize ==>
                    metadata[j] == if j < i then old(metadata)[j].(dirty := false) else old(metadata)[j]
      {
        if metadata[i].dirty {
          CleaningIsTransparent(file, pages, poolSize, nextPoolIndex, metadata, fileToPoolIndex, i);
          SlotInUse(poolSize, nextPoolIndex, metadata, fileToPoolIndex, i);
          FreeSlotsUpdate(nextPoolIndex, metadata, i, metadata[i].(dirty := false));
          file := WrittenBack(file, pages, metadata[i], i);
          metadata := metadata[i := metadata[i].(dirty := false)];
        }
      }
      AllClean(file, pages, poolSize, nextPoolIndex, metadata, fileToPoolIndex);
    }
  }

  lemma AllClean(file: map<nat, Page>, pages: seq<Page>, slots: nat, used: nat, metadata: seq<Metadata>,
                 table: map<nat, nat>)
    requires TableOk(slots, used, metadata, table) && |pages| == slots && CleanOk(file, pages, metadata, table)
    requires forall i :: 0 <= i < slots ==> !metadata[i].dirty
    ensures forall q :: Shown(file, pages, table, q) == FilePage(file, q)
  {
  }
}
