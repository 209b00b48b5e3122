/** Allocating and freeing regions of pages. The free list of each order is a stack that spreads
    over linked pages, which come out of the very pool it manages. */
module SpaceManager {
  import opened Bytes
  import opened Basics
  import opened BufferPool
  import opened Pages
  import opened Ownership

  const FPL_PAGE_CAPACITY: nat := PAGE_SIZE / 8 - 2
  /** Sizes of regions are computed as `1 << order` in an `int` of 32 bits. */
  const MAX_SHIFT: nat := 30

  // Fields of the meta page, page 0.
  const NEXT_FREE_PAGE: nat := 16

  function LastFplPage(order: nat): nat {
    24 + 8 * order
  }

  function LastFplPageEntries(order: nat): nat {
    336 + 4 * order
  }

  // Fields of a list page.
  const PREVIOUS: nat := 0
  const NEXT: nat := 8

  function Entry(i: nat): nat {
    16 + 8 * i
  }

  /** The fields lie side by side, and a list page is full when its entries end where the page does. */
  lemma PageLayouts()
    ensures LastFplPage(0) == NEXT_FREE_PAGE + 8 && LastFplPageEntries(0) == LastFplPage(ORDERS)
    ensures LastFplPageEntries(ORDERS) <= PAGE_SIZE
    ensures Entry(0) == NEXT + 8 && NEXT == PREVIOUS + 8 && Entry(FPL_PAGE_CAPACITY) == PAGE_SIZE
    ensures Pow2(MAX_SHIFT) < 0x8000_0000 == Pow2(MAX_SHIFT + 1)
  {
    assert Pow2(8) == 256;
    assert Pow2(16) == 256 * Pow2(8);
    assert Pow2(24) == 256 * Pow2(16);
    assert Pow2(30) == 64 * Pow2(24);
  }

  /** The first `n` entries of a list page. */
  function Entries(store: Store, page: nat, n: nat): (s: seq<nat>)
    requires n <= FPL_PAGE_CAPACITY
    ensures |s| == n
  {
    seq(n, i requires 0 <= i < n => Field(store, page, Entry(i), 8))
  }

  /** The entries of the first `n` list pages, all full. */
  function FullEntries(store: Store, chain: seq<nat>, n: nat): seq<nat>
    requires n <= |chain|
  {
    if n == 0 then [] else FullEntries(store, chain, n - 1) + Entries(store, chain[n - 1], FPL_PAGE_CAPACITY)
  }

  /** The list pages of one order, and which of them is the current one. */
  datatype Chain = Chain(pages: seq<nat>, at: nat)

  function Count(store: Store, order: nat): nat
    requires order < ORDERS
  {
    Field(store, 0, LastFplPageEntries(order), 4)
  }

  ghost predicate Linked(store: Store, pages: seq<nat>) {
    forall i :: 0 <= i < |pages| ==> LinksTo(store, pages, i)
  }

  predicate LinksTo(store: Store, pages: seq<nat>, i: nat)
    requires i < |pages|
  {
    && Field(store, pages[i], PREVIOUS, 8) == (if i == 0 then 0 else pages[i - 1])
    && Field(store, pages[i], NEXT, 8) == (if i + 1 < |pages| then pages[i + 1] else 0)
  }

  /** The list pages and the meta page together represent the stack `free`. The count is zero only
      on the first page; pages after the current one are linked but unused. */
  ghost predicate Represents(store: Store, order: nat, chain: Chain, free: seq<nat>)
    requires order < ORDERS
  {
    && chain.at < |chain.pages| && chain.pages[0] == order + 2 && Distinct(chain.pages)
    && Linked(store, chain.pages)
    && Field(store, 0, LastFplPage(order), 8) == chain.pages[chain.at]
    && Count(store, order) <= FPL_PAGE_CAPACITY
    && (Count(store, order) == 0 ==> chain.at == 0)
    && free == FullEntries(store, chain.pages, chain.at) + Entries(store, chain.pages[chain.at], Count(store, order))
  }

  datatype View = View(chains: seq<Chain>, alloc: Allocator)

  /** The meta page and the list pages represent an allocator that partitions the file, and the
      unused end of the file is zero. */
  ghost predicate SpaceOk(store: Store, v: View) {
    && |v.chains| == ORDERS
    && Partition(v.alloc)
    && Field(store, 0, NEXT_FREE_PAGE, 8) == v.alloc.next
    && (forall o :: 0 <= o < ORDERS ==> Represents(store, o, v.chains[o], v.alloc.free[o]))
    && (forall o :: 0 <= o < ORDERS ==> v.alloc.lists[o] == v.chains[o].pages[1..])
    && (forall p :: p >= v.alloc.next ==> FilePage(store, p) == ZERO_PAGE)
  }

  // ---- where the list pages are, and are not ----

  lemma ListPageOwner(v: View, o: nat, i: nat)
    requires |v.chains| == ORDERS && Partition(v.alloc) && o < ORDERS && i < |v.chains[o].pages|
    requires v.chains[o].pages[0] == o + 2 && v.alloc.lists[o] == v.chains[o].pages[1..]
    ensures var p := v.chains[o].pages[i];
      if i == 0 then p == o + 2 < FIRST_PAGE
      else p >= FIRST_PAGE && p in v.alloc.own && v.alloc.own[p] == List(o)
  {
    if i > 0 {
      assert v.alloc.lists[o][i - 1] == v.chains[o].pages[i];
    }
  }

  /** Neither the pages of another order's list, nor pages owned by regions, nor unused pages are
      list pages of order `o`. */
  lemma NotAListPage(store: Store, v: View, o: nat, p: nat)
    requires SpaceOk(store, v) && o < ORDERS
    requires p == 0 || p >= v.alloc.next || (p in v.alloc.own && v.alloc.own[p] != List(o))
             || (exists o' :: 0 <= o' < ORDERS && o' != o && p in v.chains[o'].pages)
    ensures p !in v.chains[o].pages
  {
    hide LiveOk, FreeOk, Linked, FullEntries, Entries;
    forall i | 0 <= i < |v.chains[o].pages| ensures v.chains[o].pages[i] != p {
      ListPageOwner(v, o, i);
      if o' :| 0 <= o' < ORDERS && o' != o && p in v.chains[o'].pages {
        var i' :| 0 <= i' < |v.chains[o'].pages| && v.chains[o'].pages[i'] == p;
        ListPageOwner(v, o', i');
      }
    }
  }

  // ---- what the representation depends on ----

  lemma {:induction false} FullEntriesSame(store: Store, store': Store, chain: seq<nat>, n: nat)
    requires n <= |chain| && forall i :: 0 <= i < n ==> FilePage(store', chain[i]) == FilePage(store, chain[i])
    ensures FullEntries(store', chain, n) == FullEntries(store, chain, n)
  {
    if n == 0 {
    } else {
      FullEntriesSame(store, store', chain, n - 1);
      assert Entries(store', chain[n - 1], FPL_PAGE_CAPACITY) == Entries(store, chain[n - 1], FPL_PAGE_CAPACITY);
    }
  }

  lemma SameFields(store: Store, store': Store, page: nat)
    requires FilePage(store', page) == FilePage(store, page)
    ensures forall offset: nat, width: nat :: offset + width <= PAGE_SIZE ==>
              Field(store', page, offset, width) == Field(store, page, offset, width)
  {
  }

  lemma LinkedSame(store: Store, store': Store, pages: seq<nat>)
    requires Linked(store, pages)
    requires forall i :: 0 <= i < |pages| ==> FilePage(store', pages[i]) == FilePage(store, pages[i])
    ensures Linked(store', pages)
  {
    hide FilePage;
    forall i | 0 <= i < |pages| ensures LinksTo(store', pages, i) {
      assert LinksTo(store, pages, i);
      SameFields(store, store', pages[i]);
    }
  }

  /** Changes elsewhere do not matter. */
  lemma RepresentsSame(store: Store, store': Store, order: nat, chain: Chain, free: seq<nat>)
    requires order < ORDERS && Represents(store, order, chain, free)
    requires forall i :: 0 <= i < |chain.pages| ==> FilePage(store', chain.pages[i]) == FilePage(store, chain.pages[i])
    requires Field(store', 0, LastFplPage(order), 8) == Field(store, 0, LastFplPage(order), 8)
    requires Count(store', order) == Count(store, order)
    ensures Represents(store', order, chain, free)
  {
    hide Distinct, Linked, Field, FilePage;
    LinkedSame(store, store', chain.pages);
    FullEntriesSame(store, store', chain.pages, chain.at);
    SameFields(store, store', chain.pages[chain.at]);
    assert Entries(store', chain.pages[chain.at], Count(store', order)) == Entries(store, chain.pages[chain.at], Count(store, order));
  }

  /** The meta fields of the other orders, and the end of the used pages. */
  ghost predicate OtherMetaSame(store: Store, store': Store, order: int) {
    forall o :: 0 <= o < ORDERS && o != order ==>
      Field(store', 0, LastFplPage(o), 8) == Field(store, 0, LastFplPage(o), 8) && Count(store', o) == Count(store, o)
  }

  lemma MetaWrite(store: Store, order: nat, offset: nat, width: nat, value: nat)
    requires (order < ORDERS && ((offset == LastFplPage(order) && width == 8) || (offset == LastFplPageEntries(order) && width == 4)))
             || (offset == NEXT_FREE_PAGE && width == 8)
    requires value < Pow256(width) && offset + width <= PAGE_SIZE
    ensures var store' := WithField(store, 0, offset, width, value);
      && Field(store', 0, offset, width) == value
      && OtherMetaSame(store, store', if offset == NEXT_FREE_PAGE then -1 else order)
      && (offset != NEXT_FREE_PAGE ==> Field(store', 0, NEXT_FREE_PAGE, 8) == Field(store, 0, NEXT_FREE_PAGE, 8))
      && (order < ORDERS && offset != LastFplPage(order) ==> Field(store', 0, LastFplPage(order), 8) == Field(store, 0, LastFplPage(order), 8))
      && (order < ORDERS && offset != LastFplPageEntries(order) ==> Count(store', order) == Count(store, order))
      && (forall p :: p != 0 ==> FilePage(store', p) == FilePage(store, p))
  {
    hide Field, FilePage, LittleEndian, Pow256;
    FieldOfWritten(store, 0, offset, width, value);
    var data := LittleEndian(value, width);
    WrittenElsewhere(store, 0, offset, width, value);
    assert forall o :: 0 <= o < ORDERS ==> LastFplPage(o) + 8 <= 336 <= LastFplPageEntries(o) && LastFplPage(o) >= 24;
  }

  /** Writing a field leaves every field it does not overlap, and every other page. */
  lemma WrittenElsewhere(store: Store, page: nat, offset: nat, width: nat, value: nat)
    requires offset + width <= PAGE_SIZE
    ensures var store' := WithField(store, page, offset, width, value);
      && (forall p, o: nat, w: nat :: o + w <= PAGE_SIZE && (p != page || o + w <= offset || offset + width <= o) ==>
            Field(store', p, o, w) == Field(store, p, o, w))
      && (forall p :: p != page ==> FilePage(store', p) == FilePage(store, p))
  {
    var store' := WithField(store, page, offset, width, value);
    forall p, o: nat, w: nat | o + w <= PAGE_SIZE && (p != page || o + w <= offset || offset + width <= o)
      ensures Field(store', p, o, w) == Field(store, p, o, w)
    {
      FieldElsewhere(store, page, offset, LittleEndian(value, width), p, o, w);
    }
  }

  /** The other orders are represented as before when their list pages and meta fields are. */
  lemma OthersRepresented(store: Store, store': Store, v: View, order: int)
    requires SpaceOk(store, v) && OtherMetaSame(store, store', order)
    requires forall o, i :: 0 <= o < ORDERS && o != order && 0 <= i < |v.chains[o].pages| ==>
               FilePage(store', v.chains[o].pages[i]) == FilePage(store, v.chains[o].pages[i])
    ensures forall o :: 0 <= o < ORDERS && o != order ==> Represents(store', o, v.chains[o], v.alloc.free[o])
  {
    hide Represents, Field, FilePage, Count, LiveOk, FreeOk, ListsOk;
    forall o | 0 <= o < ORDERS && o != order ensures Represents(store', o, v.chains[o], v.alloc.free[o]) {
      RepresentsSame(store, store', o, v.chains[o], v.alloc.free[o]);
    }
  }

  lemma ListPagesAreNotMeta(store: Store, v: View)
    requires SpaceOk(store, v)
    ensures forall o, i :: 0 <= o < ORDERS && 0 <= i < |v.chains[o].pages| ==> 2 <= v.chains[o].pages[i] < v.alloc.next
  {
    hide Linked, FullEntries, Entries, LiveOk, FreeOk, Field;
    forall o, i | 0 <= o < ORDERS && 0 <= i < |v.chains[o].pages| ensures 2 <= v.chains[o].pages[i] < v.alloc.next {
      ListPageOwner(v, o, i);
    }
  }

  lemma EmptyIffCountZero(store: Store, order: nat, chain: Chain, free: seq<nat>)
    requires order < ORDERS && Represents(store, order, chain, free)
    ensures Count(store, order) == 0 <==> free == []
    ensures Count(store, order) > 0 ==>
              Field(store, Field(store, 0, LastFplPage(order), 8), Entry(Count(store, order) - 1), 8) == free[|free| - 1]
  {
  }

  /** Bumping the end of the used pages. */
  lemma BumpIsOk(store: Store, v: View, order: nat)
    requires SpaceOk(store, v) && order < ORDERS && v.alloc.next + Pow2(order) < U64_LIMIT
    ensures SpaceOk(WithField(store, 0, NEXT_FREE_PAGE, 8, v.alloc.next + Pow2(order)), v.(alloc := Bump(v.alloc, order)))
  {
    hide Represents, Field, FilePage, Count, Partition, Painted, OtherMetaSame, LittleEndian, WithField, Splice;
    var store' := WithField(store, 0, NEXT_FREE_PAGE, 8, v.alloc.next + Pow2(order));
    Powers();
    MetaWrite(store, 0, NEXT_FREE_PAGE, 8, v.alloc.next + Pow2(order));
    ListPagesAreNotMeta(store, v);
    OthersRepresented(store, store', v, -1);
    BumpKeepsPartition(v.alloc, order);
  }

  /** `store'` differs from `store` in the given region only, which is zero. */
  ghost predicate RegionCleared(store: Store, store': Store, start: nat, pages: nat) {
    forall p: nat :: FilePage(store', p) == if start <= p < start + pages then ZERO_PAGE else FilePage(store, p)
  }

  lemma ClearingIsOk(store: Store, store': Store, v: View, order: nat)
    requires SpaceOk(store, v) && order < ORDERS && v.alloc.free[order] != []
    requires RegionCleared(store, store', Top(v.alloc, order), Pow2(order))
    ensures SpaceOk(store', v)
    ensures FIRST_PAGE <= Top(v.alloc, order)
  {
    hide Represents, Field, Count, ListsOk, LiveOk, FilePage;
    var start := Top(v.alloc, order);
    FreeRegionOwned(v.alloc, order, |v.alloc.free[order]| - 1);
    forall o, i | 0 <= o < ORDERS && 0 <= i < |v.chains[o].pages|
      ensures FilePage(store', v.chains[o].pages[i]) == FilePage(store, v.chains[o].pages[i])
    {
      var p := v.chains[o].pages[i];
      if start <= p < start + Pow2(order) {
        NotAListPage(store, v, o, p);
      }
    }
    SameFields(store, store', 0);
    MetaSame(store, store');
    OthersRepresented(store, store', v, -1);
  }

  lemma MetaSame(store: Store, store': Store)
    requires FilePage(store', 0) == FilePage(store, 0)
    ensures OtherMetaSame(store, store', -1) && Field(store', 0, NEXT_FREE_PAGE, 8) == Field(store, 0, NEXT_FREE_PAGE, 8)
    ensures forall o :: 0 <= o < ORDERS ==> Count(store', o) == Count(store, o)
  {
    hide Field, FilePage;
    SameFields(store, store', 0);
  }

  lemma FreeRegionOwned(a: Allocator, order: nat, i: nat)
    requires Partition(a) && order < ORDERS && i < |a.free[order]|
    ensures forall p :: InRegion(p, a.free[order][i], order) ==> p in a.own && a.own[p] == Free(a.free[order][i], order)
    ensures FIRST_PAGE <= a.free[order][i] && a.free[order][i] + Pow2(order) <= a.next
  {
    var s := a.free[order][i];
    assert InRegion(s, s, order) && InRegion(s + Pow2(order) - 1, s, order);
  }

  /** Taking the last entry off a list page, stepping back to the previous page when it was the only one. */
  lemma PopRepresents(store: Store, store': Store, order: nat, chain: Chain, free: seq<nat>)
    requires order < ORDERS && Represents(store, order, chain, free) && Count(store, order) > 0
    requires forall i :: 0 <= i < |chain.pages| ==> FilePage(store', chain.pages[i]) == FilePage(store, chain.pages[i])
    requires var back := Count(store, order) == 1 && chain.at > 0;
      && Field(store', 0, LastFplPage(order), 8) == (if back then chain.pages[chain.at - 1] else chain.pages[chain.at])
      && Count(store', order) == (if back then FPL_PAGE_CAPACITY else Count(store, order) - 1)
    ensures var back := Count(store, order) == 1 && chain.at > 0;
      Represents(store', order, chain.(at := if back then chain.at - 1 else chain.at), free[..|free| - 1])
  {
    hide Distinct, Linked, Field, FilePage;
    LinkedSame(store, store', chain.pages);
    FullEntriesSame(store, store', chain.pages, chain.at);
    var n := Count(store, order);
    var last := chain.pages[chain.at];
    SameFields(store, store', last);
    assert Entries(store, last, n)[..n - 1] == Entries(store', last, n - 1);
    if n == 1 && chain.at > 0 {
      var prev := chain.pages[chain.at - 1];
      SameFields(store, store', prev);
      FullEntriesSame(store, store', chain.pages, chain.at - 1);
      assert Entries(store', prev, FPL_PAGE_CAPACITY) == Entries(store, prev, FPL_PAGE_CAPACITY);
    }
  }

  /** The state after an allocation out of the free list. */
  ghost function Popped(v: View, order: nat, back: bool): View
    requires order < |v.chains| && order < |v.alloc.free| && v.alloc.free[order] != [] && (back ==> v.chains[order].at > 0)
  {
    var chain := v.chains[order];
    View(v.chains[order := chain.(at := if back then chain.at - 1 else chain.at)], Pop(v.alloc, order))
  }

  lemma PoppedIsOk(store: Store, store': Store, v: View, order: nat)
    requires SpaceOk(store, v) && order < ORDERS && Count(store, order) > 0 && v.alloc.free[order] != []
    requires forall p :: p != 0 ==> FilePage(store', p) == FilePage(store, p)
    requires OtherMetaSame(store, store', order)
    requires Field(store', 0, NEXT_FREE_PAGE, 8) == Field(store, 0, NEXT_FREE_PAGE, 8)
    requires var back := Count(store, order) == 1 && v.chains[order].at > 0;
      && v.chains[order].at < |v.chains[order].pages|
      && Field(store', 0, LastFplPage(order), 8)
         == v.chains[order].pages[if back then v.chains[order].at - 1 else v.chains[order].at]
      && Count(store', order) == (if back then FPL_PAGE_CAPACITY else Count(store, order) - 1)
    ensures var back := Count(store, order) == 1 && v.chains[order].at > 0;
      SpaceOk(store', Popped(v, order, back))
  {
    hide Represents, Field, FilePage, Count, LiveOk, FreeOk, ListsOk;
    ListPagesAreNotMeta(store, v);
    OthersRepresented(store, store', v, order);
    PopRepresents(store, store', order, v.chains[order], v.alloc.free[order]);
    PopKeepsPartition(v.alloc, order);
  }

  lemma FieldBound(store: Store, page: nat, offset: nat, width: nat)
    requires offset + width <= PAGE_SIZE
    ensures Field(store, page, offset, width) < Pow256(width)
  {
    FromLittleEndianBound(FilePage(store, page)[offset..offset + width]);
  }

  /** What the current list page of an order looks like. */
  lemma CurrentListPage(store: Store, v: View, order: nat)
    requires SpaceOk(store, v) && order < ORDERS
    ensures var chain := v.chains[order];
      && chain.at < |chain.pages| && Distinct(chain.pages) && chain.pages[0] == order + 2
      && Field(store, 0, LastFplPage(order), 8) == chain.pages[chain.at]
      && Field(store, chain.pages[chain.at], PREVIOUS, 8) == (if chain.at == 0 then 0 else chain.pages[chain.at - 1])
      && Field(store, chain.pages[chain.at], NEXT, 8)
         == (if chain.at + 1 < |chain.pages| then chain.pages[chain.at + 1] else 0)
      && Count(store, order) <= FPL_PAGE_CAPACITY
      && (Count(store, order) == 0 <==> v.alloc.free[order] == [])
      && (Count(store, order) > 0 ==>
            Field(store, chain.pages[chain.at], Entry(Count(store, order) - 1), 8) == Top(v.alloc, order))
      && (forall i :: 0 <= i < |chain.pages| ==> 2 <= chain.pages[i] < v.alloc.next)
    ensures |v.chains| == |v.alloc.free| == |v.alloc.lists| == ORDERS && v.alloc.next < Pow256(8)
  {
    FieldBound(store, 0, NEXT_FREE_PAGE, 8);
    hide Field, FilePage, Count, LiveOk, FreeOk, ListsOk, Distinct;
    EmptyIffCountZero(store, order, v.chains[order], v.alloc.free[order]);
    assert LinksTo(store, v.chains[order].pages, v.chains[order].at);
    ListPagesAreNotMeta(store, v);
  }

  method ClearRegion(t: Transaction, start: nat, order: nat)
    modifies t
    ensures RegionCleared(old(t.store), t.store, start, Pow2(order))
  {
    for i := 0 to Pow2(order)
      invariant RegionCleared(old(t.store), t.store, start, i)
    {
      ghost var store := t.store;
      t.Clear(start + i);
      assert forall p :: FilePage(t.store, p) == if p == start + i then ZERO_PAGE else FilePage(store, p);
    }
  }

  /** What an allocation does to the file: the meta page aside, only the region it hands out is
      touched, and that reads all zero. */
  ghost predicate HandsOut(store: Store, store': Store, page: nat, order: nat) {
    forall p :: p != 0 ==> FilePage(store', p) == if InRegion(p, page, order) then ZERO_PAGE else FilePage(store, p)
  }

  ghost predicate KeepsOtherLists(store: Store, v: View, store': Store, v': View, order: nat)
    requires order < ORDERS
  {
    && |v'.chains| == |v.chains| == ORDERS
    && v'.chains[order].pages == v.chains[order].pages
    && forall o :: 0 <= o < ORDERS && o != order ==> v'.chains[o] == v.chains[o] && Count(store', o) == Count(store, o)
  }

  method AllocateUnused(t: Transaction, order: nat, ghost v: View) returns (page: nat, ghost v': View)
    requires SpaceOk(t.store, v) && order < ORDERS && v.alloc.next + Pow2(order) < U64_LIMIT
    modifies t
    ensures SpaceOk(t.store, v') && v' == v.(alloc := Bump(v.alloc, order)) && page == v.alloc.next
    ensures HandsOut(old(t.store), t.store, page, order)
    ensures KeepsOtherLists(old(t.store), v, t.store, v', order)
  {
    hide SpaceOk, Field, FilePage, Count, Pow2, Bump, Pow256, LastFplPage, LastFplPageEntries;
    UnusedIsZero(t.store, v);
    page := Field(t.store, 0, NEXT_FREE_PAGE, 8);
    BumpIsOk(t.store, v, order);
    Powers();
    MetaWrite(t.store, 0, NEXT_FREE_PAGE, 8, page + Pow2(order));
    t.WriteField(0, NEXT_FREE_PAGE, 8, page + Pow2(order));
    v' := v.(alloc := Bump(v.alloc, order));
  }

  method AllocateFreed(t: Transaction, order: nat, ghost v: View) returns (page: nat, ghost v': View)
    requires SpaceOk(t.store, v) && order < ORDERS && v.alloc.free[order] != []
    modifies t
    ensures SpaceOk(t.store, v') && v'.alloc == Pop(v.alloc, order) && page == Top(v.alloc, order)
    ensures HandsOut(old(t.store), t.store, page, order)
    ensures KeepsOtherLists(old(t.store), v, t.store, v', order)
  {
    hide SpaceOk, Field, FilePage, Count, Pow2, Distinct, Pop, Pow256;
    CurrentListPage(t.store, v, order);
    var fpl := Field(t.store, 0, LastFplPage(order), 8);
    page := Field(t.store, fpl, Entry(Count(t.store, order) - 1), 8);
    ghost var store0 := t.store;
    ClearRegion(t, page, order);
    ClearingIsOk(store0, t.store, v, order);
    ghost var store1 := t.store;
    CurrentListPage(store1, v, order);
    MetaSame(store0, store1);
    v' := TakeLastEntry(t, order, fpl, v);
  }

  /** Takes the last entry off the current list page, and steps back a page when it was the only one. */
  method TakeLastEntry(t: Transaction, order: nat, fpl: nat, ghost v: View) returns (ghost v': View)
    requires SpaceOk(t.store, v) && order < ORDERS && v.alloc.free[order] != []
    requires fpl == Field(t.store, 0, LastFplPage(order), 8)
    modifies t
    ensures SpaceOk(t.store, v') && v'.alloc == Pop(v.alloc, order)
    ensures forall p :: p != 0 ==> FilePage(t.store, p) == FilePage(old(t.store), p)
    ensures KeepsOtherLists(old(t.store), v, t.store, v', order)
  {
    hide SpaceOk, Field, FilePage, Pow2, Distinct, Pop, Pow256, OtherMetaSame, LastFplPage, LastFplPageEntries;
    CurrentListPage(t.store, v, order);
    ghost var store, back := t.store, Count(t.store, order) == 1 && v.chains[order].at > 0;
    MetaOffsets(order);
    Powers();
    var entries := Count(t.store, order) - 1;
    if entries == 0 {
      var previous := Field(t.store, fpl, PREVIOUS, 8);
      if previous != 0 {
        MetaWrite(t.store, order, LastFplPage(order), 8, previous);
        t.WriteField(0, LastFplPage(order), 8, previous);
        entries := FPL_PAGE_CAPACITY;
      }
    }
    ghost var mid := t.store;
    OtherMetaSelf(store, order);
    MetaWrite(mid, order, LastFplPageEntries(order), 4, entries);
    t.WriteField(0, LastFplPageEntries(order), 4, entries);
    OtherMetaTwice(store, mid, t.store, order);
    PoppedIsOk(store, t.store, v, order);
    v' := Popped(v, order, back);
    OtherMetaCounts(store, t.store, order);
  }

  lemma MetaOffsets(order: nat)
    requires order < ORDERS
    ensures LastFplPage(order) + 8 <= LastFplPageEntries(order) && LastFplPageEntries(order) + 4 <= PAGE_SIZE
    ensures LastFplPage(order) > NEXT_FREE_PAGE
  {
  }

  lemma OtherMetaSelf(store: Store, order: int)
    ensures OtherMetaSame(store, store, order)
  {
  }

  lemma OtherMetaTwice(store: Store, store1: Store, store2: Store, order: int)
    requires OtherMetaSame(store, store1, order) && OtherMetaSame(store1, store2, order)
    ensures OtherMetaSame(store, store2, order)
  {
    hide Field, Count;
  }

  lemma OtherMetaCounts(store: Store, store': Store, order: int)
    requires OtherMetaSame(store, store', order)
    ensures forall o :: 0 <= o < ORDERS && o != order ==> Count(store', o) == Count(store, o)
  {
  }

  /** Hands out a region of 2^order pages: the one freed last, or the next unused pages. */
  method Allocate(t: Transaction, order: nat, ghost v: View) returns (page: nat, ghost v': View)
    requires SpaceOk(t.store, v) && order <= MAX_SHIFT && v.alloc.next + Pow2(order) < U64_LIMIT
    modifies t
    ensures SpaceOk(t.store, v')
    ensures v'.alloc == if v.alloc.free[order] == [] then Bump(v.alloc, order) else Pop(v.alloc, order)
    ensures page == if v.alloc.free[order] == [] then v.alloc.next else Top(v.alloc, order)
    ensures HandsOut(old(t.store), t.store, page, order)
    ensures KeepsOtherLists(old(t.store), v, t.store, v', order)
  {
    hide SpaceOk, Field, FilePage, Count, Pow2, Distinct, Pop, Bump;
    CurrentListPage(t.store, v, order);
    if Count(t.store, order) == 0 {
      page, v' := AllocateUnused(t, order, v);
    } else {
      page, v' := AllocateFreed(t, order, v);
    }
  }

  lemma UnusedIsZero(store: Store, v: View)
    requires SpaceOk(store, v)
    ensures Field(store, 0, NEXT_FREE_PAGE, 8) == v.alloc.next >= FIRST_PAGE && |v.chains| == ORDERS
    ensures forall p :: p >= v.alloc.next ==> FilePage(store, p) == ZERO_PAGE
  {
    hide Represents, LiveOk, FreeOk, ListsOk;
  }

  // ---- freeing ----

  ghost predicate LinksSame(store: Store, store': Store, page: nat) {
    Field(store', page, PREVIOUS, 8) == Field(store, page, PREVIOUS, 8) && Field(store', page, NEXT, 8) == Field(store, page, NEXT, 8)
  }

  ghost predicate EntriesSame(store: Store, store': Store, page: nat) {
    forall k :: 0 <= k < FPL_PAGE_CAPACITY ==> Field(store', page, Entry(k), 8) == Field(store, page, Entry(k), 8)
  }

  lemma {:induction false} FullEntriesKept(store: Store, store': Store, pages: seq<nat>, more: seq<nat>, n: nat)
    requires n <= |pages| && forall i :: 0 <= i < n ==> EntriesSame(store, store', pages[i])
    ensures FullEntries(store', pages + more, n) == FullEntries(store, pages, n)
  {
    hide Field;
    if n == 0 {
    } else {
      FullEntriesKept(store, store', pages, more, n - 1);
      assert EntriesSame(store, store', pages[n - 1]);
      assert Entries(store', (pages + more)[n - 1], FPL_PAGE_CAPACITY) == Entries(store, pages[n - 1], FPL_PAGE_CAPACITY);
    }
  }

  lemma LinkedKept(store: Store, store': Store, pages: seq<nat>)
    requires Linked(store, pages) && forall i :: 0 <= i < |pages| ==> LinksSame(store, store', pages[i])
    ensures Linked(store', pages)
  {
    hide Field;
    forall i | 0 <= i < |pages| ensures LinksTo(store', pages, i) {
      assert LinksSame(store, store', pages[i]) && LinksTo(store, pages, i);
    }
  }

  /** Adding an entry to a list page that is not full pushes it. */
  lemma PushRepresents(store: Store, store': Store, order: nat, chain: Chain, free: seq<nat>, start: nat)
    requires order < ORDERS && Represents(store, order, chain, free) && Count(store, order) < FPL_PAGE_CAPACITY
    requires forall i :: 0 <= i < |chain.pages| ==> LinksSame(store, store', chain.pages[i])
    requires forall i :: 0 <= i < |chain.pages| && i != chain.at ==> EntriesSame(store, store', chain.pages[i])
    requires forall k :: 0 <= k < Count(store, order) ==>
               Field(store', chain.pages[chain.at], Entry(k), 8) == Field(store, chain.pages[chain.at], Entry(k), 8)
    requires Field(store', chain.pages[chain.at], Entry(Count(store, order)), 8) == start
    requires Field(store', 0, LastFplPage(order), 8) == Field(store, 0, LastFplPage(order), 8)
    requires Count(store', order) == Count(store, order) + 1
    ensures Represents(store', order, chain, free + [start])
  {
    hide Distinct, Field, Count;
    FullEntriesKept(store, store', chain.pages, [], chain.at);
    assert chain.pages + [] == chain.pages;
    var n, last := Count(store, order), chain.pages[chain.at];
    assert Entries(store', last, n + 1) == Entries(store, last, n) + [start];
    LinkedKept(store, store', chain.pages);
  }

  /** Moving on to the next linked page, as its first entry. */
  lemma MoveRepresents(store: Store, store': Store, order: nat, chain: Chain, free: seq<nat>, start: nat)
    requires order < ORDERS && Represents(store, order, chain, free) && Count(store, order) == FPL_PAGE_CAPACITY
    requires chain.at + 1 < |chain.pages|
    requires forall i :: 0 <= i < |chain.pages| ==> LinksSame(store, store', chain.pages[i])
    requires forall i :: 0 <= i < |chain.pages| && i != chain.at + 1 ==> EntriesSame(store, store', chain.pages[i])
    requires Field(store', chain.pages[chain.at + 1], Entry(0), 8) == start
    requires Field(store', 0, LastFplPage(order), 8) == chain.pages[chain.at + 1] && Count(store', order) == 1
    ensures Represents(store', order, chain.(at := chain.at + 1), free + [start])
  {
    hide Distinct, Field, Count;
    FullEntriesKept(store, store', chain.pages, [], chain.at + 1);
    assert chain.pages + [] == chain.pages;
    assert Entries(store', chain.pages[chain.at + 1], 1) == [start];
    LinkedKept(store, store', chain.pages);
  }

  /** Linking a fresh page behind the last one changes the chain, not the stack. */
  lemma LinkRepresents(store: Store, store': Store, order: nat, chain: Chain, free: seq<nat>, page: nat)
    requires order < ORDERS && Represents(store, order, chain, free) && page !in chain.pages
    requires forall i :: 0 <= i < |chain.pages| ==> EntriesSame(store, store', chain.pages[i])
    requires forall i :: 0 <= i < |chain.pages| - 1 ==> LinksSame(store, store', chain.pages[i])
    requires var last := chain.pages[|chain.pages| - 1];
      && Field(store', last, PREVIOUS, 8) == Field(store, last, PREVIOUS, 8) && Field(store', last, NEXT, 8) == page
      && Field(store', page, PREVIOUS, 8) == last && Field(store', page, NEXT, 8) == 0
    requires Field(store', 0, LastFplPage(order), 8) == Field(store, 0, LastFplPage(order), 8)
    requires Count(store', order) == Count(store, order)
    ensures Represents(store', order, Chain(chain.pages + [page], chain.at), free)
  {
    hide Field, Count, Distinct;
    FullEntriesKept(store, store', chain.pages, [page], chain.at);
    var at := chain.pages[chain.at];
    assert EntriesSame(store, store', at);
    assert Entries(store', at, Count(store', order)) == Entries(store, at, Count(store, order));
    DistinctSnoc(chain.pages, page);
    LinkedSnoc(store, store', chain.pages, page);
  }

  lemma DistinctSnoc(s: seq<nat>, x: nat)
    requires Distinct(s) && x !in s
    ensures Distinct(s + [x])
  {
  }

  lemma LinkedSnoc(store: Store, store': Store, pages: seq<nat>, page: nat)
    requires pages != [] && Linked(store, pages)
    requires forall i :: 0 <= i < |pages| - 1 ==> LinksSame(store, store', pages[i])
    requires var last := pages[|pages| - 1];
      && Field(store', last, PREVIOUS, 8) == Field(store, last, PREVIOUS, 8) && Field(store', last, NEXT, 8) == page
      && Field(store', page, PREVIOUS, 8) == last && Field(store', page, NEXT, 8) == 0
    ensures Linked(store', pages + [page])
  {
    hide Field;
    var all := pages + [page];
    forall i | 0 <= i < |all| ensures LinksTo(store', all, i) {
      if i < |pages| {
        assert all[i] == pages[i];
        assert i < |pages| - 1 ==> LinksSame(store, store', pages[i]) && all[i + 1] == pages[i + 1];
        assert i > 0 ==> all[i - 1] == pages[i - 1];
        assert LinksTo(store, pages, i);
      }
    }
  }

  /** A change to the list of one order leaves the rest of the file's bookkeeping as it was. */
  lemma ListChangeIsOk(store: Store, store': Store, v: View, order: nat, chain: Chain, alloc: Allocator)
    requires SpaceOk(store, v) && order < ORDERS && Partition(alloc)
    requires alloc.next == v.alloc.next && |alloc.lists| == ORDERS
    requires forall o :: 0 <= o < ORDERS && o != order ==> alloc.free[o] == v.alloc.free[o] && alloc.lists[o] == v.alloc.lists[o]
    requires Represents(store', order, chain, alloc.free[order]) && alloc.lists[order] == chain.pages[1..]
    requires OtherMetaSame(store, store', order)
    requires Field(store', 0, NEXT_FREE_PAGE, 8) == Field(store, 0, NEXT_FREE_PAGE, 8)
    requires forall p: nat :: p != 0 && p !in chain.pages ==> FilePage(store', p) == FilePage(store, p)
    requires forall p :: p in chain.pages ==> p in v.chains[order].pages || (p in v.alloc.own && v.alloc.own[p].Live?)
    ensures SpaceOk(store', View(v.chains[order := chain], alloc))
  {
    hide Represents, Field, FilePage, Count, LiveOk, FreeOk, ListsOk;
    ListPagesAreNotMeta(store, v);
    forall o, i | 0 <= o < ORDERS && o != order && 0 <= i < |v.chains[o].pages|
      ensures FilePage(store', v.chains[o].pages[i]) == FilePage(store, v.chains[o].pages[i])
    {
      var p := v.chains[o].pages[i];
      if p in chain.pages {
        NotAListPage(store, v, o, p);
      }
    }
    OthersRepresented(store, store', v, order);
    UnusedStaysZero(store, store', v, order, chain);
  }

  lemma UnusedStaysZero(store: Store, store': Store, v: View, order: nat, chain: Chain)
    requires SpaceOk(store, v) && order < ORDERS
    requires forall p: nat :: p != 0 && p !in chain.pages ==> FilePage(store', p) == FilePage(store, p)
    requires forall p :: p in chain.pages ==> p in v.chains[order].pages || (p in v.alloc.own && v.alloc.own[p].Live?)
    ensures forall p: nat :: p >= v.alloc.next ==> FilePage(store', p) == ZERO_PAGE
  {
    hide Represents, Field, FilePage, Count, LiveOk, FreeOk, ListsOk;
    ListPagesAreNotMeta(store, v);
  }

  /** Writing one entry of a list page, and then meta fields. */
  lemma EntryThenMeta(store: Store, page: nat, k: nat, value: nat, store': Store)
    requires k < FPL_PAGE_CAPACITY && value < Pow256(8)
    requires var mid := WithField(store, page, Entry(k), 8, value); forall p :: p != 0 ==> FilePage(store', p) == FilePage(mid, p)
    ensures page != 0 ==> Field(store', page, Entry(k), 8) == value
    ensures forall p :: p != 0 ==> LinksSame(store, store', p)
    ensures forall p :: p != 0 && p != page ==> EntriesSame(store, store', p) && FilePage(store', p) == FilePage(store, p)
    ensures page != 0 ==> forall j :: 0 <= j < FPL_PAGE_CAPACITY && j != k ==>
                            Field(store', page, Entry(j), 8) == Field(store, page, Entry(j), 8)
  {
    hide Field, FilePage, LittleEndian, Pow256;
    var mid := WithField(store, page, Entry(k), 8, value);
    FieldOfWritten(store, page, Entry(k), 8, value);
    WrittenElsewhere(store, page, Entry(k), 8, value);
    forall p, o: nat, w: nat | p != 0 && o + w <= PAGE_SIZE ensures Field(store', p, o, w) == Field(mid, p, o, w) {
      SameFields(mid, store', p);
    }
  }

  lemma FieldOnOtherPage(store: Store, page: nat, offset: nat, value: nat)
    requires page != 0 && offset + 8 <= PAGE_SIZE
    ensures var store' := WithField(store, page, offset, 8, value);
      FilePage(store', 0) == FilePage(store, 0)
  {
  }

  /** The writes of a free onto a list page with room. */
  lemma PushedIsOk(store: Store, v: View, order: nat, start: nat, store1: Store, store2: Store)
    requires SpaceOk(store, v) && order < ORDERS && Region(start, order) in v.alloc.live && Count(store, order) < FPL_PAGE_CAPACITY
    requires store1 == WithField(store, Field(store, 0, LastFplPage(order), 8), Entry(Count(store, order)), 8, start)
    requires store2 == WithField(store1, 0, LastFplPageEntries(order), 4, Count(store, order) + 1)
    ensures SpaceOk(store2, v.(alloc := Push(v.alloc, start, order)))
  {
    hide SpaceOk, Represents, Field, FilePage, Pow256, LittleEndian, OtherMetaSame, LastFplPage, LastFplPageEntries, Partition,
         Distinct, EntriesSame, LinksSame, Pow2, WithField;
    CurrentListPage(store, v, order);
    LiveIsUsed(store, v, start, order);
    var chain := v.chains[order];
    var fpl := chain.pages[chain.at];
    DistinctOthers(chain.pages, chain.at);
    Powers();
    MetaOffsets(order);
    MetaWrite(store1, order, LastFplPageEntries(order), 4, Count(store, order) + 1);
    EntryThenMeta(store, fpl, Count(store, order), start, store2);
    FieldOnOtherPage(store, fpl, Entry(Count(store, order)), start);
    MetaSame(store, store1);
    SameFields(store, store1, 0);
    SpaceParts(store, v, order);
    PushRepresents(store, store2, order, chain, v.alloc.free[order], start);
    PushKeepsPartition(v.alloc, start, order);
    OtherMetaNarrows(store, store1, order);
    OtherMetaTwice(store, store1, store2, order);
    ListChangeIsOk(store, store2, v, order, chain, Push(v.alloc, start, order));
    assert v.chains[order := chain] == v.chains;
  }

  lemma DistinctOthers(s: seq<nat>, k: nat)
    requires Distinct(s) && k < |s|
    ensures forall i :: 0 <= i < |s| && i != k ==> s[i] != s[k]
  {
  }

  /** The writes of a free that moves on to the next, already linked list page. */
  lemma MovedIsOk(store: Store, v: View, order: nat, start: nat, store1: Store, store2: Store, store3: Store)
    requires SpaceOk(store, v) && order < ORDERS && Region(start, order) in v.alloc.live
    requires Count(store, order) == FPL_PAGE_CAPACITY && v.chains[order].at + 1 < |v.chains[order].pages|
    requires store1 == WithField(store, v.chains[order].pages[v.chains[order].at + 1], Entry(0), 8, start)
    requires store2 == WithField(store1, 0, LastFplPage(order), 8, v.chains[order].pages[v.chains[order].at + 1])
    requires store3 == WithField(store2, 0, LastFplPageEntries(order), 4, 1)
    ensures var chain := v.chains[order];
      SpaceOk(store3, View(v.chains[order := chain.(at := chain.at + 1)], Push(v.alloc, start, order)))
  {
    hide SpaceOk, Represents, Field, FilePage, Pow256, LittleEndian, OtherMetaSame, LastFplPage, LastFplPageEntries, Partition,
         Distinct, EntriesSame, LinksSame, Pow2, WithField;
    CurrentListPage(store, v, order);
    LiveIsUsed(store, v, start, order);
    var chain := v.chains[order];
    var next := chain.pages[chain.at + 1];
    DistinctOthers(chain.pages, chain.at + 1);
    Powers();
    MetaOffsets(order);
    MetaWrite(store1, order, LastFplPage(order), 8, next);
    MetaWrite(store2, order, LastFplPageEntries(order), 4, 1);
    EntryThenMeta(store, next, 0, start, store3);
    FieldOnOtherPage(store, next, Entry(0), start);
    MetaSame(store, store1);
    SameFields(store, store1, 0);
    SpaceParts(store, v, order);
    MoveRepresents(store, store3, order, chain, v.alloc.free[order], start);
    PushKeepsPartition(v.alloc, start, order);
    OtherMetaNarrows(store, store1, order);
    OtherMetaTwice(store, store1, store2, order);
    OtherMetaTwice(store, store2, store3, order);
    ListChangeIsOk(store, store3, v, order, chain.(at := chain.at + 1), Push(v.alloc, start, order));
  }

  /** The writes that link a live page behind the last list page of an order. */
  lemma LinkedIsOk(store: Store, v: View, order: nat, page: nat, store1: Store, store2: Store, store3: Store)
    requires SpaceOk(store, v) && order < ORDERS && Region(page, 0) in v.alloc.live
    requires v.chains[order].at + 1 == |v.chains[order].pages|
    requires store1 == Cleared(store, page)
    requires store2 == WithField(store1, page, PREVIOUS, 8, v.chains[order].pages[v.chains[order].at])
    requires store3 == WithField(store2, v.chains[order].pages[v.chains[order].at], NEXT, 8, page)
    ensures var chain := v.chains[order];
      SpaceOk(store3, View(v.chains[order := Chain(chain.pages + [page], chain.at)], Listed(v.alloc, page, order)))
  {
    hide SpaceOk, Represents, Field, FilePage, Pow256, LittleEndian, OtherMetaSame, LastFplPage, LastFplPageEntries, Partition,
         Distinct, EntriesSame, LinksSame, Pow2, WithField, Cleared;
    CurrentListPage(store, v, order);
    LiveIsUsed(store, v, page, 0);
    NotAListPage(store, v, order, page);
    var chain := v.chains[order];
    var last := chain.pages[chain.at];
    DistinctOthers(chain.pages, chain.at);
    LinkWrites(store, page, last, store1, store2, store3);
    MetaSame(store, store3);
    SameFields(store, store3, 0);
    MetaOffsets(order);
    SpaceParts(store, v, order);
    LinkRepresents(store, store3, order, chain, v.alloc.free[order], page);
    ListedKeepsPartition(v.alloc, page, order);
    OtherMetaNarrows(store, store3, order);
    ListChangeIsOk(store, store3, v, order, Chain(chain.pages + [page], chain.at), Listed(v.alloc, page, order));
  }

  lemma LinkWrites(store: Store, page: nat, last: nat, store1: Store, store2: Store, store3: Store)
    requires page != last && page != 0 && last != 0 && page < Pow256(8) && last < Pow256(8)
    requires store1 == Cleared(store, page)
    requires store2 == WithField(store1, page, PREVIOUS, 8, last)
    requires store3 == WithField(store2, last, NEXT, 8, page)
    ensures Field(store3, page, PREVIOUS, 8) == last && Field(store3, page, NEXT, 8) == 0
    ensures Field(store3, last, NEXT, 8) == page && Field(store3, last, PREVIOUS, 8) == Field(store, last, PREVIOUS, 8)
    ensures EntriesSame(store, store3, last)
    ensures forall p: nat :: p != page && p != last ==>
              FilePage(store3, p) == FilePage(store, p) && LinksSame(store, store3, p) && EntriesSame(store, store3, p)
  {
    hide Field, LittleEndian, Pow256, WithField, FilePage;
    FieldOfWritten(store1, page, PREVIOUS, 8, last);
    FieldOfWritten(store2, last, NEXT, 8, page);
    WrittenElsewhere(store1, page, PREVIOUS, 8, last);
    WrittenElsewhere(store2, last, NEXT, 8, page);
    ClearedPage(store, page);
    FieldOfZero(store1, page, NEXT, 8);
    SameFields(store, store1, last);
    forall p: nat | p != page && p != last
      ensures FilePage(store3, p) == FilePage(store, p) && LinksSame(store, store3, p) && EntriesSame(store, store3, p)
    {
      SameFields(store, store3, p);
    }
  }

  lemma ClearedPage(store: Store, page: nat)
    ensures FilePage(Cleared(store, page), page) == ZERO_PAGE
    ensures forall p: nat :: p != page ==> FilePage(Cleared(store, page), p) == FilePage(store, p)
  {
  }

  lemma OtherMetaNarrows(store: Store, store': Store, order: nat)
    requires OtherMetaSame(store, store', -1)
    ensures OtherMetaSame(store, store', order)
  {
    hide Field, Count;
  }

  lemma SpaceParts(store: Store, v: View, order: nat)
    requires SpaceOk(store, v) && order < ORDERS
    ensures Partition(v.alloc) && |v.chains| == |v.alloc.free| == |v.alloc.lists| == ORDERS
    ensures Represents(store, order, v.chains[order], v.alloc.free[order])
    ensures v.alloc.lists[order] == v.chains[order].pages[1..]
  {
    hide Represents, LiveOk, FreeOk, ListsOk;
  }

  lemma LiveIsUsed(store: Store, v: View, start: nat, order: nat)
    requires SpaceOk(store, v) && Region(start, order) in v.alloc.live
    ensures FIRST_PAGE <= start < v.alloc.next < Pow256(8)
    ensures start in v.alloc.own && v.alloc.own[start].Live?
  {
    hide Represents, FreeOk, ListsOk;
    LiveRegionIsOwned(v.alloc, start, order);
    FieldBound(store, 0, NEXT_FREE_PAGE, 8);
  }

  /** No entry fits: one more would leave the current list page, and no page is linked behind it. */
  ghost predicate ListIsFull(store: Store, v: View, order: nat)
    requires order < ORDERS && |v.chains| == ORDERS
  {
    Entry(Count(store, order)) >= PAGE_SIZE && v.chains[order].at + 1 >= |v.chains[order].pages|
  }

  /** Only the meta page and the list pages of one order differ. */
  ghost predicate OnlyListChanged(store: Store, store': Store, v': View, order: nat)
    requires order < |v'.chains|
  {
    forall p: nat :: p != 0 && p !in v'.chains[order].pages ==> FilePage(store', p) == FilePage(store, p)
  }

  /** Pages of live regions keep their contents. */
  lemma LivePagesKept(store: Store, store': Store, v': View, order: nat)
    requires SpaceOk(store', v') && order < ORDERS && OnlyListChanged(store, store', v', order)
    ensures forall p :: p in v'.alloc.own && v'.alloc.own[p].Live? ==> FilePage(store', p) == FilePage(store, p)
  {
    hide SpaceOk, FilePage;
    forall p | p in v'.alloc.own && v'.alloc.own[p].Live? ensures FilePage(store', p) == FilePage(store, p) {
      NotAListPage(store', v', order, p);
      OwnedIsNotMeta(store', v', p);
    }
  }

  lemma OwnedIsNotMeta(store: Store, v: View, p: nat)
    requires SpaceOk(store, v) && p in v.alloc.own
    ensures p >= FIRST_PAGE
  {
    hide Represents, LiveOk, FreeOk, ListsOk;
  }

  ghost predicate OtherListsSame(store: Store, v: View, store': Store, v': View, order: nat) {
    && |v'.chains| == |v.chains| == ORDERS
    && forall o :: 0 <= o < ORDERS && o != order ==> v'.chains[o] == v.chains[o] && Count(store', o) == Count(store, o)
  }

  /** From the second field on, a list page just taken is zero but for its first entry, if it has one. */
  ghost predicate FreshListPage(store: Store, page: nat, entry: nat) {
    FilePage(store, page)[NEXT..] == Zeros(8) + LittleEndian(entry, 8) + Zeros(PAGE_SIZE - 24)
  }

  lemma FreshBytes(store: Store, page: nat, last: nat, next: nat, entry: nat)
    requires page != last && page != 0
    ensures var store2 := WithField(WithField(Cleared(store, page), page, PREVIOUS, 8, last), last, NEXT, 8, next);
      && FreshListPage(store2, page, 0)
      && FreshListPage(WithField(store2, page, Entry(0), 8, entry), page, entry)
  {
    hide LittleEndian;
    ZeroBytes(8);
    var store2 := WithField(WithField(Cleared(store, page), page, PREVIOUS, 8, last), last, NEXT, 8, next);
    var bytes := FilePage(store2, page);
    assert bytes[NEXT..] == Zeros(PAGE_SIZE - 8);
    assert Zeros(PAGE_SIZE - 8) == Zeros(8) + Zeros(8) + Zeros(PAGE_SIZE - 24);
    assert FilePage(WithField(store2, page, Entry(0), 8, entry), page)[NEXT..]
        == Zeros(8) + LittleEndian(entry, 8) + Zeros(PAGE_SIZE - 24);
  }

  lemma FreshEntries(store: Store, page: nat, last: nat)
    requires page != last && page != 0
    ensures var store3 := WithField(WithField(Cleared(store, page), page, PREVIOUS, 8, last), last, NEXT, 8, page);
      && FreshListPage(store3, page, 0)
      && forall entry, store' :: FilePage(store', page) == FilePage(WithField(store3, page, Entry(0), 8, entry), page)
                                 ==> FreshListPage(store', page, entry)
  {
    hide LittleEndian, WithField, FilePage, Cleared;
    var store3 := WithField(WithField(Cleared(store, page), page, PREVIOUS, 8, last), last, NEXT, 8, page);
    FreshBytes(store, page, last, page, 0);
    forall entry, store' | FilePage(store', page) == FilePage(WithField(store3, page, Entry(0), 8, entry), page)
      ensures FreshListPage(store', page, entry)
    {
      FreshBytes(store, page, last, page, entry);
    }
  }

  lemma {:induction false} ZeroBytes(width: nat)
    ensures LittleEndian(0, width) == Zeros(width)
  {
    if width > 0 {
      ZeroBytes(width - 1);
    }
  }

  method PushEntry(t: Transaction, page: nat, order: nat, ghost v: View) returns (ghost v': View)
    requires SpaceOk(t.store, v) && order < ORDERS && Region(page, order) in v.alloc.live
    requires Count(t.store, order) < FPL_PAGE_CAPACITY
    modifies t
    ensures SpaceOk(t.store, v') && v' == v.(alloc := Push(v.alloc, page, order))
    ensures OnlyListChanged(old(t.store), t.store, v', order)
    ensures OtherListsSame(old(t.store), v, t.store, v', order)
  {
    hide SpaceOk, Field, FilePage, Push, Distinct, WithField, OtherMetaSame, LastFplPage, LastFplPageEntries;
    MetaOffsets(order);
    CurrentListPage(t.store, v, order);
    ghost var store := t.store;
    var n := Count(t.store, order);
    var fpl := Field(t.store, 0, LastFplPage(order), 8);
    t.WriteField(fpl, Entry(n), 8, page);
    ghost var store1 := t.store;
    FieldOnOtherPage(store, fpl, Entry(n), page);
    SameFields(store, store1, 0);
    t.WriteField(0, LastFplPageEntries(order), 4, Count(t.store, order) + 1);
    PushedIsOk(store, v, order, page, store1, t.store);
    v' := v.(alloc := Push(v.alloc, page, order));
    MetaSame(store, store1);
    Powers();
    MetaWrite(store1, order, LastFplPageEntries(order), 4, n + 1);
    OtherMetaCounts(store1, t.store, order);
    WrittenElsewhere(store, fpl, Entry(n), 8, page);
    WrittenElsewhere(store1, 0, LastFplPageEntries(order), 4, n + 1);
  }

  method MoveToNext(t: Transaction, page: nat, order: nat, ghost v: View) returns (ghost v': View)
    requires SpaceOk(t.store, v) && order < ORDERS && Region(page, order) in v.alloc.live
    requires Count(t.store, order) == FPL_PAGE_CAPACITY && v.chains[order].at + 1 < |v.chains[order].pages|
    modifies t
    ensures SpaceOk(t.store, v') && v'.alloc == Push(v.alloc, page, order)
    ensures |v'.chains| == ORDERS && v'.chains[order].pages == v.chains[order].pages
    ensures OnlyListChanged(old(t.store), t.store, v', order)
    ensures OtherListsSame(old(t.store), v, t.store, v', order)
    ensures var next := v.chains[order].pages[v.chains[order].at + 1];
      FilePage(t.store, next) == FilePage(WithField(old(t.store), next, Entry(0), 8, page), next)
  {
    hide SpaceOk, Field, FilePage, Push, Distinct, WithField, Count, OtherMetaSame, LastFplPage, LastFplPageEntries;
    MetaOffsets(order);
    CurrentListPage(t.store, v, order);
    ghost var store := t.store;
    var fpl := Field(t.store, 0, LastFplPage(order), 8);
    var next := Field(t.store, fpl, NEXT, 8);
    t.WriteField(next, Entry(0), 8, page);
    ghost var store1 := t.store;
    t.WriteField(0, LastFplPage(order), 8, next);
    ghost var store2 := t.store;
    t.WriteField(0, LastFplPageEntries(order), 4, 1);
    MovedIsOk(store, v, order, page, store1, store2, t.store);
    v' := View(v.chains[order := v.chains[order].(at := v.chains[order].at + 1)], Push(v.alloc, page, order));
    FieldOnOtherPage(store, next, Entry(0), page);
    MetaSame(store, store1);
    Powers();
    MetaWrite(store1, order, LastFplPage(order), 8, next);
    MetaWrite(store2, order, LastFplPageEntries(order), 4, 1);
    OtherMetaCounts(store1, store2, order);
    OtherMetaCounts(store2, t.store, order);
    WrittenElsewhere(store, next, Entry(0), 8, page);
    WrittenElsewhere(store1, 0, LastFplPage(order), 8, next);
    WrittenElsewhere(store2, 0, LastFplPageEntries(order), 4, 1);
  }

  method LinkPage(t: Transaction, page: nat, order: nat, ghost v: View) returns (ghost v': View)
    requires SpaceOk(t.store, v) && order < ORDERS && Region(page, 0) in v.alloc.live
    requires v.chains[order].at + 1 == |v.chains[order].pages|
    modifies t
    ensures SpaceOk(t.store, v') && v'.alloc == Listed(v.alloc, page, order)
    ensures var chain := v.chains[order]; v'.chains == v.chains[order := Chain(chain.pages + [page], chain.at)]
    ensures OnlyListChanged(old(t.store), t.store, v', order)
    ensures Count(t.store, order) == Count(old(t.store), order)
    ensures OtherListsSame(old(t.store), v, t.store, v', order)
    ensures FreshListPage(t.store, page, 0)
    ensures forall entry, store' :: FilePage(store', page) == FilePage(WithField(t.store, page, Entry(0), 8, entry), page)
                                    ==> FreshListPage(store', page, entry)
  {
    hide SpaceOk, Field, FilePage, Listed, Distinct, WithField, Cleared, EntriesSame, LinksSame;
    CurrentListPage(t.store, v, order);
    LiveIsUsed(t.store, v, page, 0);
    NotAListPage(t.store, v, order, page);
    Powers();
    ghost var store := t.store;
    var fpl := Field(t.store, 0, LastFplPage(order), 8);
    t.Clear(page);
    ghost var store1 := t.store;
    t.WriteField(page, PREVIOUS, 8, fpl);
    ghost var store2 := t.store;
    t.WriteField(fpl, NEXT, 8, page);
    FreshEntries(store, page, fpl);
    LinkedIsOk(store, v, order, page, store1, store2, t.store);
    LinkWrites(store, page, fpl, store1, store2, t.store);
    MetaSame(store, t.store);
    var chain := v.chains[order];
    v' := View(v.chains[order := Chain(chain.pages + [page], chain.at)], Listed(v.alloc, page, order));
    assert (chain.pages + [page])[|chain.pages|] == page && (chain.pages + [page])[chain.at] == fpl;
  }

  /** The lists of the other orders above 0 are as they were. */
  ghost predicate ListsBelow(store: Store, v: View, store': Store, v': View, order: nat) {
    && |v'.chains| == |v.chains| == ORDERS
    && forall o :: 0 < o < ORDERS && o != order ==> v'.chains[o] == v.chains[o] && Count(store', o) == Count(store, o)
  }

  /** A free onto a list without room takes a page for the list: the freed one, or for a bigger region a
      page of the pool, which gets that region for its first entry. Else the list pages stay the same. */
  ghost predicate TakesPage(v: View, store': Store, v': View, page: nat, order: nat, full: bool)
    requires order < ORDERS == |v.chains| == |v'.chains| == |v.alloc.free|
  {
    if !full then v'.chains[order].pages == v.chains[order].pages
    else if order == 0 then FreshListPage(store', page, 0)
    else FreshListPage(store', AllocatedPage(v.alloc, 0), page)
  }

  /** Returns a region to the free list of its order; false stands for the exception thrown for a
      reserved page. A list page that is full gets a successor first. */
  method FreeRegion(t: Transaction, page: nat, order: nat, ghost v: View) returns (ok: bool, ghost v': View)
    requires SpaceOk(t.store, v) && order <= MAX_SHIFT && v.alloc.next + 1 < U64_LIMIT
    requires page >= FIRST_PAGE ==> Region(page, order) in v.alloc.live
    modifies t
    ensures ok <==> page >= FIRST_PAGE
    ensures !ok ==> t.store == old(t.store) && v' == v
    ensures ok ==> SpaceOk(t.store, v')
    ensures ok ==> v'.alloc == Freed(v.alloc, page, order, ListIsFull(old(t.store), v, order))
    ensures ok ==> forall p :: p in v'.alloc.own && v'.alloc.own[p].Live? ==> FilePage(t.store, p) == FilePage(old(t.store), p)
    ensures ok ==> |v'.chains| == ORDERS && OnlyListChanged(old(t.store), t.store, v', order)
    ensures ok ==> ListsBelow(old(t.store), v, t.store, v', order)
    ensures ok ==> TakesPage(v, t.store, v', page, order, ListIsFull(old(t.store), v, order))
  {
    hide SpaceOk, Field, FilePage, Distinct, Push, Listed, Bump, Pop, Count;
    ok, v' := page >= FIRST_PAGE, v;
    if !ok {
      return;
    }
    ghost var store := t.store;
    CurrentListPage(t.store, v, order);
    if Count(t.store, order) < FPL_PAGE_CAPACITY {
      v' := PushEntry(t, page, order, v);
    } else {
      var fpl := Field(t.store, 0, LastFplPage(order), 8);
      if Field(t.store, fpl, NEXT, 8) == 0 {
        if order == 0 {
          v' := LinkPage(t, page, 0, v);
        } else {
          v' := LinkAllocated(t, page, order, v);
        }
      } else {
        v' := MoveToNext(t, page, order, v);
      }
    }
    CurrentListPage(t.store, v', order);
    LivePagesKept(store, t.store, v', order);
  }

  lemma OnePage()
    ensures Pow2(0) == 1
  {
  }

  lemma KeptChain(store: Store, v: View, store': Store, v': View, order: nat)
    requires 0 < order < ORDERS && KeepsOtherLists(store, v, store', v', 0)
    ensures v'.chains[order] == v.chains[order] && Count(store', order) == Count(store, order)
  {
  }

  /** The page handed out is live, and what was live still is. */
  lemma AllocatedIsLive(store: Store, v: View, store': Store, v': View)
    requires SpaceOk(store, v) && SpaceOk(store', v') && |v.alloc.free| == ORDERS && v'.alloc == Allocated(v.alloc, 0)
    ensures Region(AllocatedPage(v.alloc, 0), 0) in v'.alloc.live && v.alloc.live <= v'.alloc.live
  {
    hide SpaceOk;
  }

  lemma LinkAllocatedFrame(store: Store, v: View, store1: Store, v1: View, store2: Store, v2: View, store3: Store, v3: View,
                           order: nat, newPage: nat)
    requires 0 < order < ORDERS && KeepsOtherLists(store, v, store1, v1, 0) && HandsOut(store, store1, newPage, 0)
    requires OtherListsSame(store1, v1, store2, v2, order) && OtherListsSame(store2, v2, store3, v3, order)
    requires OnlyListChanged(store1, store2, v2, order) && OnlyListChanged(store2, store3, v3, order)
    requires v3.chains[order].pages == v2.chains[order].pages == v1.chains[order].pages + [newPage]
    ensures OnlyListChanged(store, store3, v3, order) && ListsBelow(store, v, store3, v3, order)
  {
    hide FilePage, Count;
    assert forall p :: InRegion(p, newPage, 0) ==> p == newPage;
  }

  method LinkAllocated(t: Transaction, page: nat, order: nat, ghost v: View) returns (ghost v': View)
    requires SpaceOk(t.store, v) && 0 < order < ORDERS && v.alloc.next + 1 < U64_LIMIT
    requires Region(page, order) in v.alloc.live && Count(t.store, order) == FPL_PAGE_CAPACITY
    requires v.chains[order].at + 1 == |v.chains[order].pages|
    modifies t
    ensures SpaceOk(t.store, v')
    ensures v'.alloc == Push(Listed(Allocated(v.alloc, 0), AllocatedPage(v.alloc, 0), order), page, order)
    ensures |v'.chains| == ORDERS && OnlyListChanged(old(t.store), t.store, v', order)
    ensures ListsBelow(old(t.store), v, t.store, v', order)
    ensures FreshListPage(t.store, AllocatedPage(v.alloc, 0), page)
  {
    hide SpaceOk, Field, FilePage, Distinct, Push, Count, FreshListPage, WithField, OnlyListChanged, HandsOut, Bump, Pop,
         KeepsOtherLists, OtherListsSame, ListsBelow, Pow2;
    ghost var store := t.store;
    CurrentListPage(store, v, order);
    OnePage();
    var newPage, v1 := Allocate(t, 0, v);
    ghost var store1 := t.store;
    CurrentListPage(store1, v1, order);
    KeptChain(store, v, store1, v1, order);
    AllocatedIsLive(store, v, store1, v1);
    var v2 := LinkPage(t, newPage, order, v1);
    ghost var store2 := t.store;
    assert v2.chains[order].pages[|v1.chains[order].pages|] == newPage;
    v' := MoveToNext(t, page, order, v2);
    LinkAllocatedFrame(store, v, store1, v1, store2, v2, t.store, v', order, newPage);
  }

  /** What a new database file starts with. */
  ghost function InitialView(): View {
    View(seq(ORDERS, o requires 0 <= o => Chain([o + 2], 0)),
         NewFile())
  }

  /** Sets up the meta page of a new, all-zero file. */
  method InitMeta(t: Transaction)
    requires forall p: nat :: FilePage(t.store, p) == ZERO_PAGE
    modifies t
    ensures SpaceOk(t.store, InitialView())
  {
    hide Field, FilePage;
    ghost var zero := t.store;
    Powers();
    MetaWrite(t.store, 0, NEXT_FREE_PAGE, 8, FIRST_PAGE);
    t.WriteField(0, NEXT_FREE_PAGE, 8, FIRST_PAGE);
    for o := 0 to ORDERS
      invariant Field(t.store, 0, NEXT_FREE_PAGE, 8) == FIRST_PAGE
      invariant forall k :: 0 <= k < o ==> Field(t.store, 0, LastFplPage(k), 8) == k + 2 && Count(t.store, k) == 0
      invariant forall p: nat :: p != 0 ==> FilePage(t.store, p) == ZERO_PAGE
    {
      MetaWrite(t.store, o, LastFplPage(o), 8, o + 2);
      t.WriteField(0, LastFplPage(o), 8, o + 2);
      MetaWrite(t.store, o, LastFplPageEntries(o), 4, 0);
      t.WriteField(0, LastFplPageEntries(o), 4, 0);
    }
    InitialIsOk(t.store);
  }

  lemma InitialIsOk(store: Store)
    requires Field(store, 0, NEXT_FREE_PAGE, 8) == FIRST_PAGE
    requires forall k :: 0 <= k < ORDERS ==> Field(store, 0, LastFplPage(k), 8) == k + 2 && Count(store, k) == 0
    requires forall p: nat :: p != 0 ==> FilePage(store, p) == ZERO_PAGE
    ensures SpaceOk(store, InitialView())
  {
    hide Field, FilePage, Count;
    var v := InitialView();
    forall o | 0 <= o < ORDERS ensures Represents(store, o, v.chains[o], v.alloc.free[o]) {
      FieldOfZero(store, o + 2, PREVIOUS, 8);
      FieldOfZero(store, o + 2, NEXT, 8);
      assert LinksTo(store, [o + 2], 0);
    }
  }
}
