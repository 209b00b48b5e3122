/** Who owns which page: the partition that allocating and freeing keep. */
module Ownership {
  import opened Basics

  const MAX_ORDER: nat := 38
  const ORDERS: nat := MAX_ORDER + 1
  /** Pages below this one are the meta page, the root, and the first list page of each order. */
  const FIRST_PAGE: nat := MAX_ORDER + 3

  function Pow2(n: nat): (p: nat)
    ensures p >= 1
  {
    if n == 0 then 1 else 2 * Pow2(n - 1)
  }

  /** A page belongs to a region in use, to a free region, or holds part of a free list itself. */
  datatype Owner =
    | Live(start: nat, order: nat)
    | Free(start: nat, order: nat)
    | List(order: nat)

  datatype Region = Region(start: nat, order: nat)

  /** `free` has the free regions of each order, most recently freed last; `lists` the pages taken
      from the pool to hold them. */
  datatype Allocator = Allocator(next: nat, live: set<Region>, free: seq<seq<nat>>, lists: seq<seq<nat>>, own: map<nat, Owner>)

  predicate InRegion(p: nat, start: nat, order: nat) {
    start <= p < start + Pow2(order)
  }

  function RegionPages(start: nat, order: nat): set<nat> {
    set p | start <= p < start + Pow2(order) && InRegion(p, start, order)
  }

  ghost predicate LiveOk(a: Allocator) {
    && (forall r, p :: r in a.live && InRegion(p, r.start, r.order) ==> p in a.own && a.own[p] == Live(r.start, r.order))
    && (forall p :: p in a.own && a.own[p].Live? ==>
          Region(a.own[p].start, a.own[p].order) in a.live && InRegion(p, a.own[p].start, a.own[p].order))
  }

  ghost predicate FreeOk(a: Allocator)
    requires |a.free| == ORDERS
  {
    && (forall o, i, p {:trigger InRegion(p, a.free[o][i], o)} ::
          0 <= o < ORDERS && 0 <= i < |a.free[o]| && InRegion(p, a.free[o][i], o) ==>
            p in a.own && a.own[p] == Free(a.free[o][i], o))
    && (forall p :: p in a.own && a.own[p].Free? ==>
          a.own[p].order < ORDERS && a.own[p].start in a.free[a.own[p].order] && InRegion(p, a.own[p].start, a.own[p].order))
    && (forall o :: 0 <= o < ORDERS ==> Distinct(a.free[o]))
  }

  ghost predicate ListsOk(a: Allocator)
    requires |a.lists| == ORDERS
  {
    && (forall o, i {:trigger a.lists[o][i]} :: 0 <= o < ORDERS && 0 <= i < |a.lists[o]| ==>
          a.lists[o][i] in a.own && a.own[a.lists[o][i]] == List(o))
    && (forall p :: p in a.own && a.own[p].List? ==> a.own[p].order < ORDERS && p in a.lists[a.own[p].order])
    && (forall o :: 0 <= o < ORDERS ==> Distinct(a.lists[o]))
  }

  /** Every page handed out so far has exactly one owner, and the owners are the live regions, the
      free regions and the list pages. */
  ghost predicate Partition(a: Allocator) {
    && |a.free| == |a.lists| == ORDERS
    && a.next >= FIRST_PAGE
    && (forall p :: p in a.own <==> FIRST_PAGE <= p < a.next)
    && LiveOk(a) && FreeOk(a) && ListsOk(a)
  }

  ghost function Painted(own: map<nat, Owner>, start: nat, order: nat, owner: Owner): map<nat, Owner> {
    map p | p in own.Keys + RegionPages(start, order) :: if InRegion(p, start, order) then owner else own[p]
  }

  /** A region taken from the unused end of the file. */
  ghost function Bump(a: Allocator, order: nat): Allocator {
    Allocator(a.next + Pow2(order), a.live + {Region(a.next, order)}, a.free, a.lists,
              Painted(a.own, a.next, order, Live(a.next, order)))
  }

  function Top(a: Allocator, order: nat): nat
    requires order < |a.free| && a.free[order] != []
  {
    a.free[order][|a.free[order]| - 1]
  }

  /** The most recently freed region of its order is handed out again. */
  ghost function Pop(a: Allocator, order: nat): Allocator
    requires order < |a.free| && a.free[order] != []
  {
    var start := Top(a, order);
    a.(live := a.live + {Region(start, order)},
       free := a.free[order := a.free[order][..|a.free[order]| - 1]],
       own := Painted(a.own, start, order, Live(start, order)))
  }

  ghost function Push(a: Allocator, start: nat, order: nat): Allocator
    requires order < |a.free|
  {
    a.(live := a.live - {Region(start, order)},
       free := a.free[order := a.free[order] + [start]],
       own := Painted(a.own, start, order, Free(start, order)))
  }

  /** A live page becomes a page of the free list of `order`. */
  ghost function Listed(a: Allocator, page: nat, order: nat): Allocator
    requires order < |a.lists|
  {
    a.(live := a.live - {Region(page, 0)},
       lists := a.lists[order := a.lists[order] + [page]],
       own := a.own[page := List(order)])
  }

  lemma BumpKeepsPartition(a: Allocator, order: nat)
    requires Partition(a)
    ensures Partition(Bump(a, order))
  {
  }

  lemma PopKeepsPartition(a: Allocator, order: nat)
    requires Partition(a) && order < ORDERS && a.free[order] != []
    ensures Partition(Pop(a, order))
  {
  }

  lemma PushKeepsPartition(a: Allocator, start: nat, order: nat)
    requires Partition(a) && order < ORDERS && Region(start, order) in a.live
    ensures Partition(Push(a, start, order))
  {
    hide FreeOk, Distinct;
    LiveRegionIsOwned(a, start, order);
    PushKeepsFree(a, start, order);
  }

  lemma LiveRegionIsOwned(a: Allocator, start: nat, order: nat)
    requires Partition(a) && Region(start, order) in a.live
    ensures forall p :: InRegion(p, start, order) ==> p in a.own && a.own[p] == Live(start, order)
    ensures InRegion(start, start, order) && FIRST_PAGE <= start && start + Pow2(order) <= a.next
  {
    var r := Region(start, order);
    assert InRegion(start, r.start, r.order) && InRegion(start + Pow2(order) - 1, r.start, r.order);
    assert forall p :: InRegion(p, r.start, r.order) ==> p in a.own && a.own[p] == Live(start, order);
  }

  lemma LiveIsNotFree(a: Allocator, start: nat, order: nat)
    requires Partition(a) && order < ORDERS && Region(start, order) in a.live
    ensures start !in a.free[order]
  {
    LiveRegionIsOwned(a, start, order);
    assert forall i :: 0 <= i < |a.free[order]| ==> InRegion(a.free[order][i], a.free[order][i], order);
  }

  lemma PushKeepsFree(a: Allocator, start: nat, order: nat)
    requires Partition(a) && order < ORDERS && Region(start, order) in a.live
    ensures FreeOk(Push(a, start, order))
  {
    hide ListsOk, Distinct;
    LiveRegionIsOwned(a, start, order);
    LiveIsNotFree(a, start, order);
    var a' := Push(a, start, order);
    DistinctPush(a.free[order], start);
    assert forall o, i :: 0 <= o < ORDERS && 0 <= i < |a.free[o]| ==> a'.free[o][i] == a.free[o][i];
    assert a'.free[order][|a.free[order]|] == start;
    forall p | p in a'.own && a'.own[p].Free?
      ensures a'.own[p].order < ORDERS && a'.own[p].start in a'.free[a'.own[p].order] && InRegion(p, a'.own[p].start, a'.own[p].order)
    {
      if !InRegion(p, start, order) {
        InPushed(a.free[order], start, a.own[p].start);
      }
    }
  }

  lemma InPushed(s: seq<nat>, last: nat, x: nat)
    ensures x in s ==> x in s + [last]
  {
  }

  lemma DistinctPush(s: seq<nat>, x: nat)
    requires Distinct(s) && x !in s
    ensures Distinct(s + [x])
  {
  }

  lemma ListedKeepsPartition(a: Allocator, page: nat, order: nat)
    requires Partition(a) && order < ORDERS && Region(page, 0) in a.live
    ensures Partition(Listed(a, page, order))
  {
    var r := Region(page, 0);
    assert InRegion(page, r.start, r.order);
    assert page in a.own && a.own[page] == Live(page, 0);
    assert forall p :: InRegion(p, page, 0) ==> p == page;
    ListedKeepsLists(a, page, order);
  }

  lemma ListedKeepsLists(a: Allocator, page: nat, order: nat)
    requires Partition(a) && order < ORDERS && page in a.own && a.own[page] == Live(page, 0)
    ensures ListsOk(Listed(a, page, order))
  {
    hide LiveOk, FreeOk;
    var a' := Listed(a, page, order);
    assert page !in a.lists[order];
    assert forall o, i :: 0 <= o < ORDERS && 0 <= i < |a.lists[o]| ==> a'.lists[o][i] == a.lists[o][i];
    assert a'.lists[order][|a.lists[order]|] == page;
  }

  /** The partition, page by page: every page handed out lies in a live region, in a free region or
      in a free list, in only one of these, and in only one region. */
  lemma EveryPageHasOneOwner(a: Allocator, p: nat)
    requires Partition(a) && FIRST_PAGE <= p < a.next
    ensures var live := exists r :: r in a.live && InRegion(p, r.start, r.order);
      var free := exists o, i :: 0 <= o < ORDERS && 0 <= i < |a.free[o]| && InRegion(p, a.free[o][i], o);
      var list := exists o :: 0 <= o < ORDERS && p in a.lists[o];
      (live && !free && !list) || (!live && free && !list) || (!live && !free && list)
    ensures forall r, r' :: r in a.live && r' in a.live && InRegion(p, r.start, r.order) && InRegion(p, r'.start, r'.order) ==> r == r'
    ensures forall o, i, o', i' ::
              (&& 0 <= o < ORDERS && 0 <= i < |a.free[o]| && InRegion(p, a.free[o][i], o)
               && 0 <= o' < ORDERS && 0 <= i' < |a.free[o']| && InRegion(p, a.free[o'][i'], o'))
              ==> o == o' && i == i'
  {
    match a.own[p]
    case Live(s, o) =>
      assert Region(s, o) in a.live && InRegion(p, s, o);
    case Free(s, o) =>
      var i :| 0 <= i < |a.free[o]| && a.free[o][i] == s;
      assert InRegion(p, a.free[o][i], o);
    case List(o) =>
      assert p in a.lists[o];
  }

  /** Freeing a region and allocating one of its order gives the same region, and the state, back. */
  lemma FreeThenAllocate(a: Allocator, start: nat, order: nat)
    requires Partition(a) && order < ORDERS && Region(start, order) in a.live
    ensures var a' := Push(a, start, order); Top(a', order) == start && Pop(a', order) == a
  {
    hide FreeOk, ListsOk;
    LiveRegionIsOwned(a, start, order);
    var a' := Push(a, start, order);
    assert a'.free[order][..|a'.free[order]| - 1] == a.free[order];
    assert a'.free[order := a.free[order]] == a.free;
    assert a'.live + {Region(start, order)} == a.live;
    assert Pop(a', order).own == a.own;
  }

  ghost function Allocated(a: Allocator, order: nat): Allocator
    requires order < |a.free|
  {
    if a.free[order] == [] then Bump(a, order) else Pop(a, order)
  }

  ghost function AllocatedPage(a: Allocator, order: nat): nat
    requires order < |a.free|
  {
    if a.free[order] == [] then a.next else Top(a, order)
  }

  /** What a free does: it pushes the region; when the list has no room, a page is linked to it
      first, and for single pages that page is the freed one itself, which is then not pushed. */
  ghost function Freed(a: Allocator, start: nat, order: nat, full: bool): Allocator
    requires |a.free| == |a.lists| == ORDERS && order < ORDERS
  {
    if !full then Push(a, start, order)
    else if order == 0 then Listed(a, start, 0)
    else Push(Listed(Allocated(a, 0), AllocatedPage(a, 0), order), start, order)
  }

  lemma AllocatedKeepsPartition(a: Allocator, order: nat)
    requires Partition(a) && order < ORDERS
    ensures Partition(Allocated(a, order))
    ensures Region(AllocatedPage(a, order), order) in Allocated(a, order).live
    ensures Region(AllocatedPage(a, order), order) !in a.live
  {
    hide LiveOk, FreeOk, ListsOk;
    if a.free[order] == [] {
      BumpKeepsPartition(a, order);
      if Region(a.next, order) in a.live {
        LiveRegionIsOwned(a, a.next, order);
      }
    } else {
      PopKeepsPartition(a, order);
      if Region(Top(a, order), order) in a.live {
        LiveIsNotFree(a, Top(a, order), order);
      }
    }
  }

  lemma FreedKeepsPartition(a: Allocator, start: nat, order: nat, full: bool)
    requires Partition(a) && order < ORDERS && Region(start, order) in a.live
    ensures Partition(Freed(a, start, order, full))
    ensures Freed(a, start, order, full).live == a.live - {Region(start, order)}
  {
    hide LiveOk, FreeOk, ListsOk;
    if !full {
      PushKeepsPartition(a, start, order);
    } else if order == 0 {
      ListedKeepsPartition(a, start, 0);
    } else {
      AllocatedKeepsPartition(a, 0);
      ListedKeepsPartition(Allocated(a, 0), AllocatedPage(a, 0), order);
      PushKeepsPartition(Listed(Allocated(a, 0), AllocatedPage(a, 0), order), start, order);
    }
  }

  // ---- runs ----

  /** What a client asks for. A free says whether the list of its order had no room. */
  datatype Request = Take(order: nat) | Return(start: nat, order: nat, full: bool)

  ghost predicate Valid(a: Allocator, r: Request) {
    match r
    case Take(order) => order < ORDERS
    case Return(start, order, _) => order < ORDERS && Region(start, order) in a.live
  }

  ghost function Served(a: Allocator, r: Request): Allocator
    requires Partition(a) && Valid(a, r)
  {
    match r
    case Take(order) => Allocated(a, order)
    case Return(start, order, full) => Freed(a, start, order, full)
  }

  ghost predicate Serves(states: seq<Allocator>, requests: seq<Request>, i: nat)
    requires i < |requests| && |states| == |requests| + 1
  {
    Partition(states[i]) ==> Valid(states[i], requests[i]) && states[i + 1] == Served(states[i], requests[i])
  }

  function NewFile(): Allocator {
    Allocator(FIRST_PAGE, {}, seq(ORDERS, _ => []), seq(ORDERS, _ => []), map[])
  }

  /** After any run of allocations and valid frees on a new file, the pages handed out so far are
      partitioned into live regions, free regions and list pages. */
  lemma {:induction false} RunsKeepPartition(states: seq<Allocator>, requests: seq<Request>, n: nat)
    requires |states| == |requests| + 1 && states[0] == NewFile() && n < |states|
    requires forall i :: 0 <= i < |requests| ==> Serves(states, requests, i)
    ensures Partition(states[n])
  {
    hide Partition, Allocated, Freed;
    if n == 0 {
      NewFileIsPartitioned();
    } else {
      RunsKeepPartition(states, requests, n - 1);
      assert Serves(states, requests, n - 1);
      ServedKeepsPartition(states[n - 1], requests[n - 1]);
    }
  }

  lemma NewFileIsPartitioned()
    ensures Partition(NewFile())
  {
  }

  lemma ServedKeepsPartition(a: Allocator, r: Request)
    requires Partition(a) && Valid(a, r)
    ensures Partition(Served(a, r))
  {
    hide Partition, Allocated, Freed;
    match r {
      case Take(order) => AllocatedKeepsPartition(a, order);
      case Return(start, order, full) => FreedKeepsPartition(a, start, order, full);
    }
  }
}
