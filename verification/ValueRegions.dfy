/** How the chain of regions of a value grows before a write, and how it is given back. */
module ValueRegions {
  import opened Bytes
  import opened BufferPool
  import opened Pages
  import opened Ownership
  import opened SpaceManager
  import opened BigValue

  /** The sum of all regions of a value, closed: the first page without its header, and 2, 4, 8, ...
      pages of which each first one starts with a link. */
  lemma {:induction false} ChainSizeClosed(k: nat, v: nat)
    requires v < CAPACITY
    ensures ChainSize(k + 1, v) == CAPACITY - v + PAGE_SIZE * (Pow2(k + 1) - 2) - LINK_SIZE * k
  {
    if k == 0 {
      assert Pow2(1) == 2 && ChainSize(0, v) == 0;
      assert ChainSize(1, v) == RegionSize(0, v);
    } else {
      ChainSizeClosed(k - 1, v);
    }
  }

  /** How many regions beyond the first an entry of the given size needs: the least number that holds it. */
  method RequiredContinuationRegions(entrySize: nat) returns (result: nat)
    requires entrySize <= ChainSize(MAX_SHIFT + 1, 0)
    ensures ChainSize(result + 1, 0) >= entrySize
    ensures forall k :: 1 <= k <= result ==> ChainSize(k, 0) < entrySize
    ensures result <= MAX_SHIFT
  {
    hide ChainSize, Pow2;
    result := 0;
    var capacity := CAPACITY;
    ChainSizeClosed(0, 0);
    Pow2Doubles(0);
    while capacity < entrySize
      invariant capacity == ChainSize(result + 1, 0)
      invariant forall k :: 1 <= k <= result ==> ChainSize(k, 0) < entrySize
      invariant result <= MAX_SHIFT
      decreases entrySize - capacity
    {
      NotMoreThan(result + 1, entrySize, MAX_SHIFT + 1);
      ChainSizeClosed(result, 0);
      ChainSizeClosed(result + 1, 0);
      Pow2Doubles(result + 1);
      var pagesInNextRegion := Pow2(result + 1);
      capacity := capacity + pagesInNextRegion * PAGE_SIZE - LINK_SIZE;
      result := result + 1;
    }
  }

  // ---- regions in use ----

  /** The regions are in use, and region `i` has order `i`. */
  ghost predicate Owned(a: Allocator, regions: seq<nat>) {
    forall i :: 0 <= i < |regions| ==> Region(regions[i], i) in a.live
  }

  lemma LiveRegionsDoNotMeet(a: Allocator, r: Region, r': Region, p: nat)
    requires Partition(a) && r in a.live && r' in a.live && InRegion(p, r.start, r.order) && InRegion(p, r'.start, r'.order)
    ensures r == r'
  {
    hide FreeOk, ListsOk;
    assert a.own[p] == Live(r.start, r.order);
    assert a.own[p] == Live(r'.start, r'.order);
  }

  lemma OwnedDoNotOverlap(a: Allocator, regions: seq<nat>)
    requires Partition(a) && Owned(a, regions)
    ensures NoOverlap(regions)
  {
    hide Partition;
    forall i, j, p | 0 <= i < |regions| && 0 <= j < |regions| && InRegion(p, regions[i], i) && InRegion(p, regions[j], j)
      ensures i == j
    {
      LiveRegionsDoNotMeet(a, Region(regions[i], i), Region(regions[j], j), p);
    }
  }

  /** What an allocation adds is one region, which met no other. */
  lemma AllocatedLive(a: Allocator, order: nat)
    requires Partition(a) && order < ORDERS
    ensures var page := AllocatedPage(a, order);
      && Allocated(a, order).live == a.live + {Region(page, order)}
      && FIRST_PAGE <= page
      && forall r, p :: r in a.live && InRegion(p, r.start, r.order) ==> !InRegion(p, page, order)
  {
    hide FreeOk, ListsOk, InRegion;
    if a.free[order] != [] {
      FreeRegionOwned(a, order, |a.free[order]| - 1);
    } else {
      UnusedIsOwned(a, order);
    }
    var page := AllocatedPage(a, order);
    forall r, p | r in a.live && InRegion(p, r.start, r.order) ensures !InRegion(p, page, order) {
      assert p in a.own && a.own[p] == Live(r.start, r.order);
    }
  }

  lemma UnusedIsOwned(a: Allocator, order: nat)
    requires Partition(a)
    ensures forall p :: InRegion(p, a.next, order) ==> p !in a.own
  {
  }

  predicate LivePage(a: Allocator, p: nat) {
    p in a.own && a.own[p].Live?
  }

  /** Writing to pages of live regions does not touch what the allocator keeps in the file. */
  lemma LiveWritesKeepSpace(store: Store, store': Store, v: View)
    requires SpaceOk(store, v)
    requires forall p: nat :: FilePage(store', p) == FilePage(store, p) || LivePage(v.alloc, p)
    ensures SpaceOk(store', v)
  {
    hide Represents, Field, FilePage, Count, LiveOk, FreeOk, ListsOk;
    forall o, i | 0 <= o < ORDERS && 0 <= i < |v.chains[o].pages|
      ensures FilePage(store', v.chains[o].pages[i]) == FilePage(store, v.chains[o].pages[i])
    {
      var p := v.chains[o].pages[i];
      if LivePage(v.alloc, p) {
        NotAListPage(store, v, o, p);
      }
    }
    MetaSame(store, store');
    OthersRepresented(store, store', v, -1);
  }

  /** A later allocator, with every region that was live still live. */
  lemma StaysLive(a: Allocator, a': Allocator, p: nat)
    requires Partition(a) && Partition(a') && a.live <= a'.live && LivePage(a, p)
    ensures LivePage(a', p)
  {
    var r := Region(a.own[p].start, a.own[p].order);
    assert r in a'.live && InRegion(p, r.start, r.order);
  }

  /** Pages that were live keep their bytes, but for the links of the regions. */
  ghost predicate OnlyLinksChanged(store: Store, store': Store, a: Allocator, regions: seq<nat>) {
    forall p: nat :: LivePage(a, p) ==>
      && FilePage(store', p)[LINK_SIZE..] == FilePage(store, p)[LINK_SIZE..]
      && (p !in regions ==> FilePage(store', p) == FilePage(store, p))
  }

  /** One more region behind the last one: the value grows by zeros. */
  lemma LinkedValue(store: Store, mid: Store, regions: seq<nat>, page: nat, v: nat)
    requires v < CAPACITY && Chained(store, regions) && |regions| < MAX_REGIONS && 0 < page < Pow256(8)
    requires HandsOut(store, mid, page, |regions|) && NoOverlap(regions + [page])
    ensures var store' := WithField(mid, regions[|regions| - 1], 0, LINK_SIZE, page);
      && Chained(store', regions + [page])
      && Value(store', regions + [page], v) == Value(store, regions, v) + Zeros(RegionSize(|regions|, v))
  {
    hide ChainSize, PlaceOf, Field, FilePage, ValueByte, NoOverlap, HandsOut, WithField;
    var n, last := |regions|, regions[|regions| - 1];
    var store' := WithField(mid, last, 0, LINK_SIZE, page);
    LinkedChain(store, mid, regions, page);
    ChainSizeStep(n, v);
    var value, value' := Value(store, regions, v), Value(store', regions + [page], v);
    forall x: nat | x < ChainSize(n + 1, v) ensures value'[x] == (value + Zeros(RegionSize(n, v)))[x] {
      PlaceInChain(x, n, v);
      if x < ChainSize(n, v) {
        OldByte(store, mid, regions, page, x, v);
      } else {
        NewByte(store, mid, regions, page, x, v);
      }
    }
  }

  lemma ChainSizeStep(n: nat, v: nat)
    requires v < CAPACITY
    ensures ChainSize(n + 1, v) == ChainSize(n, v) + RegionSize(n, v)
  {
  }

  lemma LinkedChain(store: Store, mid: Store, regions: seq<nat>, page: nat)
    requires Chained(store, regions) && |regions| < MAX_REGIONS && 0 < page < Pow256(8)
    requires HandsOut(store, mid, page, |regions|) && NoOverlap(regions + [page])
    ensures Chained(WithField(mid, regions[|regions| - 1], 0, LINK_SIZE, page), regions + [page])
  {
    hide Field, FilePage, Pow256, Pow2, WithField;
    var n, last := |regions|, regions[|regions| - 1];
    var store', regions' := WithField(mid, last, 0, LINK_SIZE, page), regions + [page];
    FieldOfWritten(mid, last, 0, LINK_SIZE, page);
    WrittenElsewhere(mid, last, 0, LINK_SIZE, page);
    forall i | 0 <= i <= n ensures LinkOf(store', regions', i) {
      assert InRegion(regions'[i], regions'[i], i) by { assert Pow2(i) >= 1; }
      assert InRegion(last, regions'[n - 1], n - 1) by { assert Pow2(n - 1) >= 1; }
      if i < n {
        assert LinkOf(store, regions, i);
        assert !InRegion(regions[i], page, n) by { assert InRegion(regions[i], regions'[n], n) ==> i == n; }
        SameFields(store, mid, regions[i]);
      } else {
        FieldOfZero(mid, page, 0, LINK_SIZE);
      }
    }
  }

  lemma OldByte(store: Store, mid: Store, regions: seq<nat>, page: nat, x: nat, v: nat)
    requires v < CAPACITY && Chained(store, regions) && HandsOut(store, mid, page, |regions|) && NoOverlap(regions + [page])
    requires PlaceOf(x, v).region < |regions|
    ensures ValueByte(WithField(mid, regions[|regions| - 1], 0, LINK_SIZE, page), regions + [page], x, v)
         == ValueByte(store, regions, x, v)
  {
    hide PlaceOf, Pow2, FilePage, WithField, Field;
    var n, last, p := |regions|, regions[|regions| - 1], PlaceOf(x, v);
    var regions' := regions + [page];
    PlaceIsInRegion(x, regions, v);
    var q := regions[p.region] + p.at / PAGE_SIZE;
    assert InRegion(q, regions'[p.region], p.region);
    assert !InRegion(q, page, n) by { assert InRegion(q, regions'[n], n) ==> p.region == n; }
    assert InRegion(last, regions'[n - 1], n - 1) by { assert Pow2(n - 1) >= 1; }
    assert q == last ==> p.region == n - 1 && p.at / PAGE_SIZE == 0;
    assert FilePage(mid, q) == FilePage(store, q);
    ByteBehindLink(mid, last, page, q, p.at % PAGE_SIZE);
  }

  lemma ByteBehindLink(store: Store, page: nat, link: nat, q: nat, at: nat)
    requires at < PAGE_SIZE && (q == page ==> at >= LINK_SIZE)
    ensures FilePage(WithField(store, page, 0, LINK_SIZE, link), q)[at] == FilePage(store, q)[at]
  {
  }

  lemma NewByte(store: Store, mid: Store, regions: seq<nat>, page: nat, x: nat, v: nat)
    requires v < CAPACITY && Chained(store, regions) && HandsOut(store, mid, page, |regions|) && NoOverlap(regions + [page])
    requires PlaceOf(x, v).region == |regions| && page > 0
    ensures ValueByte(WithField(mid, regions[|regions| - 1], 0, LINK_SIZE, page), regions + [page], x, v) == 0
  {
    hide PlaceOf, Pow2, LittleEndian, FilePage, WithField;
    var n, last, p := |regions|, regions[|regions| - 1], PlaceOf(x, v);
    var regions' := regions + [page];
    PlaceIsInRegion(x, regions', v);
    var q := page + p.at / PAGE_SIZE;
    assert InRegion(last, regions'[n - 1], n - 1) by { assert Pow2(n - 1) >= 1; }
    assert q != last by { assert InRegion(q, regions'[n], n); }
    assert q != 0 && FilePage(mid, q) == ZERO_PAGE;
    ByteBehindLink(mid, last, page, q, p.at % PAGE_SIZE);
  }

  /** The regions from number `from` on. */
  ghost function RegionSet(regions: seq<nat>, from: nat): set<Region> {
    set i | from <= i < |regions| :: Region(regions[i], i)
  }

  /** `regions'` extends `regions`: the old value is a prefix of the new one, the rest is zero; the
      new regions are the only new live ones; and of the pages in use only links were written. */
  ghost predicate Grown(store: Store, a: Allocator, regions: seq<nat>, store': Store, a': Allocator,
                        regions': seq<nat>, v: nat)
    requires v < CAPACITY
  {
    && regions <= regions' && ChainSize(|regions|, v) <= ChainSize(|regions'|, v)
    && Value(store', regions', v)
       == Value(store, regions, v) + Zeros(ChainSize(|regions'|, v) - ChainSize(|regions|, v))
    && a'.live == a.live + RegionSet(regions', |regions|)
    && OnlyLinksChanged(store, store', a, regions)
    && (forall i :: |regions| <= i < |regions'| ==> !LivePage(a, regions'[i]))
  }

  lemma GrownReflexive(store: Store, a: Allocator, regions: seq<nat>, v: nat)
    requires v < CAPACITY
    ensures Grown(store, a, regions, store, a, regions, v)
  {
    hide ChainSize, FilePage, ValueByte;
    assert Zeros(0) == [];
    assert RegionSet(regions, |regions|) == {};
  }

  lemma RegionSetSnoc(regions: seq<nat>, page: nat, from: nat)
    requires from <= |regions|
    ensures RegionSet(regions + [page], from) == RegionSet(regions, from) + {Region(page, |regions|)}
  {
    var regions' := regions + [page];
    forall r | r in RegionSet(regions, from) + {Region(page, |regions|)} ensures r in RegionSet(regions', from) {
      assert r.start == regions'[r.order];
    }
    forall r | r in RegionSet(regions', from) ensures r in RegionSet(regions, from) + {Region(page, |regions|)} {
      assert r.order < |regions| ==> regions[r.order] == regions'[r.order];
    }
  }

  /** What one allocation and the write of the link to it do. */
  lemma GrownByOne(store: Store, v: View, regions: seq<nat>, mid: Store, v': View, offset: nat)
    requires SpaceOk(store, v) && Chained(store, regions) && Owned(v.alloc, regions)
    requires |regions| < MAX_REGIONS < ORDERS == |v.alloc.free|
    requires offset < CAPACITY && SpaceOk(mid, v') && v'.alloc == Allocated(v.alloc, |regions|)
    requires HandsOut(store, mid, AllocatedPage(v.alloc, |regions|), |regions|)
    ensures var page := AllocatedPage(v.alloc, |regions|);
      var store' := WithField(mid, regions[|regions| - 1], 0, LINK_SIZE, page);
      && SpaceOk(store', v') && Chained(store', regions + [page]) && Owned(v'.alloc, regions + [page])
      && Grown(store, v.alloc, regions, store', v'.alloc, regions + [page], offset)
  {
    hide SpaceOk, FilePage, Field, ChainSize, Pow2, Partition, Bump, Pop, WithField, HandsOut, Value, LivePage, OnlyLinksChanged;
    var n, last, page := |regions|, regions[|regions| - 1], AllocatedPage(v.alloc, |regions|);
    var store', regions' := WithField(mid, last, 0, LINK_SIZE, page), regions + [page];
    SpaceParts(store, v, 0);
    SpaceParts(mid, v', 0);
    AllocatedLive(v.alloc, n);
    assert Region(page, n) in v'.alloc.live;
    OwnedDoNotOverlap(v'.alloc, regions');
    LiveIsUsed(mid, v', page, n);
    LinkedValue(store, mid, regions, page, offset);
    ChainSizeStep(n, offset);
    RegionSetSnoc(regions, page, n);
    assert RegionSet(regions, n) == {};
    LastIsLive(v'.alloc, regions');
    assert regions'[n - 1] == last && LivePage(v'.alloc, last);
    LinkWritten(mid, last, page);
    LiveWritesKeepSpace(mid, store', v');
    FreshAllocation(store, v, mid, n);
    GrownFrame(store, mid, v.alloc, regions, page);
  }

  lemma LastIsLive(a: Allocator, regions: seq<nat>)
    requires Partition(a) && Owned(a, regions)
    ensures forall i :: 0 <= i < |regions| ==> LivePage(a, regions[i])
  {
    hide Partition, LivePage;
    forall i | 0 <= i < |regions| ensures LivePage(a, regions[i]) {
      StartIsLive(a, regions[i], i);
    }
  }

  lemma StartIsLive(a: Allocator, start: nat, order: nat)
    requires Partition(a) && Region(start, order) in a.live
    ensures LivePage(a, start)
  {
    LiveRegionIsOwned(a, start, order);
  }

  lemma LinkWritten(store: Store, page: nat, link: nat)
    ensures var store' := WithField(store, page, 0, LINK_SIZE, link);
      && FilePage(store', page)[LINK_SIZE..] == FilePage(store, page)[LINK_SIZE..]
      && forall p: nat :: p != page ==> FilePage(store', p) == FilePage(store, p)
  {
  }

  /** No page that was live lies in a region that is handed out. */
  lemma FreshAllocation(store: Store, v: View, mid: Store, order: nat)
    requires Partition(v.alloc) && order < ORDERS
    requires HandsOut(store, mid, AllocatedPage(v.alloc, order), order)
    ensures !LivePage(v.alloc, AllocatedPage(v.alloc, order))
    ensures forall p :: LivePage(v.alloc, p) ==> FilePage(mid, p) == FilePage(store, p)
  {
    hide FilePage, ListsOk, FreeOk;
    var page := AllocatedPage(v.alloc, order);
    AllocatedLive(v.alloc, order);
    forall p | LivePage(v.alloc, p) ensures !InRegion(p, page, order) {
      var r := Region(v.alloc.own[p].start, v.alloc.own[p].order);
      assert r in v.alloc.live && InRegion(p, r.start, r.order);
    }
    assert Pow2(order) >= 1;
    assert InRegion(page, page, order);
  }

  lemma GrownFrame(store: Store, mid: Store, a: Allocator, regions: seq<nat>, page: nat)
    requires regions != [] && forall p :: LivePage(a, p) ==> FilePage(mid, p) == FilePage(store, p)
    ensures OnlyLinksChanged(store, WithField(mid, regions[|regions| - 1], 0, LINK_SIZE, page), a, regions)
  {
    LinkWritten(mid, regions[|regions| - 1], page);
    hide FilePage, WithField;
  }

  lemma GrownTwice(store: Store, a: Allocator, regions: seq<nat>, store1: Store, a1: Allocator, regions1: seq<nat>,
                   store2: Store, a2: Allocator, regions2: seq<nat>, v: nat)
    requires v < CAPACITY && Partition(a) && Partition(a1)
    requires Grown(store, a, regions, store1, a1, regions1, v) && Grown(store1, a1, regions1, store2, a2, regions2, v)
    ensures Grown(store, a, regions, store2, a2, regions2, v)
  {
    hide FilePage, ChainSize, Partition, Value, LivePage;
    forall p: nat | LivePage(a, p)
      ensures FilePage(store2, p)[LINK_SIZE..] == FilePage(store, p)[LINK_SIZE..]
      ensures p !in regions ==> FilePage(store2, p) == FilePage(store, p)
    {
      StaysLive(a, a1, p);
    }
    assert forall i :: 0 <= i < |regions1| ==> regions2[i] == regions1[i];
    forall i | |regions| <= i < |regions2| ensures !LivePage(a, regions2[i]) {
      if LivePage(a, regions2[i]) {
        StaysLive(a, a1, regions2[i]);
      }
    }
    ZerosConcat(ChainSize(|regions1|, v) - ChainSize(|regions|, v), ChainSize(|regions2|, v) - ChainSize(|regions1|, v));
    RegionSetTwice(regions1, regions2, |regions|);
  }

  lemma ZerosConcat(m: nat, n: nat)
    ensures Zeros(m) + Zeros(n) == Zeros(m + n)
  {
  }

  lemma RegionSetTwice(regions: seq<nat>, regions': seq<nat>, from: nat)
    requires regions <= regions' && from <= |regions|
    ensures RegionSet(regions', from) == RegionSet(regions, from) + RegionSet(regions', |regions|)
  {
    forall r | r in RegionSet(regions, from) ensures r in RegionSet(regions', from) {
      assert r.start == regions'[r.order];
    }
    forall r | r in RegionSet(regions', from) ensures r in RegionSet(regions, from) + RegionSet(regions', |regions|) {
      assert r.order < |regions| ==> regions[r.order] == regions'[r.order];
    }
  }

  lemma {:induction false} Pow2Monotone(m: nat, n: nat)
    requires m <= n
    ensures Pow2(m) <= Pow2(n)
  {
    if m < n {
      Pow2Monotone(m, n - 1);
    }
  }

  /** The file has room for a chain of the greatest length. */
  predicate HasSpace(a: Allocator) {
    a.next + Pow2(MAX_REGIONS) < U64_LIMIT
  }

  /** A value in use: its chain of live regions, and a consistent allocator. */
  ghost predicate Stored(store: Store, v: View, regions: seq<nat>) {
    SpaceOk(store, v) && Chained(store, regions) && Owned(v.alloc, regions)
  }

  /** The region after the one of order `order - 1` that starts at `prev`, allocated when there is none. */
  method NextOrAllocate(t: Transaction, prev: nat, order: nat, ghost regions: seq<nat>, ghost v: View,
                        ghost offset: nat)
    returns (next: nat, ghost regions': seq<nat>, ghost v': View)
    requires Stored(t.store, v, regions) && 0 < order <= |regions| && order < MAX_REGIONS && prev == regions[order - 1]
    requires v.alloc.next + Pow2(order) < U64_LIMIT && offset < CAPACITY
    modifies t
    ensures Stored(t.store, v', regions') && Grown(old(t.store), v.alloc, regions, t.store, v'.alloc, regions', offset)
    ensures |regions'| == (if order < |regions| then |regions| else order + 1) && next == regions'[order]
    ensures v'.alloc.next <= v.alloc.next + Pow2(order) && (order < |regions| ==> v' == v)
  {
    hide SpaceOk, Field, FilePage, Grown, NoOverlap, InRegion, Owned, Pow2, HandsOut;
    assert LinkOf(t.store, regions, order - 1);
    next, regions', v' := Field(t.store, prev, 0, LINK_SIZE), regions, v;
    GrownReflexive(t.store, v.alloc, regions, offset);
    if next == 0 {
      ghost var store := t.store;
      SpaceParts(store, v, 0);
      next, v' := Allocate(t, order, v);
      GrownByOne(store, v, regions, t.store, v', offset);
      t.WriteField(prev, 0, LINK_SIZE, next);
      regions' := regions + [next];
    }
  }

  /** Makes the chain long enough for an entry: existing regions stay, missing ones are added. */
  method CreateContinuationRegions(t: Transaction, startPage: nat, entrySize: nat, ghost regions: seq<nat>,
                                   ghost v: View, ghost offset: nat)
    returns (ghost regions': seq<nat>, ghost v': View)
    requires Stored(t.store, v, regions) && regions[0] == startPage && HasSpace(v.alloc)
    requires entrySize <= ChainSize(MAX_REGIONS, 0) && offset < CAPACITY
    modifies t
    ensures Stored(t.store, v', regions') && Grown(old(t.store), v.alloc, regions, t.store, v'.alloc, regions', offset)
    ensures entrySize <= ChainSize(|regions'|, 0)
    ensures |regions'| > |regions| ==> ChainSize(|regions'| - 1, 0) < entrySize
  {
    hide SpaceOk, Field, FilePage, Grown, NoOverlap, InRegion, Owned, LinkOf, ChainSize, Chained, Pow2, Stored, Partition;
    StoredParts(t.store, v, regions);
    ChainSizeMonotone(MAX_REGIONS, MAX_SHIFT + 1, 0);
    var continuationRegions := RequiredContinuationRegions(entrySize);
    NotMoreThan(continuationRegions, entrySize, MAX_REGIONS);
    var prev, order := startPage, 1;
    regions', v' := regions, v;
    GrownReflexive(t.store, v.alloc, regions, offset);
    ghost var required := continuationRegions;
    Pow2Doubles(0);
    while continuationRegions > 0
      invariant 1 <= order <= |regions'| && order == required - continuationRegions + 1
      invariant |regions'| == |regions| || |regions'| == order
      invariant prev == regions'[order - 1]
      invariant Stored(t.store, v', regions')
      invariant Grown(old(t.store), v.alloc, regions, t.store, v'.alloc, regions', offset)
      invariant v'.alloc.next + 1 <= v.alloc.next + Pow2(order)
    {
      ghost var store1, v1, regions1 := t.store, v', regions';
      Pow2Monotone(order + 1, MAX_REGIONS);
      Pow2Doubles(order);
      var next;
      StoredParts(store1, v1, regions1);
      next, regions', v' := NextOrAllocate(t, prev, order, regions1, v1, offset);
      GrownTwice(old(t.store), v.alloc, regions, store1, v1.alloc, regions1, t.store, v'.alloc, regions', offset);
      prev, order := next, order + 1;
      continuationRegions := continuationRegions - 1;
    }
    ChainSizeMonotone(required + 1, |regions'|, 0);
    StoredParts(t.store, v', regions');
  }

  lemma Pow2Doubles(n: nat)
    ensures Pow2(n + 1) == 2 * Pow2(n)
    ensures n == 0 ==> Pow2(n) == 1
  {
  }

  lemma NotMoreThan(result: nat, entrySize: nat, most: nat)
    requires forall k :: 1 <= k <= result ==> ChainSize(k, 0) < entrySize
    requires 1 <= most && entrySize <= ChainSize(most, 0)
    ensures result < most
  {
    hide ChainSize;
  }

  // ---- writing ----

  /** No page of the value's regions. */
  ghost predicate Outside(regions: seq<nat>, p: nat) {
    forall i :: 0 <= i < |regions| ==> !InRegion(p, regions[i], i)
  }

  lemma ValueWritesKeepSpace(store: Store, store': Store, v: View, regions: seq<nat>, offset: nat)
    requires Stored(store, v, regions) && offset < CAPACITY && OnlyValueChanged(store, store', regions, offset)
    ensures SpaceOk(store', v)
  {
    hide SpaceOk, FilePage, Chained, LivePage, Partition, InRegion, OnlyValueChanged;
    SpaceParts(store, v, 0);
    forall p: nat ensures FilePage(store', p) == FilePage(store, p) || LivePage(v.alloc, p) {
      if !Outside(regions, p) {
        var i :| 0 <= i < |regions| && InRegion(p, regions[i], i);
        RegionIsLive(v.alloc, regions[i], i, p);
      } else {
        OutsideUnchanged(store, store', regions, offset, p);
      }
    }
    LiveWritesKeepSpace(store, store', v);
  }

  lemma RegionIsLive(a: Allocator, start: nat, order: nat, p: nat)
    requires Partition(a) && Region(start, order) in a.live && InRegion(p, start, order)
    ensures LivePage(a, p)
  {
    LiveRegionIsOwned(a, start, order);
  }

  lemma OutsideUnchanged(store: Store, store': Store, regions: seq<nat>, offset: nat, p: nat)
    requires offset < CAPACITY && OnlyValueChanged(store, store', regions, offset) && Outside(regions, p)
    ensures FilePage(store', p) == FilePage(store, p)
  {
  }

  /** Writes a part of a value, which grows by zeros when it has to. `offset` is where in the data of
      the first page the value starts, `at` where in the value the bytes go. */
  method Write(t: Transaction, startPage: nat, offset: nat, at: nat, buffer: seq<Byte>, ghost regions: seq<nat>,
               ghost v: View)
    returns (ghost regions': seq<nat>, ghost v': View)
    requires Stored(t.store, v, regions) && regions[0] == startPage && HasSpace(v.alloc)
    requires offset < CAPACITY && offset + at + |buffer| <= ChainSize(MAX_REGIONS, 0)
    modifies t
    ensures Stored(t.store, v', regions') && regions <= regions'
    ensures ChainSize(|regions|, offset) <= ChainSize(|regions'|, offset) && at + |buffer| <= ChainSize(|regions'|, offset)
    ensures |regions'| > |regions| ==> ChainSize(|regions'| - 1, 0) < offset + at + |buffer|
    ensures var zeros := Zeros(ChainSize(|regions'|, offset) - ChainSize(|regions|, offset));
      Value(t.store, regions', offset) == Splice(Value(old(t.store), regions, offset) + zeros, at, buffer)
    ensures v'.alloc.live == v.alloc.live + RegionSet(regions', |regions|)
    ensures forall p: nat :: LivePage(v.alloc, p) && Outside(regions', p) ==> FilePage(t.store, p) == FilePage(old(t.store), p)
    ensures FilePage(t.store, startPage)[LINK_SIZE..START_HEADER + offset]
         == FilePage(old(t.store), startPage)[LINK_SIZE..START_HEADER + offset]
  {
    hide SpaceOk, Chained, FilePage, Owned, ChainSize, Splice, OnlyValueChanged, RegionSet, OnlyLinksChanged, LivePage, NoOverlap,
         ValueByte, PlaceOf, Partition, Outside;
    SpaceParts(t.store, v, 0);
    StoredParts(t.store, v, regions);
    regions', v' := CreateContinuationRegions(t, startPage, offset + at + |buffer|, regions, v, offset);
    ghost var mid := t.store;
    StoredParts(mid, v', regions');
    ChainSizeFrom(|regions'|, offset);
    var ok := Overwrite(t, startPage, offset, at, buffer, regions');
    ValueWritesKeepSpace(mid, t.store, v', regions', offset);
    StoredFrame(old(t.store), mid, t.store, v, regions, regions', offset);
  }

  lemma StoredParts(store: Store, v: View, regions: seq<nat>)
    requires Stored(store, v, regions)
    ensures 0 < |regions| <= MAX_REGIONS && LivePage(v.alloc, regions[0]) && NoOverlap(regions) && Partition(v.alloc)
  {
    hide SpaceOk, LivePage, Partition, NoOverlap;
    SpaceParts(store, v, 0);
    StartIsLive(v.alloc, regions[0], 0);
  }

  lemma {:induction false} ChainSizeFrom(n: nat, offset: nat)
    requires offset < CAPACITY && n > 0
    ensures ChainSize(n, offset) == ChainSize(n, 0) - offset
  {
    if n == 1 {
      assert ChainSize(0, offset) == ChainSize(0, 0) == 0;
    } else {
      ChainSizeFrom(n - 1, offset);
    }
  }

  lemma StoredFrame(store: Store, mid: Store, store': Store, v: View, regions: seq<nat>, regions': seq<nat>,
                    offset: nat)
    requires offset < CAPACITY && regions <= regions' && regions != [] && LivePage(v.alloc, regions[0])
    requires OnlyLinksChanged(store, mid, v.alloc, regions) && OnlyValueChanged(mid, store', regions', offset)
    ensures forall p: nat :: LivePage(v.alloc, p) && Outside(regions', p) ==> FilePage(store', p) == FilePage(store, p)
    ensures FilePage(store', regions[0])[LINK_SIZE..START_HEADER + offset] == FilePage(store, regions[0])[LINK_SIZE..START_HEADER + offset]
  {
    hide LivePage, FilePage;
    forall p: nat | LivePage(v.alloc, p) && Outside(regions', p) ensures FilePage(store', p) == FilePage(store, p) {
      hide InRegion;
      OutsideUnchanged(mid, store', regions', offset, p);
      OutsideIsNotStart(regions, regions', p);
    }
    HeaderKept(store, mid, store', regions[0], offset);
  }

  lemma OutsideIsNotStart(regions: seq<nat>, regions': seq<nat>, p: nat)
    requires regions <= regions' && Outside(regions', p)
    ensures p !in regions
  {
    forall i | 0 <= i < |regions| ensures regions[i] != p {
      assert !InRegion(p, regions'[i], i);
      assert Pow2(i) >= 1;
    }
  }

  lemma HeaderKept(store: Store, mid: Store, store': Store, page: nat, offset: nat)
    requires offset < CAPACITY && FilePage(mid, page)[LINK_SIZE..] == FilePage(store, page)[LINK_SIZE..]
    requires FilePage(store', page)[..START_HEADER + offset] == FilePage(mid, page)[..START_HEADER + offset]
    ensures FilePage(store', page)[LINK_SIZE..START_HEADER + offset] == FilePage(store, page)[LINK_SIZE..START_HEADER + offset]
  {
    var n := START_HEADER + offset;
    calc {
      FilePage(store', page)[LINK_SIZE..n];
    == { assert FilePage(store', page)[LINK_SIZE..n] == FilePage(store', page)[..n][LINK_SIZE..]; }
      FilePage(mid, page)[..n][LINK_SIZE..];
    == { assert FilePage(mid, page)[..n][LINK_SIZE..] == FilePage(mid, page)[LINK_SIZE..][..n - LINK_SIZE]; }
      FilePage(store, page)[LINK_SIZE..][..n - LINK_SIZE];
    == { assert FilePage(store, page)[LINK_SIZE..][..n - LINK_SIZE] == FilePage(store, page)[LINK_SIZE..n]; }
      FilePage(store, page)[LINK_SIZE..n];
    }
  }

  // ---- giving the regions back ----

  /** A free takes one region out of the live ones, whatever page it uses to make room for the entry. */
  lemma FreedLive(a: Allocator, start: nat, order: nat, full: bool)
    requires Partition(a) && order < ORDERS && Region(start, order) in a.live
    ensures var a' := Freed(a, start, order, full);
      && a'.live == a.live - {Region(start, order)}
      && |a'.free| == ORDERS && a'.next <= a.next + 1
      && (forall o :: 0 < o < ORDERS ==> a'.free[o] == if o == order then a.free[o] + [start] else a.free[o])
  {
    hide FreeOk, ListsOk, LiveOk;
    if full && order > 0 {
      AllocatedLive(a, 0);
      var page := AllocatedPage(a, 0);
      assert Pow2(0) == 1;
      assert InRegion(page, Region(page, 0).start, Region(page, 0).order);
    }
  }

  lemma OneMoreFreed(a: Allocator, a': Allocator, regions: seq<nat>, i: nat)
    requires i < |regions| && a'.live == a.live - RegionSet(regions[..i], 0)
    ensures Region(regions[i], i) in a.live ==> Region(regions[i], i) in a'.live
    ensures a'.live - {Region(regions[i], i)} == a.live - RegionSet(regions[..i + 1], 0)
  {
    assert regions[..i + 1] == regions[..i] + [regions[i]];
    RegionSetSnoc(regions[..i], regions[i], 0);
  }

  /** The pages that are still live are as they were. */
  ghost predicate LivePagesSame(store: Store, store': Store, a': Allocator) {
    forall p: nat :: LivePage(a', p) ==> FilePage(store', p) == FilePage(store, p)
  }

  lemma LivePagesSameTwice(store: Store, store1: Store, a1: Allocator, store2: Store, a2: Allocator)
    requires Partition(a1) && Partition(a2) && a2.live <= a1.live
    requires LivePagesSame(store, store1, a1) && LivePagesSame(store1, store2, a2)
    ensures LivePagesSame(store, store2, a2)
  {
    hide Partition, FilePage, LivePage;
    forall p: nat | LivePage(a2, p) ensures FilePage(store2, p) == FilePage(store, p) {
      StaysLive(a2, a1, p);
    }
  }

  /** One of the free lists of the first `n` orders has no room. */
  ghost predicate AnyFull(store: Store, v: View, n: nat)
    requires |v.chains| == ORDERS
  {
    exists o :: 0 <= o < ORDERS && o < n && ListIsFull(store, v, o)
  }

  /** What has become of the first page `q` of a chain, `n` of whose regions have been freed. As long as
      the lists had room, it is as it was, and will be the next page handed out. The first list without
      room took it. */
  ghost predicate FirstPageFate(store: Store, v: View, store': Store, v': View, regions: seq<nat>, n: nat)
    requires |v.chains| == ORDERS && 0 < n <= |regions| && |v'.alloc.free| == ORDERS
  {
    var q := regions[0];
    if !AnyFull(store, v, n) then
      FilePage(store', q) == FilePage(store, q) && v'.alloc.free[0] != [] && Top(v'.alloc, 0) == q
    else
      && q in v'.alloc.own && v'.alloc.own[q].List? && v'.alloc.own[q].order < n
      && (FreshListPage(store', q, 0) || exists i :: 0 < i < |regions| && FreshListPage(store', q, regions[i]))
  }

  ghost predicate SameLists(store: Store, v: View, store': Store, v': View, n: nat) {
    && |v'.chains| == |v.chains| == ORDERS
    && forall o :: 0 < o < ORDERS && n <= o ==> v'.chains[o] == v.chains[o] && Count(store', o) == Count(store, o)
  }

  /** A page of a list stays one, as it is, when a region of another order is freed. */
  lemma ListPageStays(store: Store, v: View, store': Store, v': View, start: nat, order: nat, full: bool, q: nat)
    requires SpaceOk(store, v) && SpaceOk(store', v') && 0 < order < ORDERS && Region(start, order) in v.alloc.live
    requires |v.alloc.free| == |v.alloc.lists| == |v'.chains| == ORDERS && v'.alloc == Freed(v.alloc, start, order, full)
    requires OnlyListChanged(store, store', v', order)
    requires q in v.alloc.own && v.alloc.own[q].List? && v.alloc.own[q].order < order
    ensures q in v'.alloc.own && v'.alloc.own[q] == v.alloc.own[q] && FilePage(store', q) == FilePage(store, q)
  {
    hide FilePage, Pow2, SpaceOk, Represents;
    SpaceParts(store, v, 0);
    SpaceParts(store', v', 0);
    OwnedIsNotMeta(store, v, q);
    ListOwnerStays(v.alloc, v'.alloc, start, order, full, q);
    NotAListPage(store', v', order, q);
  }

  lemma ListOwnerStays(a: Allocator, a': Allocator, start: nat, order: nat, full: bool, q: nat)
    requires Partition(a) && Partition(a') && 0 < order < ORDERS && a' == Freed(a, start, order, full)
    requires q in a.own && a.own[q].List? && a.own[q].order < order
    ensures q in a'.own && a'.own[q] == a.own[q]
  {
    hide LiveOk, FreeOk, Pow2;
    var j := a.own[q].order;
    assert a'.lists[j] == a.lists[j];
    var i :| 0 <= i < |a.lists[j]| && a.lists[j][i] == q;
    assert a'.lists[j][i] == q;
  }

  /** Page `q`, free and next to be handed out, when a region of order above 0 is freed. */
  lemma FreePageFate(store: Store, v: View, store': Store, v': View, start: nat, order: nat, q: nat)
    requires SpaceOk(store, v) && SpaceOk(store', v') && 0 < order < ORDERS && Region(start, order) in v.alloc.live
    requires |v.chains| == |v'.chains| == |v.alloc.free| == |v.alloc.lists| == |v'.alloc.free| == ORDERS
    requires v'.alloc == Freed(v.alloc, start, order, ListIsFull(store, v, order))
    requires OnlyListChanged(store, store', v', order) && TakesPage(v, store', v', start, order, ListIsFull(store, v, order))
    requires v.alloc.free[0] != [] && Top(v.alloc, 0) == q
    ensures if !ListIsFull(store, v, order) then
              FilePage(store', q) == FilePage(store, q) && v'.alloc.free[0] != [] && Top(v'.alloc, 0) == q
            else FreshListPage(store', q, start) && q in v'.alloc.own && v'.alloc.own[q] == List(order)
  {
    hide FilePage, Pow2, SpaceOk, Represents, FreshListPage, ListIsFull, LiveOk, FreeOk, Painted;
    SpaceParts(store, v, 0);
    SpaceParts(store', v', 0);
    FreeRegionOwned(v.alloc, 0, |v.alloc.free[0]| - 1);
    PageInItself(q);
    OwnedIsNotMeta(store, v, q);
    if !ListIsFull(store, v, order) {
      NotAListPage(store, v, order, q);
    } else {
      NewListPage(v'.alloc, v.alloc.lists[order], q, order);
    }
  }

  lemma PageInItself(q: nat)
    ensures InRegion(q, q, 0)
  {
  }

  lemma NewListPage(a: Allocator, lists: seq<nat>, q: nat, order: nat)
    requires Partition(a) && order < ORDERS && a.lists[order] == lists + [q]
    ensures q in a.own && a.own[q] == List(order)
  {
    hide LiveOk, FreeOk;
    assert a.lists[order][|lists|] == q;
  }

  /** The first page itself, when it is freed. */
  lemma FirstFree(store: Store, v: View, store': Store, v': View, q: nat)
    requires SpaceOk(store, v) && SpaceOk(store', v') && Region(q, 0) in v.alloc.live
    requires |v.chains| == |v'.chains| == |v.alloc.free| == |v.alloc.lists| == |v'.alloc.free| == ORDERS
    requires v'.alloc == Freed(v.alloc, q, 0, ListIsFull(store, v, 0))
    requires OnlyListChanged(store, store', v', 0) && TakesPage(v, store', v', q, 0, ListIsFull(store, v, 0))
    ensures if !ListIsFull(store, v, 0) then
              FilePage(store', q) == FilePage(store, q) && v'.alloc.free[0] != [] && Top(v'.alloc, 0) == q
            else FreshListPage(store', q, 0) && q in v'.alloc.own && v'.alloc.own[q] == List(0)
  {
    hide FilePage, Pow2, SpaceOk, Represents, FreshListPage, ListIsFull, LiveOk, FreeOk, Painted;
    SpaceParts(store, v, 0);
    SpaceParts(store', v', 0);
    LiveIsUsed(store, v, q, 0);
    OwnedIsNotMeta(store, v, q);
    if !ListIsFull(store, v, 0) {
      NotAListPage(store, v, 0, q);
    } else {
      NewListPage(v'.alloc, v.alloc.lists[0], q, 0);
    }
  }

  /** One more region freed: what became of the first page. */
  lemma FateAdvances(store: Store, v: View, store1: Store, v1: View, store2: Store, v2: View, regions: seq<nat>, k: nat)
    requires SpaceOk(store1, v1) && SpaceOk(store2, v2) && k < |regions| && k < ORDERS && Region(regions[k], k) in v1.alloc.live
    requires |v.chains| == |v1.chains| == |v2.chains| == ORDERS
    requires |v1.alloc.free| == |v1.alloc.lists| == |v2.alloc.free| == ORDERS
    requires k == 0 ==> store1 == store && v1 == v
    requires k > 0 ==> FirstPageFate(store, v, store1, v1, regions, k) && SameLists(store, v, store1, v1, k)
    requires v2.alloc == Freed(v1.alloc, regions[k], k, ListIsFull(store1, v1, k))
    requires OnlyListChanged(store1, store2, v2, k) && ListsBelow(store1, v1, store2, v2, k)
    requires TakesPage(v1, store2, v2, regions[k], k, ListIsFull(store1, v1, k))
    ensures FirstPageFate(store, v, store2, v2, regions, k + 1) && SameLists(store, v, store2, v2, k + 1)
  {
    hide FilePage, SpaceOk, FreshListPage, Freed, TakesPage, OnlyListChanged, Count, Pow2;
    var q := regions[0];
    assert AnyFull(store, v, k + 1) <==> AnyFull(store, v, k) || ListIsFull(store, v, k);
    if k == 0 {
      FirstFree(store, v, store2, v2, q);
    } else {
      assert ListIsFull(store1, v1, k) <==> ListIsFull(store, v, k);
      if AnyFull(store, v, k) {
        ListPageStays(store1, v1, store2, v2, regions[k], k, ListIsFull(store1, v1, k), q);
        FreshStays(store1, store2, q);
      } else {
        FreePageFate(store1, v1, store2, v2, regions[k], k, q);
      }
    }
  }

  lemma FreshStays(store: Store, store': Store, q: nat)
    requires FilePage(store', q) == FilePage(store, q)
    ensures forall entry :: FreshListPage(store, q, entry) ==> FreshListPage(store', q, entry)
  {
  }

  /** The first `k` regions of the value have been freed, from `store` and `v` on. */
  ghost predicate Freeing(store: Store, v: View, store1: Store, v1: View, regions: seq<nat>, k: nat) {
    && k <= |regions| <= MAX_REGIONS && SpaceOk(store1, v1) && Partition(v1.alloc)
    && |v1.alloc.free| == |v1.alloc.lists| == |v1.chains| == |v.chains| == |v.alloc.free| == ORDERS
    && v1.alloc.live == v.alloc.live - RegionSet(regions[..k], 0)
    && v1.alloc.next <= v.alloc.next + k
    && (forall o :: 0 < o < ORDERS ==> v1.alloc.free[o] == if o < k then v.alloc.free[o] + [regions[o]] else v.alloc.free[o])
    && LivePagesSame(store, store1, v1.alloc)
    && (k == 0 ==> store1 == store && v1 == v)
    && (k > 0 ==> FirstPageFate(store, v, store1, v1, regions, k) && SameLists(store, v, store1, v1, k))
  }

  lemma NothingFreed(store: Store, v: View, regions: seq<nat>)
    requires Stored(store, v, regions)
    ensures Freeing(store, v, store, v, regions, 0) && |regions| > 0
  {
    hide SpaceOk, Chained, Partition, FirstPageFate, SameLists;
    SpaceParts(store, v, 0);
    StoredParts(store, v, regions);
    LivePagesSelf(store, v.alloc);
    NoRegions();
    assert regions[..0] == [];
  }

  /** The next region is still live, and its link still what it was. */
  lemma NextToFree(store: Store, v: View, store1: Store, v1: View, regions: seq<nat>, k: nat)
    requires Freeing(store, v, store1, v1, regions, k) && k < |regions| && Stored(store, v, regions)
    ensures Region(regions[k], k) in v1.alloc.live && FIRST_PAGE <= regions[k]
    ensures Field(store1, regions[k], 0, LINK_SIZE) == if k + 1 < |regions| then regions[k + 1] else 0
    ensures k + 1 < |regions| ==> regions[k + 1] != 0
  {
    hide SpaceOk, Field, Chained, Partition, RegionSet, LivePagesSame, FirstPageFate, SameLists;
    StoredParts(store, v, regions);
    OneMoreFreed(v.alloc, v1.alloc, regions, k);
    NextLink(store, store1, v1.alloc, regions, k);
    LiveIsUsed(store1, v1, regions[k], k);
  }

  lemma FreesOneMore(store: Store, v: View, store1: Store, v1: View, store2: Store, v2: View, regions: seq<nat>, k: nat)
    requires Freeing(store, v, store1, v1, regions, k) && k < |regions| && Stored(store, v, regions)
    requires SpaceOk(store2, v2) && |v2.chains| == ORDERS
    requires v2.alloc == Freed(v1.alloc, regions[k], k, ListIsFull(store1, v1, k))
    requires OnlyListChanged(store1, store2, v2, k) && ListsBelow(store1, v1, store2, v2, k)
    requires TakesPage(v1, store2, v2, regions[k], k, ListIsFull(store1, v1, k))
    requires forall p :: p in v2.alloc.own && v2.alloc.own[p].Live? ==> FilePage(store2, p) == FilePage(store1, p)
    ensures Freeing(store, v, store2, v2, regions, k + 1)
  {
    hide SpaceOk, Chained, Partition, RegionSet, LivePage, LivePagesSame, Freed, ListIsFull, FirstPageFate, SameLists, TakesPage,
         ListsBelow, OnlyListChanged;
    NextToFree(store, v, store1, v1, regions, k);
    OneMoreFreed(v.alloc, v1.alloc, regions, k);
    FreedLive(v1.alloc, regions[k], k, ListIsFull(store1, v1, k));
    SpaceParts(store2, v2, 0);
    FateAdvances(store, v, store1, v1, store2, v2, regions, k);
    FreedPages(store1, store2, v2.alloc);
    LivePagesSameTwice(store, store1, v1.alloc, store2, v2.alloc);
  }

  /** Frees every region of a value: afterwards exactly those are not live any more, and the one of
      each order above 0 is on top of the free regions of its order. The first page keeps its bytes exactly
      as long as no list lacks room. */
  method FreeLeaf(t: Transaction, pageNumber: nat, ghost regions: seq<nat>, ghost v: View) returns (ghost v': View)
    requires Stored(t.store, v, regions) && regions[0] == pageNumber && v.alloc.next + |regions| + 1 < U64_LIMIT
    modifies t
    ensures SpaceOk(t.store, v') && |v'.alloc.free| == |v.alloc.free| == |v.chains| == ORDERS
    ensures v'.alloc.live == v.alloc.live - RegionSet(regions, 0)
    ensures forall o :: 0 < o < ORDERS ==>
              v'.alloc.free[o] == if o < |regions| then v.alloc.free[o] + [regions[o]] else v.alloc.free[o]
    ensures LivePagesSame(old(t.store), t.store, v'.alloc)
    ensures FirstPageFate(old(t.store), v, t.store, v', regions, |regions|)
  {
    hide SpaceOk, Field, FilePage, Stored, Freeing, TakesPage, ListsBelow, OnlyListChanged, Pow2, Freed, ListIsFull;
    ghost var store := t.store;
    NothingFreed(store, v, regions);
    var page, order := pageNumber, 0;
    v' := v;
    while true
      invariant 0 <= order < |regions| && page == regions[order]
      invariant Freeing(store, v, t.store, v', regions, order)
      decreases |regions| - order
    {
      FreeingParts(store, v, t.store, v', regions, order);
      NextToFree(store, v, t.store, v', regions, order);
      var next := Field(t.store, page, 0, LINK_SIZE);
      ghost var store1, v1 := t.store, v';
      var ok;
      ok, v' := FreeRegion(t, page, order, v1);
      FreesOneMore(store, v, store1, v1, t.store, v', regions, order);
      order := order + 1;
      if next == 0 {
        break;
      }
      page := next;
    }
    AllFreed(store, v, t.store, v', regions);
  }

  lemma FreeingParts(store: Store, v: View, store1: Store, v1: View, regions: seq<nat>, k: nat)
    requires Freeing(store, v, store1, v1, regions, k)
    ensures SpaceOk(store1, v1) && |v1.alloc.free| == |v1.chains| == ORDERS && v1.alloc.next <= v.alloc.next + k
    ensures |regions| <= MAX_REGIONS
  {
  }

  lemma AllFreed(store: Store, v: View, store1: Store, v1: View, regions: seq<nat>)
    requires Freeing(store, v, store1, v1, regions, |regions|) && Stored(store, v, regions)
    ensures SpaceOk(store1, v1) && |v1.alloc.free| == |v.alloc.free| == |v.chains| == |v1.chains| == ORDERS
    ensures v1.alloc.live == v.alloc.live - RegionSet(regions, 0)
    ensures forall o :: 0 < o < ORDERS ==>
              v1.alloc.free[o] == if o < |regions| then v.alloc.free[o] + [regions[o]] else v.alloc.free[o]
    ensures LivePagesSame(store, store1, v1.alloc) && |regions| > 0
    ensures FirstPageFate(store, v, store1, v1, regions, |regions|)
  {
    hide SpaceOk, Partition, RegionSet, LivePagesSame, FirstPageFate, SameLists;
    StoredParts(store, v, regions);
    assert regions[..|regions|] == regions;
  }

  lemma NoRegions()
    ensures RegionSet([], 0) == {}
  {
  }

  lemma LivePagesSelf(store: Store, a: Allocator)
    ensures LivePagesSame(store, store, a)
  {
  }

  lemma FreedPages(store: Store, store': Store, a': Allocator)
    requires forall p :: p in a'.own && a'.own[p].Live? ==> FilePage(store', p) == FilePage(store, p)
    ensures LivePagesSame(store, store', a')
  {
    hide FilePage;
  }

  lemma NextLink(store: Store, store': Store, a': Allocator, regions: seq<nat>, i: nat)
    requires Chained(store, regions) && i < |regions| && Partition(a') && Region(regions[i], i) in a'.live
    requires LivePagesSame(store, store', a')
    ensures Field(store', regions[i], 0, LINK_SIZE) == if i + 1 < |regions| then regions[i + 1] else 0
    ensures i + 1 < |regions| ==> regions[i + 1] != 0
  {
    hide Partition, LivePage, NoOverlap, Field, FilePage;
    StartIsLive(a', regions[i], i);
    SameFields(store, store', regions[i]);
    assert LinkOf(store, regions, i);
  }
}
