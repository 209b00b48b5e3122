/** A value spread over a linked list of regions of 1, 2, 4, 8, ... pages. */
module BigValue {
  import opened Bytes
  import opened BufferPool
  import opened Pages
  import opened Ownership

  const START_HEADER: nat := 18   // next: 8 bytes, usage: 8, entry_count: 2
  const LINK_SIZE: nat := 8       // next, the first field of every region's first page
  const CAPACITY: nat := PAGE_SIZE - START_HEADER
  /** Region sizes are computed as `int` shifts, PAGE_SIZE << depth, which overflow from depth 19 on. */
  const MAX_REGIONS: nat := 19

  /** The last region is the last whose size in bytes, `PAGE_SIZE << depth`, an `int` of 32 bits can hold. */
  lemma LastRegionSize()
    ensures PAGE_SIZE * Pow2(MAX_REGIONS - 1) < 0x8000_0000 <= PAGE_SIZE * Pow2(MAX_REGIONS)
  {
    assert Pow2(8) == 256;
    assert Pow2(16) == 256 * Pow2(8);
    assert Pow2(18) == 4 * Pow2(16);
  }

  /** Bytes before the value in the first page of region `i`; `v` is where the value starts in the
      data section of the first page of all. */
  function Header(i: nat, v: nat): nat {
    if i == 0 then START_HEADER + v else LINK_SIZE
  }

  /** Value bytes that region `i` holds. */
  function RegionSize(i: nat, v: nat): (n: nat)
    requires v < CAPACITY
    ensures i > 0 ==> n > 0
  {
    PAGE_SIZE * Pow2(i) - Header(i, v)
  }

  /** Value bytes in the first `n` regions. */
  function ChainSize(n: nat, v: nat): nat
    requires v < CAPACITY
  {
    if n == 0 then 0 else ChainSize(n - 1, v) + RegionSize(n - 1, v)
  }

  /** Where a value byte lies: a region, and a byte offset into that region. */
  datatype Place = Place(region: nat, at: nat)

  /** The place of value byte `x`, counted from the start of region `i`. */
  function PlaceFrom(x: nat, i: nat, v: nat): (p: Place)
    requires v < CAPACITY
    decreases x, if i == 0 then 1 else 0
  {
    if x < RegionSize(i, v) then Place(i, x + Header(i, v)) else PlaceFrom(x - RegionSize(i, v), i + 1, v)
  }

  function PlaceOf(x: nat, v: nat): Place
    requires v < CAPACITY
  {
    PlaceFrom(x, 0, v)
  }

  /** The place is inside its region, behind the header, and determines the value offset. */
  lemma {:induction false} PlaceFromInverse(x: nat, i: nat, v: nat)
    requires v < CAPACITY
    decreases x, if i == 0 then 1 else 0
    ensures var p := PlaceFrom(x, i, v);
      && p.region >= i && Header(p.region, v) <= p.at < PAGE_SIZE * Pow2(p.region)
      && ChainSize(i, v) + x == ChainSize(p.region, v) + p.at - Header(p.region, v)
  {
    if x < RegionSize(i, v) {
    } else {
      PlaceFromInverse(x - RegionSize(i, v), i + 1, v);
    }
  }

  /** Every byte behind a header is the place of exactly one value byte. */
  lemma {:induction false} PlaceFromAt(i: nat, region: nat, at: nat, v: nat)
    requires v < CAPACITY && i <= region && Header(region, v) <= at < PAGE_SIZE * Pow2(region)
    decreases region - i
    ensures ChainSize(i, v) <= ChainSize(region, v) + at - Header(region, v)
    ensures PlaceFrom(ChainSize(region, v) + at - Header(region, v) - ChainSize(i, v), i, v) == Place(region, at)
  {
    if i < region {
      PlaceFromAt(i + 1, region, at, v);
    }
  }

  /** The regions of a value: the links between their first pages, and no page shared. */
  ghost predicate Chained(store: Store, regions: seq<nat>) {
    && 0 < |regions| <= MAX_REGIONS
    && (forall i :: 0 <= i < |regions| ==> regions[i] > 0 && LinkOf(store, regions, i))
    && NoOverlap(regions)
  }

  predicate LinkOf(store: Store, regions: seq<nat>, i: nat)
    requires i < |regions|
  {
    Field(store, regions[i], 0, LINK_SIZE) == if i + 1 < |regions| then regions[i + 1] else 0
  }

  ghost predicate NoOverlap(regions: seq<nat>) {
    forall i, j, p :: 0 <= i < |regions| && 0 <= j < |regions| && InRegion(p, regions[i], i) && InRegion(p, regions[j], j) ==> i == j
  }

  /** The value byte at offset `x`. */
  function ValueByte(store: Store, regions: seq<nat>, x: nat, v: nat): Byte
    requires v < CAPACITY && PlaceOf(x, v).region < |regions|
  {
    var p := PlaceOf(x, v);
    FilePage(store, regions[p.region] + p.at / PAGE_SIZE)[p.at % PAGE_SIZE]
  }

  lemma {:induction false} ChainSizeMonotone(i: nat, j: nat, v: nat)
    requires v < CAPACITY && i <= j
    ensures ChainSize(i, v) <= ChainSize(j, v)
  {
    if i < j {
      ChainSizeMonotone(i, j - 1, v);
    }
  }

  /** Offsets below the size of the chain have their place in it. */
  lemma PlaceInChain(x: nat, n: nat, v: nat)
    requires v < CAPACITY
    ensures x < ChainSize(n, v) <==> PlaceOf(x, v).region < n
  {
    PlaceFromInverse(x, 0, v);
    var p := PlaceOf(x, v);
    if p.region < n {
      ChainSizeMonotone(p.region + 1, n, v);
    } else {
      ChainSizeMonotone(n, p.region, v);
    }
  }

  /** How many regions an entry of the given size takes: up to the one with its last byte. */
  function RegionsFor(size: nat): nat {
    if size == 0 then 1 else PlaceOf(size - 1, 0).region + 1
  }

  /** That is the least number of regions that holds it. */
  lemma RegionsForIsLeast(size: nat, n: nat)
    requires n > 0
    ensures ChainSize(n, 0) >= size <==> n >= RegionsFor(size)
  {
    if size > 0 {
      PlaceInChain(size - 1, n, 0);
    }
  }

  /** Freeing the chain of an entry of the given size clears its first page, because one of the free lists
      that its regions go to has no room and takes that page to make some. */
  predicate Erases(size: nat, fullLists: set<nat>) {
    exists order :: order in fullLists && order < RegionsFor(size)
  }

  /** The value as one flat sequence. */
  function Value(store: Store, regions: seq<nat>, v: nat): (s: seq<Byte>)
    requires v < CAPACITY
    ensures |s| == ChainSize(|regions|, v)
    ensures forall x :: 0 <= x < |s| ==> PlaceOf(x, v).region < |regions| && s[x] == ValueByte(store, regions, x, v)
  {
    assert forall x: nat :: x < ChainSize(|regions|, v) ==> PlaceOf(x, v).region < |regions| by {
      forall x: nat | x < ChainSize(|regions|, v) ensures PlaceOf(x, v).region < |regions| {
        PlaceInChain(x, |regions|, v);
      }
    }
    seq<Byte>(ChainSize(|regions|, v), x requires 0 <= x < ChainSize(|regions|, v) => ValueByte(store, regions, x, v))
  }

  // ---- the cursor of the read and write loops ----

  datatype PageType = START | CONTINUATION | PURE

  function StartOffset(kind: PageType, v: nat): nat {
    match kind
    case START => START_HEADER + v
    case CONTINUATION => LINK_SIZE
    case PURE => 0
  }

  datatype Cursor = Cursor(depth: nat, regionStart: nat, regionOffset: nat, pageOffset: nat, kind: PageType)

  /** The cursor stands at value byte `x`: at the same place as PlaceOf, inside the chain or at its end. */
  ghost predicate StandsAt(c: Cursor, regions: seq<nat>, v: nat, x: nat)
    requires v < CAPACITY
  {
    && c.depth <= |regions|
    && (c.depth < |regions| ==> c.regionStart == regions[c.depth])
    && c.regionOffset < Pow2(c.depth)
    && c.kind == (if c.regionOffset > 0 then PURE else if c.depth == 0 then START else CONTINUATION)
    && StartOffset(c.kind, v) + c.pageOffset < PAGE_SIZE
    && x == ChainSize(c.depth, v) + c.regionOffset * PAGE_SIZE + StartOffset(c.kind, v) + c.pageOffset - Header(c.depth, v)
  }

  function At(c: Cursor, v: nat): nat {
    c.regionOffset * PAGE_SIZE + StartOffset(c.kind, v) + c.pageOffset
  }

  /** A cursor inside the chain stands at a place of its region. */
  lemma CursorPlace(c: Cursor, regions: seq<nat>, v: nat, x: nat)
    requires v < CAPACITY && StandsAt(c, regions, v, x)
    ensures PlaceOf(x, v) == Place(c.depth, At(c, v))
    ensures c.depth < |regions| <==> x < ChainSize(|regions|, v)
  {
    PlaceFromAt(0, c.depth, At(c, v), v);
    PlaceInChain(x, |regions|, v);
  }

  method NextRegionStart(t: Transaction, page: nat) returns (next: nat)
    ensures next == Field(t.store, page, 0, LINK_SIZE)
  {
    next := Field(t.store, page, 0, LINK_SIZE);
  }

  /** The cursor one region on, from the start of a region. */
  lemma NextRegion(c: Cursor, regions: seq<nat>, v: nat, x: nat, next: nat)
    requires v < CAPACITY && StandsAt(c, regions, v, x) && c.depth < |regions| && c.regionOffset == c.pageOffset == 0
    requires c.depth + 1 < |regions| ==> next == regions[c.depth + 1]
    ensures StandsAt(Cursor(c.depth + 1, next, 0, 0, CONTINUATION), regions, v, x + RegionSize(c.depth, v))
  {
  }

  /** Skips regions, then pages, then bytes, until the offset is reached. */
  method Seek(t: Transaction, startPage: nat, v: nat, offset: nat, ghost regions: seq<nat>) returns (c: Cursor)
    requires Chained(t.store, regions) && startPage == regions[0] && v < CAPACITY
    requires offset <= ChainSize(|regions|, v)
    ensures StandsAt(c, regions, v, offset)
  {
    hide Field, NoOverlap, InRegion;
    var valueOffset: nat := 0;
    c := Cursor(0, startPage, 0, 0, START);
    while valueOffset < offset
      invariant valueOffset <= offset
      invariant StandsAt(c, regions, v, valueOffset)
      invariant valueOffset < offset ==> c.pageOffset == 0
      invariant c.regionOffset > 0 ==> offset < ChainSize(c.depth + 1, v)
    {
      CursorPlace(c, regions, v, valueOffset);
      var distance := offset - valueOffset;
      var regionSkip := PAGE_SIZE * Pow2(c.depth) - StartOffset(if c.depth == 0 then START else CONTINUATION, v);
      if distance >= regionSkip {
        assert LinkOf(t.store, regions, c.depth);
        var next := NextRegionStart(t, c.regionStart);
        NextRegion(c, regions, v, valueOffset, next);
        valueOffset := valueOffset + regionSkip;
        c := Cursor(c.depth + 1, next, c.regionOffset, 0, CONTINUATION);
        continue;
      }
      var pageSkip := PAGE_SIZE - StartOffset(c.kind, v);
      if distance >= pageSkip {
        NextInRegion(c, regions, v, valueOffset);
        valueOffset := valueOffset + pageSkip;
        c := c.(regionOffset := c.regionOffset + 1, kind := PURE);
        continue;
      }
      c := c.(pageOffset := c.pageOffset + distance);
      valueOffset := valueOffset + distance;
    }
  }

  /** The cursor one page on in its region. */
  lemma NextInRegion(c: Cursor, regions: seq<nat>, v: nat, x: nat)
    requires v < CAPACITY && StandsAt(c, regions, v, x)
    ensures var c', x' := c.(regionOffset := c.regionOffset + 1, pageOffset := 0, kind := PURE), x + PAGE_SIZE - ByteIn(c, v);
      && (c.regionOffset + 1 < Pow2(c.depth) ==> StandsAt(c', regions, v, x'))
      && (c.regionOffset + 1 == Pow2(c.depth) ==> x' == ChainSize(c.depth + 1, v))
      && (c.regionOffset + 1 < Pow2(c.depth) ==> x' < ChainSize(c.depth + 1, v))
  {
  }

  // ---- one piece: the bytes of the value that lie on one page ----

  /** The page of the cursor, and where in it the cursor stands. */
  function PageAt(c: Cursor): nat {
    c.regionStart + c.regionOffset
  }

  function ByteIn(c: Cursor, v: nat): nat {
    StartOffset(c.kind, v) + c.pageOffset
  }

  ghost predicate Inside(c: Cursor, regions: seq<nat>, v: nat, x: nat, n: nat)
    requires v < CAPACITY
  {
    StandsAt(c, regions, v, x) && c.depth < |regions| && ByteIn(c, v) + n <= PAGE_SIZE
  }

  /** The value bytes from the cursor to the end of its page lie there in order. */
  lemma PiecePlaces(c: Cursor, regions: seq<nat>, v: nat, x: nat, k: nat, n: nat)
    requires v < CAPACITY && Inside(c, regions, v, x, n) && k < n
    ensures PlaceOf(x + k, v) == Place(c.depth, PAGE_SIZE * c.regionOffset + ByteIn(c, v) + k)
    ensures x + k < ChainSize(|regions|, v)
  {
    var at := PAGE_SIZE * c.regionOffset + ByteIn(c, v) + k;
    assert at < PAGE_SIZE * Pow2(c.depth);
    PlaceFromAt(0, c.depth, at, v);
    PlaceInChain(x + k, |regions|, v);
  }

  /** Two value bytes at the same place are the same. */
  lemma PlaceIsInjective(x: nat, y: nat, v: nat)
    requires v < CAPACITY && PlaceOf(x, v) == PlaceOf(y, v)
    ensures x == y
  {
    PlaceFromInverse(x, 0, v);
    PlaceFromInverse(y, 0, v);
  }

  lemma PlaceIsInRegion(x: nat, regions: seq<nat>, v: nat)
    requires v < CAPACITY && PlaceOf(x, v).region < |regions|
    ensures var p := PlaceOf(x, v);
      InRegion(regions[p.region] + p.at / PAGE_SIZE, regions[p.region], p.region) && p.at >= Header(p.region, v)
  {
    PlaceFromInverse(x, 0, v);
  }

  lemma PieceByte(store: Store, c: Cursor, regions: seq<nat>, v: nat, x: nat, k: nat, n: nat)
    requires v < CAPACITY && Inside(c, regions, v, x, n) && k < n
    ensures x + k < ChainSize(|regions|, v) && PlaceOf(x + k, v).region < |regions|
    ensures ValueByte(store, regions, x + k, v) == FilePage(store, PageAt(c))[ByteIn(c, v) + k]
  {
    hide ChainSize, FilePage, PlaceOf;
    PiecePlaces(c, regions, v, x, k, n);
  }

  lemma PieceRead(store: Store, c: Cursor, regions: seq<nat>, v: nat, x: nat, n: nat)
    requires v < CAPACITY && Inside(c, regions, v, x, n)
    ensures x + n <= ChainSize(|regions|, v)
    ensures FilePage(store, PageAt(c))[ByteIn(c, v)..ByteIn(c, v) + n] == Value(store, regions, v)[x..x + n]
  {
    hide ChainSize, FilePage, PlaceOf, ValueByte, StandsAt;
    CursorPlaceBound(c, regions, v, x, n);
    var piece, value := FilePage(store, PageAt(c))[ByteIn(c, v)..ByteIn(c, v) + n], Value(store, regions, v);
    forall k: nat | k < n ensures piece[k] == value[x..x + n][k] {
      PieceByte(store, c, regions, v, x, k, n);
    }
  }

  /** Outside the regions nothing differs, and in the first page the bytes before the value do not. */
  ghost predicate OnlyValueChanged(store: Store, store': Store, regions: seq<nat>, v: nat)
    requires v < CAPACITY
  {
    && (forall p: nat :: FilePage(store', p) == FilePage(store, p) || exists i :: 0 <= i < |regions| && InRegion(p, regions[i], i))
    && (|regions| > 0 ==> FilePage(store', regions[0])[..START_HEADER + v] == FilePage(store, regions[0])[..START_HEADER + v])
  }

  /** Value byte `y` lies outside the piece that is written. */
  lemma OutsidePiece(c: Cursor, regions: seq<nat>, v: nat, x: nat, n: nat, y: nat)
    requires v < CAPACITY && Inside(c, regions, v, x, n) && NoOverlap(regions)
    requires PlaceOf(y, v).region < |regions| && !(x <= y < x + n)
    ensures var p := PlaceOf(y, v);
      regions[p.region] + p.at / PAGE_SIZE != PageAt(c) || !(ByteIn(c, v) <= p.at % PAGE_SIZE < ByteIn(c, v) + n)
  {
    hide PlaceOf, ChainSize, Pow2;
    var p := PlaceOf(y, v);
    PlaceIsInRegion(y, regions, v);
    if regions[p.region] + p.at / PAGE_SIZE == PageAt(c) && ByteIn(c, v) <= p.at % PAGE_SIZE < ByteIn(c, v) + n {
      assert InRegion(PageAt(c), regions[c.depth], c.depth);
      assert p.region == c.depth;
      var k := p.at % PAGE_SIZE - ByteIn(c, v);
      PiecePlaces(c, regions, v, x, k, n);
      PlaceIsInjective(x + k, y, v);
    }
  }

  lemma ByteAfterWrite(store: Store, c: Cursor, regions: seq<nat>, v: nat, x: nat, data: seq<Byte>, y: nat)
    requires v < CAPACITY && Inside(c, regions, v, x, |data|) && NoOverlap(regions) && PlaceOf(y, v).region < |regions|
    ensures ValueByte(WithBytes(store, PageAt(c), ByteIn(c, v), data), regions, y, v)
         == if x <= y < x + |data| then data[y - x] else ValueByte(store, regions, y, v)
  {
    hide ChainSize, PlaceOf, NoOverlap, StandsAt, Inside;
    InsidePage(c, regions, v, x, |data|);
    var store' := WithBytes(store, PageAt(c), ByteIn(c, v), data);
    if x <= y < x + |data| {
      hide ValueByte;
      PieceByte(store', c, regions, v, x, y - x, |data|);
    } else {
      OutsidePiece(c, regions, v, x, |data|, y);
    }
  }

  lemma InsidePage(c: Cursor, regions: seq<nat>, v: nat, x: nat, n: nat)
    requires v < CAPACITY && Inside(c, regions, v, x, n)
    ensures ByteIn(c, v) + n <= PAGE_SIZE
  {
  }

  lemma PieceWriteValue(store: Store, c: Cursor, regions: seq<nat>, v: nat, x: nat, data: seq<Byte>)
    requires v < CAPACITY && Inside(c, regions, v, x, |data|) && NoOverlap(regions)
    ensures x + |data| <= ChainSize(|regions|, v)
    ensures Value(WithBytes(store, PageAt(c), ByteIn(c, v), data), regions, v) == Splice(Value(store, regions, v), x, data)
  {
    hide ChainSize, PlaceOf, NoOverlap, StandsAt, ByteIn, ValueByte, WithBytes;
    CursorPlaceBound(c, regions, v, x, |data|);
    var store' := WithBytes(store, PageAt(c), ByteIn(c, v), data);
    var value, value' := Value(store, regions, v), Value(store', regions, v);
    forall y: nat | y < |value| ensures value'[y] == Splice(value, x, data)[y] {
      ByteAfterWrite(store, c, regions, v, x, data, y);
    }
  }

  lemma CursorPlaceBound(c: Cursor, regions: seq<nat>, v: nat, x: nat, n: nat)
    requires v < CAPACITY && Inside(c, regions, v, x, n)
    ensures x + n <= ChainSize(|regions|, v)
  {
    CursorPlace(c, regions, v, x);
    if n > 0 {
      PiecePlaces(c, regions, v, x, n - 1, n);
    }
  }

  /** A piece that is written spares the links, the headers and all other pages. */
  lemma PieceWriteSpares(store: Store, c: Cursor, regions: seq<nat>, v: nat, x: nat, data: seq<Byte>)
    requires v < CAPACITY && Inside(c, regions, v, x, |data|) && Chained(store, regions)
    ensures var store' := WithBytes(store, PageAt(c), ByteIn(c, v), data);
      Chained(store', regions) && OnlyValueChanged(store, store', regions, v)
  {
    hide ChainSize, Field, Pow2;
    var store' := WithBytes(store, PageAt(c), ByteIn(c, v), data);
    assert InRegion(PageAt(c), regions[c.depth], c.depth);
    forall i | 0 <= i < |regions| ensures LinkOf(store', regions, i) {
      assert LinkOf(store, regions, i);
      assert InRegion(regions[i], regions[i], i);
      FieldElsewhere(store, PageAt(c), ByteIn(c, v), data, regions[i], 0, LINK_SIZE);
    }
    assert InRegion(regions[0], regions[0], 0);
  }

  // ---- reading and writing ----

  /** Advances the cursor over the rest of its page; false stands for the exception that is thrown
      when the chain ends there. */
  method NextPage(t: Transaction, c: Cursor, v: nat, ghost x: nat, ghost regions: seq<nat>) returns (ok: bool,
                  c': Cursor)
    requires Chained(t.store, regions) && v < CAPACITY && StandsAt(c, regions, v, x) && c.depth < |regions|
    ensures var x' := x + PAGE_SIZE - ByteIn(c, v);
      && x' <= ChainSize(|regions|, v)
      && (ok <==> x' < ChainSize(|regions|, v))
      && (ok ==> StandsAt(c', regions, v, x') && c'.depth < |regions| && c'.pageOffset == 0)
  {
    hide Field, NoOverlap, InRegion;
    CursorPlace(c, regions, v, x);
    NextInRegion(c, regions, v, x);
    c' := c.(regionOffset := c.regionOffset + 1, kind := PURE, pageOffset := 0);
    ok := true;
    if c'.regionOffset == Pow2(c'.depth) {
      assert LinkOf(t.store, regions, c.depth);
      var next := NextRegionStart(t, c'.regionStart);
      c' := Cursor(c'.depth + 1, next, 0, 0, CONTINUATION);
      ok := next != 0;
    }
    CursorPlace(c', regions, v, x + PAGE_SIZE - ByteIn(c, v));
  }

  method Read(t: Transaction, startPage: nat, v: nat, offset: nat, length: nat, ghost regions: seq<nat>)
    returns (ok: bool, buffer: seq<Byte>)
    requires Chained(t.store, regions) && startPage == regions[0] && v < CAPACITY
    requires offset < ChainSize(|regions|, v) || (offset == ChainSize(|regions|, v) && length == 0)
    ensures ok <==> offset + length <= ChainSize(|regions|, v)
    ensures ok ==> buffer == Value(t.store, regions, v)[offset..offset + length]
  {
    hide Field, FilePage, ChainSize, Chained, StandsAt, PlaceOf, ValueByte, ByteIn, PageAt;
    var c := Seek(t, startPage, v, offset, regions);
    CursorPlace(c, regions, v, offset);
    buffer := [];
    ok := true;
    ghost var value := Value(t.store, regions, v);
    while |buffer| < length
      invariant |buffer| <= length && offset + |buffer| <= |value| == ChainSize(|regions|, v)
      invariant |buffer| < length ==> StandsAt(c, regions, v, offset + |buffer|) && c.depth < |regions|
      invariant buffer == value[offset..offset + |buffer|]
    {
      var at := ByteIn(c, v);
      CursorInPage(c, regions, v, offset + |buffer|);
      var distance, pageSkip := length - |buffer|, PAGE_SIZE - at;
      var n := if distance < pageSkip then distance else pageSkip;
      PieceRead(t.store, c, regions, v, offset + |buffer|, n);
      var piece := FilePage(t.store, PageAt(c))[at..at + n];
      SliceGrows(value, offset, offset + |buffer|, offset + |buffer| + n);
      var more := true;
      if distance > pageSkip {
        more, c := NextPage(t, c, v, offset + |buffer|, regions);
      }
      buffer := buffer + piece;
      if !more {
        return false, buffer;
      }
    }
  }

  lemma SliceGrows(s: seq<Byte>, i: nat, j: nat, k: nat)
    requires i <= j <= k <= |s|
    ensures s[i..j] + s[j..k] == s[i..k]
  {
  }

  lemma CursorInPage(c: Cursor, regions: seq<nat>, v: nat, x: nat)
    requires v < CAPACITY && StandsAt(c, regions, v, x)
    ensures ByteIn(c, v) < PAGE_SIZE
  {
  }

  lemma OnlyValueChangedTwice(store: Store, store1: Store, store2: Store, regions: seq<nat>, v: nat)
    requires v < CAPACITY && OnlyValueChanged(store, store1, regions, v) && OnlyValueChanged(store1, store2, regions, v)
    ensures OnlyValueChanged(store, store2, regions, v)
  {
    hide FilePage;
  }

  lemma SpliceMore(value: seq<Byte>, offset: nat, data: seq<Byte>, done: nat, n: nat)
    requires done + n <= |data| && offset + done + n <= |value|
    ensures Splice(Splice(value, offset, data[..done]), offset + done, data[done..done + n])
         == Splice(value, offset, data[..done + n])
  {
  }

  /** The write loop over a chain that may be too short; false stands for its exception. */
  method Overwrite(t: Transaction, startPage: nat, v: nat, offset: nat, buffer: seq<Byte>, ghost regions: seq<nat>)
    returns (ok: bool)
    requires Chained(t.store, regions) && startPage == regions[0] && v < CAPACITY
    requires offset < ChainSize(|regions|, v) || (offset == ChainSize(|regions|, v) && buffer == [])
    modifies t
    ensures ok <==> offset + |buffer| <= ChainSize(|regions|, v)
    ensures Chained(t.store, regions) && OnlyValueChanged(old(t.store), t.store, regions, v)
    ensures var written := if ok then buffer else buffer[..ChainSize(|regions|, v) - offset];
      Value(t.store, regions, v) == Splice(Value(old(t.store), regions, v), offset, written)
  {
    hide Field, FilePage, ChainSize, Chained, StandsAt, PlaceOf, WithBytes, OnlyValueChanged, Splice;
    var c := Seek(t, startPage, v, offset, regions);
    CursorPlace(c, regions, v, offset);
    var done: nat := 0;
    ghost var value := Value(t.store, regions, v);
    SameValue(t.store, regions, v, offset);
    ok := true;
    while done < |buffer|
      invariant done <= |buffer| && offset + done <= |value| == ChainSize(|regions|, v)
      invariant done < |buffer| ==> StandsAt(c, regions, v, offset + done) && c.depth < |regions|
      invariant Chained(t.store, regions) && OnlyValueChanged(old(t.store), t.store, regions, v)
      invariant Value(t.store, regions, v) == Splice(value, offset, buffer[..done])
    {
      var at := ByteIn(c, v);
      CursorInPage(c, regions, v, offset + done);
      var distance, pageSkip := |buffer| - done, PAGE_SIZE - at;
      var n := if distance < pageSkip then distance else pageSkip;
      ghost var before := t.store;
      PieceWritten(before, c, regions, v, offset + done, buffer[done..done + n]);
      SpliceMore(value, offset, buffer, done, n);
      t.Write(PageAt(c), at, buffer[done..done + n]);
      OnlyValueChangedTwice(old(t.store), before, t.store, regions, v);
      if distance > pageSkip {
        ok, c := NextPage(t, c, v, offset + done, regions);
        if !ok {
          return false;
        }
      }
      done := done + n;
    }
    assert buffer[..done] == buffer;
  }

  lemma SameValue(store: Store, regions: seq<nat>, v: nat, offset: nat)
    requires v < CAPACITY && offset <= ChainSize(|regions|, v)
    ensures Value(store, regions, v) == Splice(Value(store, regions, v), offset, [])
    ensures OnlyValueChanged(store, store, regions, v)
  {
  }

  lemma PieceWritten(store: Store, c: Cursor, regions: seq<nat>, v: nat, x: nat, data: seq<Byte>)
    requires v < CAPACITY && Chained(store, regions)
    requires StandsAt(c, regions, v, x) && c.depth < |regions| && ByteIn(c, v) + |data| <= PAGE_SIZE
    ensures var store' := WithBytes(store, PageAt(c), ByteIn(c, v), data);
      && Chained(store', regions) && OnlyValueChanged(store, store', regions, v)
      && x + |data| <= ChainSize(|regions|, v)
      && Value(store', regions, v) == Splice(Value(store, regions, v), x, data)
  {
    hide ChainSize, StandsAt, ByteIn, FilePage, PlaceOf, WithBytes, Splice, OnlyValueChanged;
    PieceWriteSpares(store, c, regions, v, x, data);
    PieceWriteValue(store, c, regions, v, x, data);
  }
}
