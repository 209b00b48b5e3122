/** A leaf with one entry that needs several regions: creating it, and reading its value back. */
module BigLeaf {
  import opened Bytes
  import opened BufferPool
  import opened Pages
  import opened Ownership
  import opened SpaceManager
  import opened BigValue
  import opened ValueRegions
  import opened LeafCodec
  import opened LeafEdits

  /** The pages hold one entry: header, usage and count on the first page, the value over a chain that is
      no longer than needed, and zeros behind it. */
  ghost predicate HoldsBig(store: Store, v: View, regions: seq<nat>, e: Entry) {
    && GoodEntry(e) && Stored(store, v, regions) && |regions| == RegionsFor(|Encode(e)|)
    && HeaderHolds(store, regions[0], e.key, |e.value|)
    && |e.value| <= ChainSize(|regions|, |e.key| + 9)
    && ValueIs(Value(store, regions, |e.key| + 9), e.value)
  }

  ghost predicate HeaderHolds(store: Store, page: nat, key: seq<Byte>, length: nat) {
    && Usage(store, page) == |key| + 9 + length && EntryCount(store, page) == 1
    && Holds(DataOf(store, page), 0, EntryHeader(key, length))
  }

  /** The flat array holds the value, and zeros behind it. */
  predicate ValueIs(flat: seq<Byte>, value: seq<Byte>) {
    |value| <= |flat| && flat == value + Zeros(|flat| - |value|)
  }

  /** The first page of such a leaf holds the first bytes of the encoded entry. */
  lemma FirstPageOfBig(store: Store, v: View, regions: seq<nat>, e: Entry)
    requires HoldsBig(store, v, regions, e) && |Encode(e)| > CAPACITY
    ensures DataOf(store, regions[0]) == Encode(e)[..CAPACITY]
    ensures Readable(DataOf(store, regions[0]), [e])
  {
    hide LittleEndian, SpaceOk, Field, NoOverlap, Owned, FilePage, Value, DataOf;
    var data := DataOf(store, regions[0]);
    forall i: nat | i < CAPACITY ensures i < |data| && data[i] == Encode(e)[i] {
      BigByte(store, v, regions, e, i);
    }
    PageLength(store, regions[0]);
    BigIsReadable(data, e);
  }

  lemma PageLength(store: Store, page: nat)
    ensures |DataOf(store, page)| == CAPACITY
  {
  }

  lemma BigByte(store: Store, v: View, regions: seq<nat>, e: Entry, i: nat)
    requires HoldsBig(store, v, regions, e) && |Encode(e)| > CAPACITY && i < CAPACITY
    ensures DataOf(store, regions[0])[i] == Encode(e)[i]
  {
    hide EntryHeader, SpaceOk, Field, NoOverlap, Owned, FilePage, ChainSize, ValueByte, LinkOf;
    var offset := |e.key| + 9;
    EncodeParts(e);
    if i < offset {
      assert DataOf(store, regions[0])[..offset][i] == EntryHeader(e.key, |e.value|)[i];
    } else {
      FirstPageByte(store, regions, offset, i - offset);
    }
  }

  lemma FirstPageByte(store: Store, regions: seq<nat>, offset: nat, x: nat)
    requires regions != [] && offset + x < CAPACITY
    ensures x < ChainSize(|regions|, offset)
    ensures Value(store, regions, offset)[x] == DataOf(store, regions[0])[offset + x]
  {
    hide FilePage;
    PlaceFromAt(0, 0, START_HEADER + offset + x, offset);
    PlaceInChain(x, |regions|, offset);
  }

  /** A page just handed out is a chain of one region. */
  lemma FreshChain(store: Store, v: View, page: nat)
    requires SpaceOk(store, v) && Region(page, 0) in v.alloc.live && FilePage(store, page) == ZERO_PAGE
    ensures Stored(store, v, [page]) && LivePage(v.alloc, page)
  {
    hide Field, FilePage, Partition, SpaceOk;
    SpaceParts(store, v, 0);
    StartIsLive(v.alloc, page, 0);
    LiveIsUsed(store, v, page, 0);
    FieldOfZero(store, page, 0, LINK_SIZE);
  }

  /** Writing behind the link of the first page leaves a value in use. */
  lemma HeaderWritten(store: Store, store': Store, v: View, regions: seq<nat>)
    requires Stored(store, v, regions) && OnlyLeafChanged(store, store', regions[0])
    ensures Stored(store', v, regions)
  {
    hide SpaceOk, Field, FilePage, Partition, LivePage, Owned, NoOverlap, InRegion;
    StoredParts(store, v, regions);
    LiveWritesKeepSpace(store, store', v);
    StartsDiffer(regions);
    forall i | 0 <= i < |regions| ensures LinkOf(store', regions, i) {
      assert LinkOf(store, regions, i);
      if i > 0 {
        SameFields(store, store', regions[i]);
      }
    }
  }

  lemma StartsDiffer(regions: seq<nat>)
    requires regions != [] && NoOverlap(regions)
    ensures forall i :: 0 < i < |regions| ==> regions[i] != regions[0]
  {
    forall i | 0 < i < |regions| ensures regions[i] != regions[0] {
      assert Pow2(i) >= 1 && Pow2(0) == 1;
      assert InRegion(regions[i], regions[i], i) && InRegion(regions[0], regions[0], 0);
    }
  }

  // ---- writing parts of the value ----

  lemma PartOfFlat(flat: seq<Byte>, value: seq<Byte>, at: nat, buffer: seq<Byte>)
    requires ValueIs(flat, value) && at + |buffer| <= |flat|
    ensures ValueIs(Splice(flat, at, buffer), PartWritten(value, at, buffer))
  {
  }

  lemma MoreZeros(flat: seq<Byte>, value: seq<Byte>, n: nat)
    requires ValueIs(flat, value)
    ensures ValueIs(flat + Zeros(n), value)
  {
  }

  /** A chain that was of the right length stays so when it grows no more than a write needs. */
  lemma ChainLength(n: nat, n': nat, size: nat, wanted: nat)
    requires 0 < n <= n' && n == RegionsFor(size) && wanted <= ChainSize(n', 0)
    requires n' > n ==> ChainSize(n' - 1, 0) < wanted
    ensures n' == RegionsFor(if wanted > size then wanted else size)
  {
    hide ChainSize;
    RegionsForIsLeast(size, n);
    RegionsForIsLeast(wanted, n');
    ChainSizeMonotone(n, n', 0);
    if n' > n {
      RegionsForIsLeast(wanted, n' - 1);
      ChainSizeMonotone(n, n' - 1, 0);
    } else if wanted > size {
      RegionsForGrows(size, wanted);
    }
  }

  lemma RegionsForGrows(size: nat, size': nat)
    requires size <= size'
    ensures 0 < RegionsFor(size) <= RegionsFor(size')
  {
    hide PlaceOf;
    RegionsForIsLeast(size', RegionsFor(size'));
    RegionsForIsLeast(size, RegionsFor(size'));
  }

  /** Writes a part of a value over its chain: the flat array and the length of the chain follow. */
  method WriteValue(t: Transaction, page: nat, key: seq<Byte>, at: nat, buffer: seq<Byte>, ghost value: seq<Byte>,
                    ghost length: nat, ghost regions: seq<nat>, ghost v: View)
    returns (ghost regions': seq<nat>, ghost v': View)
    requires Stored(t.store, v, regions) && regions[0] == page && HasSpace(v.alloc) && |key| + 9 < CAPACITY
    requires |key| + 9 + at + |buffer| <= ChainSize(MAX_REGIONS, 0)
    requires HeaderHolds(t.store, page, key, length) && ValueIs(Value(t.store, regions, |key| + 9), value)
    requires |regions| == RegionsFor(|key| + 9 + |value|)
    modifies t
    ensures Stored(t.store, v', regions') && regions <= regions'
    ensures HeaderHolds(t.store, page, key, length)
    ensures ValueIs(Value(t.store, regions', |key| + 9), PartWritten(value, at, buffer))
    ensures |regions'| == RegionsFor(|key| + 9 + |PartWritten(value, at, buffer)|)
    ensures v'.alloc.live == v.alloc.live + RegionSet(regions', |regions|)
    ensures forall p: nat :: LivePage(v.alloc, p) && Outside(regions', p) ==> FilePage(t.store, p) == FilePage(old(t.store), p)
  {
    hide SpaceOk, Field, FilePage, Usage, EntryCount, DataOf, Partition, EntryHeader, Chained, Owned, RegionSet, LivePage, Splice,
         Value, Pow2, ValueIs, PartWritten, ChainSize, RegionsFor, Holds, Outside;
    ghost var store, offset := t.store, |key| + 9;
    ghost var flat := Value(store, regions, offset);
    StoredParts(store, v, regions);
    regions', v' := ValueRegions.Write(t, page, |key| + 9, at, buffer, regions, v);
    StoredParts(t.store, v', regions');
    HeaderLength(key, length);
    ValueLength(store, regions, offset);
    ValueLength(t.store, regions', offset);
    HeaderStays(store, t.store, page, offset, EntryHeader(key, length));
    MoreZeros(flat, value, ChainSize(|regions'|, offset) - ChainSize(|regions|, offset));
    PartOfFlat(flat + Zeros(ChainSize(|regions'|, offset) - ChainSize(|regions|, offset)), value, at, buffer);
    ChainSizeFrom(|regions'|, offset);
    ChainLength(|regions|, |regions'|, offset + |value|, offset + at + |buffer|);
  }

  lemma HeaderLength(key: seq<Byte>, length: nat)
    ensures |EntryHeader(key, length)| == |key| + 9
  {
  }

  lemma ValueLength(store: Store, regions: seq<nat>, offset: nat)
    requires offset < CAPACITY
    ensures |Value(store, regions, offset)| == ChainSize(|regions|, offset)
  {
  }

  /** Usage, count, key and value length of a leaf with one entry. */
  method WriteHeader(t: Transaction, page: nat, key: seq<Byte>, length: nat)
    requires |key| + 9 < CAPACITY && |key| + 9 + length < U64_LIMIT
    modifies t
    ensures OnlyLeafChanged(old(t.store), t.store, page) && HeaderHolds(t.store, page, key, length)
    ensures DataOf(t.store, page)[|key| + 9..] == DataOf(old(t.store), page)[|key| + 9..]
  {
    hide Field, FilePage, WithField, WithBytes, OnlyLeafChanged, Usage, EntryCount, LittleEndian;
    ghost var store := t.store;
    UsageWritten(store, page, |key| + 9 + length);
    t.WriteField(page, USAGE, 8, |key| + 9 + length);
    ghost var store1 := t.store;
    CountWritten(store1, page, 1);
    t.WriteField(page, ENTRY_COUNT, 2, 1);
    ghost var store2 := t.store;
    DataWritten(store2, page, 0, EntryHeader(key, length));
    t.Write(page, START_HEADER, EntryHeader(key, length));
    OnlyLeafTwice(store, store1, store2, page);
    OnlyLeafTwice(store, store2, t.store, page);
  }

  /** Creates a leaf for an entry that needs more than one page. */
  method CreateBigLeaf(t: Transaction, key: seq<Byte>, value: seq<Byte>, ghost v: View)
    returns (page: nat, ghost regions: seq<nat>, ghost v': View)
    requires SpaceOk(t.store, v) && GoodEntry(Entry(key, value)) && v.alloc.next + 1 + Pow2(MAX_REGIONS) < U64_LIMIT
    requires |key| + 9 + |value| <= ChainSize(MAX_REGIONS, 0) && |key| + 9 + |value| < U64_LIMIT
    modifies t
    ensures HoldsBig(t.store, v', regions, Entry(key, value)) && regions[0] == page
    ensures v'.alloc.live == v.alloc.live + RegionSet(regions, 0) && Region(page, 0) !in v.alloc.live
    ensures forall p: nat :: LivePage(v.alloc, p) && Outside(regions, p) ==> FilePage(t.store, p) == FilePage(old(t.store), p)
  {
    hide SpaceOk, Field, FilePage, WithField, WithBytes, OnlyLeafChanged, HeaderHolds, DataOf, Partition, ValueIs, PartWritten,
         ChainSize, Chained, Owned, RegionSet, LivePage, GoodEntry, Bump, Pop, HandsOut, Value, Pow2, RegionsFor, Outside, KeepsOtherLists,
         Represents, EntryHeader, Encode;
    ghost var store, e := t.store, Entry(key, value);
    SpaceParts(store, v, 0);
    Pow2Doubles(0);
    Pow2Monotone(0, MAX_REGIONS);
    page, v' := Allocate(t, 0, v);
    SpaceParts(t.store, v', 0);
    AllocatedByPage(store, t.store, v, v', page);
    FreshChain(t.store, v', page);
    ghost var v1, store1 := v', t.store;
    EncodeParts(e);
    GoodKeyLength(e);
    WriteHeader(t, page, key, |value|);
    ghost var store4 := t.store;
    HeaderWritten(store1, store4, v1, [page]);
    FreshValue(store1, store4, page, |key| + 9);
    WholePart(value);
    regions, v' := WriteValue(t, page, key, 0, value, [], |value|, [page], v1);
    BigParts(t.store, v', regions, e);
    RegionsAdded(v.alloc, v1.alloc, v'.alloc, regions, page);
    BigFrame(store, store1, store4, t.store, v, v1, regions, page);
  }

  lemma WholePart(value: seq<Byte>)
    ensures PartWritten([], 0, value) == value
  {
  }

  lemma BigParts(store: Store, v: View, regions: seq<nat>, e: Entry)
    requires GoodEntry(e) && Stored(store, v, regions) && |regions| == RegionsFor(|e.key| + 9 + |e.value|)
    requires regions != [] && HeaderHolds(store, regions[0], e.key, |e.value|)
    requires ValueIs(Value(store, regions, |e.key| + 9), e.value)
    ensures HoldsBig(store, v, regions, e)
  {
    hide SpaceOk, Owned, Chained, HeaderHolds, RegionsFor, ValueByte;
    EncodeParts(e);
  }

  /** A value on one page is the rest of its data section. */
  lemma OnePageValue(store: Store, page: nat, offset: nat)
    requires offset < CAPACITY
    ensures Value(store, [page], offset) == DataOf(store, page)[offset..]
    ensures RegionsFor(offset) == 1
  {
    hide FilePage, PlaceOf, ValueByte;
    ChainSizeClosed(0, offset);
    ChainSizeClosed(0, 0);
    Pow2Doubles(0);
    RegionsForIsLeast(offset, 1);
    RegionsForGrows(0, offset);
    var value, data := Value(store, [page], offset), DataOf(store, page);
    forall x: nat | x < CAPACITY - offset ensures value[x] == data[offset..][x] {
      FirstPageByte(store, [page], offset, x);
    }
  }

  /** The value of a fresh page with a header is all zeros. */
  lemma FreshValue(store: Store, store': Store, page: nat, offset: nat)
    requires FilePage(store, page) == ZERO_PAGE && offset < CAPACITY
    requires DataOf(store', page)[offset..] == DataOf(store, page)[offset..]
    ensures ValueIs(Value(store', [page], offset), []) && RegionsFor(offset) == 1
  {
    hide FilePage;
    ZeroData(store, page);
    OnePageValue(store', page, offset);
  }

  /** A leaf with one entry that fits on its page is one with a chain of one region. */
  lemma SingleIsBig(store: Store, v: View, page: nat, e: Entry)
    requires Clean(store, page, [e]) && Stored(store, v, [page])
    ensures HoldsBig(store, v, [page], e)
  {
    hide SpaceOk, Owned, Field, FilePage, EntryHeader, Value;
    EncodeOne(e);
    EncodeParts(e);
    assert [e][0] == e;
    var data, offset := DataOf(store, page), |e.key| + 9;
    assert data == Encode(e) + Zeros(CAPACITY - |Encode(e)|);
    assert Holds(data, 0, EntryHeader(e.key, |e.value|));
    OnePageValue(store, page, offset);
    assert data[offset..] == e.value + Zeros(CAPACITY - |Encode(e)|);
    assert ValueIs(data[offset..], e.value);
    FitsOneRegion(|Encode(e)|);
    BigParts(store, v, [page], e);
  }

  lemma FitsOneRegion(size: nat)
    requires size <= CAPACITY
    ensures RegionsFor(size) == 1
  {
    hide PlaceOf;
    ChainSizeClosed(0, 0);
    Pow2Doubles(0);
    RegionsForIsLeast(size, 1);
    RegionsForGrows(0, size);
  }

  /** Writes a part of the value of a leaf with one entry, which may grow beyond its page and its chain. */
  method WritePart(t: Transaction, page: nat, key: seq<Byte>, at: nat, buffer: seq<Byte>,
                   ghost v: View, ghost regions: seq<nat>, ghost e: Entry)
    returns (ghost regions': seq<nat>, ghost v': View)
    requires HoldsBig(t.store, v, regions, e) && key == e.key && regions[0] == page && HasSpace(v.alloc)
    requires |key| + 9 + at + |buffer| <= ChainSize(MAX_REGIONS, 0) && |key| + 9 + |PartWritten(e.value, at, buffer)| < U64_LIMIT
    modifies t
    ensures HoldsBig(t.store, v', regions', Entry(key, PartWritten(e.value, at, buffer))) && regions <= regions'
    ensures v'.alloc.live == v.alloc.live + RegionSet(regions', |regions|)
    ensures forall p: nat :: LivePage(v.alloc, p) && Outside(regions', p) ==> FilePage(t.store, p) == FilePage(old(t.store), p)
  {
    hide SpaceOk, Field, FilePage, WithField, WithBytes, OnlyLeafChanged, DataOf, Partition, ValueIs, PartWritten, Holds,
         ChainSize, Chained, Owned, RegionSet, LivePage, Value, RegionsFor, Outside, EntryHeader, FromLittleEndian, Usage, EntryCount;
    ghost var store, e' := t.store, Entry(key, PartWritten(e.value, at, buffer));
    EncodeParts(e);
    GoodKeyLength(e);
    StoredParts(store, v, regions);
    HeaderOfBig(store, v, regions, e);
    var lengthOffset := |key| + 1;
    var existing := FromLittleEndian(DataOf(t.store, page)[lengthOffset..lengthOffset + 8]);
    var newLength := if at + |buffer| > existing then at + |buffer| else existing;
    PartLength(e.value, at, buffer);
    regions', v' := WriteValue(t, page, key, at, buffer, e.value, |e.value|, regions, v);
    ghost var store1 := t.store;
    StoredParts(store1, v', regions');
    if newLength != existing {
      SetLength(t, page, key, existing, newLength);
      HeaderWritten(store1, t.store, v', regions');
      ValueBehindHeader(store1, t.store, v', regions', |key| + 9);
      LengthFrame(store, store1, t.store, v, regions', page);
    }
    BigParts(t.store, v', regions', e');
  }

  lemma PartLength(value: seq<Byte>, at: nat, buffer: seq<Byte>)
    ensures |PartWritten(value, at, buffer)| == if at + |buffer| > |value| then at + |buffer| else |value|
  {
  }

  /** Sets the length of the value, and the usage by the difference. */
  method SetLength(t: Transaction, page: nat, key: seq<Byte>, existing: nat, length: nat)
    requires |key| + 9 < CAPACITY && |key| + 9 + length < U64_LIMIT && HeaderHolds(t.store, page, key, existing) && length >= existing
    modifies t
    ensures HeaderHolds(t.store, page, key, length) && OnlyLeafChanged(old(t.store), t.store, page)
    ensures DataOf(t.store, page)[|key| + 9..] == DataOf(old(t.store), page)[|key| + 9..]
  {
    hide Field, FilePage, WithField, WithBytes, OnlyLeafChanged, Usage, EntryCount, LittleEndian, DataOf;
    ghost var store := t.store;
    PageLength(store, page);
    DataWritten(store, page, |key| + 1, LittleEndian(length, 8));
    t.Write(page, START_HEADER + |key| + 1, LittleEndian(length, 8));
    ghost var store1 := t.store;
    LengthReplaced(DataOf(store, page), DataOf(store1, page), key, existing, length);
    UsageWritten(store1, page, Usage(store1, page) + length - existing);
    t.WriteField(page, USAGE, 8, Usage(t.store, page) + length - existing);
    OnlyLeafTwice(store, store1, t.store, page);
  }

  lemma LengthReplaced(data: seq<Byte>, data': seq<Byte>, key: seq<Byte>, existing: nat, length: nat)
    requires |key| + 9 <= |data| && Holds(data, 0, EntryHeader(key, existing))
    requires data' == Splice(data, |key| + 1, LittleEndian(length, 8))
    ensures Holds(data', 0, EntryHeader(key, length)) && data'[|key| + 9..] == data[|key| + 9..]
  {
    hide LittleEndian;
    var n := |key| + 1;
    assert data[..n] == EntryHeader(key, existing)[..n] by { assert data[..n] == data[0..0 + |EntryHeader(key, existing)|][..n]; }
    assert data'[0..n + 8] == data[..n] + LittleEndian(length, 8);
  }

  /** A change before the value on its first page leaves it. */
  lemma ValueBehindHeader(store: Store, store': Store, v: View, regions: seq<nat>, offset: nat)
    requires Stored(store, v, regions) && offset < CAPACITY && OnlyLeafChanged(store, store', regions[0])
    requires DataOf(store', regions[0])[offset..] == DataOf(store, regions[0])[offset..]
    ensures Value(store', regions, offset) == Value(store, regions, offset)
  {
    hide SpaceOk, Owned, Field, ChainSize, PlaceOf, ValueByte, FilePage;
    var value, value' := Value(store, regions, offset), Value(store', regions, offset);
    forall x: nat | x < |value| ensures value'[x] == value[x] {
      ByteBehindHeader(store, store', regions, offset, x);
    }
  }

  lemma ByteBehindHeader(store: Store, store': Store, regions: seq<nat>, offset: nat, x: nat)
    requires regions != [] && NoOverlap(regions) && offset < CAPACITY && PlaceOf(x, offset).region < |regions|
    requires OnlyLeafChanged(store, store', regions[0])
    requires DataOf(store', regions[0])[offset..] == DataOf(store, regions[0])[offset..]
    ensures ValueByte(store', regions, x, offset) == ValueByte(store, regions, x, offset)
  {
    hide Field, PlaceOf, FilePage, ChainSize;
    var p := PlaceOf(x, offset);
    PlaceIsInRegion(x, regions, offset);
    var q := regions[p.region] + p.at / PAGE_SIZE;
    if q == regions[0] {
      PageInItself(q);
      assert InRegion(q, regions[0], 0);
      assert p.region == 0 && p.at / PAGE_SIZE == 0;
      SamePlace(store, store', q, offset, p.at);
    }
  }

  lemma SamePlace(store: Store, store': Store, page: nat, offset: nat, at: nat)
    requires START_HEADER + offset <= at < PAGE_SIZE && offset < CAPACITY
    requires DataOf(store', page)[offset..] == DataOf(store, page)[offset..]
    ensures FilePage(store', page)[at] == FilePage(store, page)[at]
  {
    hide FilePage;
    assert DataOf(store', page)[offset..][at - START_HEADER - offset] == FilePage(store', page)[at];
    assert DataOf(store, page)[offset..][at - START_HEADER - offset] == FilePage(store, page)[at];
  }

  lemma LengthFrame(store: Store, store1: Store, store2: Store, v: View, regions: seq<nat>, page: nat)
    requires regions != [] && regions[0] == page && OnlyLeafChanged(store1, store2, page)
    requires forall p: nat :: LivePage(v.alloc, p) && Outside(regions, p) ==> FilePage(store1, p) == FilePage(store, p)
    ensures forall p: nat :: LivePage(v.alloc, p) && Outside(regions, p) ==> FilePage(store2, p) == FilePage(store, p)
  {
    hide FilePage, LivePage, Field, InRegion;
    PageInItself(page);
    assert InRegion(page, regions[0], 0);
  }

  // ---- freeing ----

  /** The orders whose free list has no room. */
  ghost function FullLists(store: Store, v: View): set<nat>
    requires |v.chains| == ORDERS
  {
    set o | 0 <= o < ORDERS && ListIsFull(store, v, o)
  }

  lemma ErasesWhenFull(store: Store, v: View, size: nat)
    requires |v.chains| == ORDERS
    ensures Erases(size, FullLists(store, v)) <==> AnyFull(store, v, RegionsFor(size))
  {
    hide ListIsFull, RegionsFor;
    if o :| 0 <= o < ORDERS && o < RegionsFor(size) && ListIsFull(store, v, o) {
      assert o in FullLists(store, v);
    }
  }

  /** What the first page of a big value reads as when its chain has been freed, in a file of less than
      65536 pages: as no entries exactly when a free list that a region went to had no room, else as before. */
  lemma FreedReads(store: Store, v: View, store': Store, v': View, regions: seq<nat>, e: Entry, beyond: nat -> Byte)
    requires HoldsBig(store, v, regions, e) && |v.chains| == ORDERS && |v'.alloc.free| == ORDERS
    requires FirstPageFate(store, v, store', v', regions, |regions|) && v.alloc.next <= U16_LIMIT
    ensures if Erases(|Encode(e)|, FullLists(store, v)) then
              Usage(store', regions[0]) == 0 && DataOf(store', regions[0]) == Zeros(CAPACITY)
              && EntriesFrom(DataOf(store', regions[0]), beyond, 0) == []
            else FilePage(store', regions[0]) == FilePage(store, regions[0])
  {
    hide SpaceOk, HeaderHolds, ValueIs, FilePage, RegionsFor, FreshListPage, Chained, ListIsFull, EntriesFrom, Usage, DataOf;
    ErasesWhenFull(store, v, |Encode(e)|);
    if AnyFull(store, v, |regions|) {
      var q := regions[0];
      if FreshListPage(store', q, 0) {
        ErasedReads(store', q, 0, beyond);
      } else {
        var i :| 0 < i < |regions| && FreshListPage(store', q, regions[i]);
        LiveIsUsed(store, v, regions[i], i);
        ErasedReads(store', q, regions[i], beyond);
      }
    }
  }

  lemma ErasedReads(store: Store, page: nat, entry: nat, beyond: nat -> Byte)
    requires FreshListPage(store, page, entry) && entry < U16_LIMIT
    ensures Usage(store, page) == 0 && DataOf(store, page) == Zeros(CAPACITY)
    ensures EntriesFrom(DataOf(store, page), beyond, 0) == []
  {
    hide FilePage;
    var bytes := FilePage(store, page);
    SmallEntry(entry);
    ZerosAreZero(8);
    assert bytes[USAGE..USAGE + 8] == bytes[NEXT..][..8] == Zeros(8);
    assert bytes[START_HEADER..] == bytes[NEXT..][10..];
    assert bytes[NEXT..][10..] == LittleEndian(entry, 8)[2..] + Zeros(PAGE_SIZE - 24);
    assert DataOf(store, page) == Zeros(CAPACITY);
    EndOfPage(DataOf(store, page), beyond, 0);
  }

  lemma SmallEntry(entry: nat)
    requires entry < U16_LIMIT
    ensures LittleEndian(entry, 8)[2..] == Zeros(6)
  {
    ZeroBytes(6);
    assert LittleEndian(entry, 8) == [entry % 256] + LittleEndian(entry / 256, 7);
    assert LittleEndian(entry / 256, 7) == [entry / 256 % 256] + LittleEndian(entry / 256 / 256, 6);
  }

  lemma GoodKeyLength(e: Entry)
    requires GoodEntry(e)
    ensures |e.key| + 9 < CAPACITY
  {
  }

  lemma AllocatedByPage(store: Store, store': Store, v: View, v': View, page: nat)
    requires Partition(v.alloc) && v'.alloc == Allocated(v.alloc, 0) && page == AllocatedPage(v.alloc, 0)
    requires HandsOut(store, store', page, 0)
    ensures Region(page, 0) in v'.alloc.live && Region(page, 0) !in v.alloc.live && page > 0
    ensures FilePage(store', page) == ZERO_PAGE && v'.alloc.live == v.alloc.live + {Region(page, 0)}
    ensures v'.alloc.next <= v.alloc.next + 1
    ensures forall p: nat :: LivePage(v.alloc, p) ==> FilePage(store', p) == FilePage(store, p) && p != page
  {
    hide FilePage, LiveOk, FreeOk, ListsOk;
    AllocatedLive(v.alloc, 0);
    AllocatedKeepsPartition(v.alloc, 0);
    FreshAllocation(store, v, store', 0);
    assert Pow2(0) == 1;
    assert InRegion(page, page, 0);
  }

  lemma HeaderStays(store: Store, store': Store, page: nat, offset: nat, header: seq<Byte>)
    requires offset < CAPACITY && |header| == offset && Holds(DataOf(store, page), 0, header)
    requires FilePage(store', page)[LINK_SIZE..START_HEADER + offset] == FilePage(store, page)[LINK_SIZE..START_HEADER + offset]
    ensures Holds(DataOf(store', page), 0, header)
    ensures Usage(store', page) == Usage(store, page) && EntryCount(store', page) == EntryCount(store, page)
  {
    var n := START_HEADER + offset;
    var a, b := FilePage(store, page), FilePage(store', page);
    assert forall i :: LINK_SIZE <= i < n ==> a[i] == a[LINK_SIZE..n][i - LINK_SIZE];
    assert forall i :: LINK_SIZE <= i < n ==> b[i] == b[LINK_SIZE..n][i - LINK_SIZE];
    assert b[USAGE..USAGE + 8] == a[USAGE..USAGE + 8];
    assert b[ENTRY_COUNT..ENTRY_COUNT + 2] == a[ENTRY_COUNT..ENTRY_COUNT + 2];
    assert b[START_HEADER..n] == a[START_HEADER..n];
    assert DataOf(store', page)[..offset] == b[START_HEADER..n];
    assert DataOf(store, page)[..offset] == a[START_HEADER..n];
  }

  lemma RegionsAdded(a: Allocator, a1: Allocator, a': Allocator, regions: seq<nat>, page: nat)
    requires [page] <= regions && a1.live == a.live + {Region(page, 0)} && a'.live == a1.live + RegionSet(regions, 1)
    ensures a'.live == a.live + RegionSet(regions, 0)
  {
    RegionSetTwice([page], regions, 0);
    NoRegions();
    RegionSetSnoc([], page, 0);
    assert [] + [page] == [page];
  }

  lemma BigFrame(store: Store, store1: Store, store4: Store, store': Store, v: View, v1: View, regions: seq<nat>,
                 page: nat)
    requires Partition(v.alloc) && Partition(v1.alloc) && v.alloc.live <= v1.alloc.live
    requires forall p: nat :: LivePage(v.alloc, p) ==> FilePage(store1, p) == FilePage(store, p) && p != page
    requires OnlyLeafChanged(store1, store4, page)
    requires forall p: nat :: LivePage(v1.alloc, p) && Outside(regions, p) ==> FilePage(store', p) == FilePage(store4, p)
    ensures forall p: nat :: LivePage(v.alloc, p) && Outside(regions, p) ==> FilePage(store', p) == FilePage(store, p)
  {
    hide Partition, FilePage, Outside, LivePage;
    forall p: nat | LivePage(v.alloc, p) && Outside(regions, p) ensures FilePage(store', p) == FilePage(store, p) {
      StaysLive(v.alloc, v1.alloc, p);
    }
  }

  /** Reads a part of the value under a key from a leaf that goes on in further regions. */
  method ReadPart(t: Transaction, page: nat, key: seq<Byte>, offset: nat, length: nat, ghost v: View,
                  ghost regions: seq<nat>, ghost e: Entry)
    returns (found: bool, part: seq<Byte>)
    requires HoldsBig(t.store, v, regions, e) && |Encode(e)| > CAPACITY && regions[0] == page && NulFree(key)
    requires offset <= |e.value|
    ensures found <==> key == e.key
    ensures found ==> part == e.value[offset..if offset + length < |e.value| then offset + length else |e.value|]
  {
    hide SpaceOk, Field, FilePage, Partition, EntryHeader, ChainSize, Chained, Owned, DataOf, Readable, FromLittleEndian, ValueByte, Encode;
    FirstPageOfBig(t.store, v, regions, e);
    var data := DataOf(t.store, page);
    var entryOffset := FindEntryInLeaf(data, key, [e]);
    OnlyIndex(e, key);
    part := [];
    found := entryOffset != -1;
    if !found {
      return;
    }
    HeaderOfBig(t.store, v, regions, e);
    var at := |key| + 1;
    var valueLength := FromLittleEndian(data[at..at + 8]);
    var n := if length < valueLength - offset then length else valueLength - offset;
    var ok;
    ok, part := BigValue.Read(t, page, at + 8, offset, n, regions);
    SliceOfPrefix(Value(t.store, regions, at + 8), |e.value|, offset, offset + n);
  }

  lemma OnlyIndex(e: Entry, key: seq<Byte>)
    ensures IndexOf([e], key) == if key == e.key then 0 else -1
    ensures Offset([e], 0) == 0
  {
    OffsetEnds([e]);
  }

  lemma HeaderOfBig(store: Store, v: View, regions: seq<nat>, e: Entry)
    requires HoldsBig(store, v, regions, e)
    ensures var at := |e.key| + 1;
      at + 8 < CAPACITY && Chained(store, regions)
      && FromLittleEndian(DataOf(store, regions[0])[at..at + 8]) == |e.value|
  {
    hide SpaceOk, Field, FilePage, EntryHeader, ChainSize, NoOverlap, LinkOf, Owned, FromLittleEndian, Value;
    HeaderParts(DataOf(store, regions[0]), 0, e.key, |e.value|);
    assert 0 + |e.key| + 1 == |e.key| + 1 && 0 + |e.key| + 9 == |e.key| + 9;
  }

  lemma SliceOfPrefix(s: seq<Byte>, n: nat, i: nat, j: nat)
    requires i <= j <= n <= |s|
    ensures s[i..j] == s[..n][i..j]
  {
  }
}
