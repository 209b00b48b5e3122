/** Building a leaf page and editing it in place: a new leaf, an appended entry, a value replaced by
    one of any length, an entry removed. */
module LeafEdits {
  import opened Bytes
  import opened Basics
  import opened BufferPool
  import opened Pages
  import opened BigValue
  import opened LeafCodec

  // Fields of the first page of a leaf; the link comes first.
  const USAGE: nat := 8
  const ENTRY_COUNT: nat := 16

  /** The header of a leaf: link, usage and count, side by side. */
  lemma HeaderLayout()
    ensures USAGE == LINK_SIZE && ENTRY_COUNT == USAGE + 8 && START_HEADER == ENTRY_COUNT + 2
    ensures CAPACITY + START_HEADER == PAGE_SIZE
  {
  }

  /** The data section of a leaf page. */
  function DataOf(store: Store, page: nat): (data: seq<Byte>)
    ensures |data| == CAPACITY
  {
    FilePage(store, page)[START_HEADER..]
  }

  function Usage(store: Store, page: nat): nat {
    Field(store, page, USAGE, 8)
  }

  function EntryCount(store: Store, page: nat): nat {
    Field(store, page, ENTRY_COUNT, 2)
  }

  /** The page holds the entries, and `rest` behind them. */
  ghost predicate Holding(store: Store, page: nat, entries: seq<Entry>, rest: seq<Byte>) {
    && AllGood(entries)
    && DataOf(store, page) == EncodeAll(entries) + rest
    && Usage(store, page) == |EncodeAll(entries)|
    && EntryCount(store, page) == |entries|
  }

  /** The unused space of the page is zero. */
  ghost predicate Clean(store: Store, page: nat, entries: seq<Entry>) {
    |EncodeAll(entries)| <= CAPACITY && Holding(store, page, entries, Zeros(CAPACITY - |EncodeAll(entries)|))
  }

  /** Only this page differs, and its link does not. */
  ghost predicate OnlyLeafChanged(store: Store, store': Store, page: nat) {
    && (forall p: nat :: p != page ==> FilePage(store', p) == FilePage(store, p))
    && Field(store', page, 0, LINK_SIZE) == Field(store, page, 0, LINK_SIZE)
  }

  // ---- writes to the page ----

  lemma DataWritten(store: Store, page: nat, offset: nat, bytes: seq<Byte>)
    requires offset + |bytes| <= CAPACITY
    ensures var store' := WithBytes(store, page, START_HEADER + offset, bytes);
      && DataOf(store', page) == Splice(DataOf(store, page), offset, bytes)
      && Usage(store', page) == Usage(store, page) && EntryCount(store', page) == EntryCount(store, page)
      && OnlyLeafChanged(store, store', page)
  {
    hide Field;
    FieldElsewhere(store, page, START_HEADER + offset, bytes, page, USAGE, 8);
    FieldElsewhere(store, page, START_HEADER + offset, bytes, page, ENTRY_COUNT, 2);
    FieldElsewhere(store, page, START_HEADER + offset, bytes, page, 0, LINK_SIZE);
    SplicedBehind(FilePage(store, page), START_HEADER, offset, bytes);
  }

  lemma SplicedBehind(s: seq<Byte>, k: nat, offset: nat, bytes: seq<Byte>)
    requires k + offset + |bytes| <= |s|
    ensures Splice(s, k + offset, bytes)[k..] == Splice(s[k..], offset, bytes)
  {
  }

  lemma UsageWritten(store: Store, page: nat, usage: nat)
    requires usage < U64_LIMIT
    ensures var store' := WithField(store, page, USAGE, 8, usage);
      && DataOf(store', page) == DataOf(store, page)
      && Usage(store', page) == usage && EntryCount(store', page) == EntryCount(store, page)
      && OnlyLeafChanged(store, store', page)
  {
    Powers();
    hide Field, LittleEndian, Pow256;
    FieldOfWritten(store, page, USAGE, 8, usage);
    FieldElsewhere(store, page, USAGE, LittleEndian(usage, 8), page, ENTRY_COUNT, 2);
    FieldElsewhere(store, page, USAGE, LittleEndian(usage, 8), page, 0, LINK_SIZE);
  }

  lemma CountWritten(store: Store, page: nat, count: nat)
    requires count < U16_LIMIT
    ensures var store' := WithField(store, page, ENTRY_COUNT, 2, count);
      && DataOf(store', page) == DataOf(store, page)
      && Usage(store', page) == Usage(store, page) && EntryCount(store', page) == count
      && OnlyLeafChanged(store, store', page)
  {
    Powers();
    hide Field, LittleEndian, Pow256;
    FieldOfWritten(store, page, ENTRY_COUNT, 2, count);
    FieldElsewhere(store, page, ENTRY_COUNT, LittleEndian(count, 2), page, USAGE, 8);
    FieldElsewhere(store, page, ENTRY_COUNT, LittleEndian(count, 2), page, 0, LINK_SIZE);
  }

  lemma {:induction false} CountBound(entries: seq<Entry>)
    requires AllGood(entries)
    ensures |EncodeAll(entries)| >= 10 * |entries|
  {
    if entries == [] {
    } else {
      EncodeParts(entries[0]);
      CountBound(entries[1..]);
    }
  }

  // ---- a new leaf ----

  /** Copies the entries into one buffer of the size computed before. */
  method EncodeEntries(entries: seq<Entry>, totalSize: nat) returns (buffer: seq<Byte>)
    requires totalSize == |EncodeAll(entries)|
    ensures buffer == EncodeAll(entries)
  {
    hide EncodeAll, Encode, LittleEndian;
    buffer := Zeros(totalSize);
    var offset := 0;
    OffsetEnds(entries);
    for i := 0 to |entries|
      invariant offset == Offset(entries, i) <= totalSize == |buffer|
      invariant buffer[..offset] == EncodeAll(entries[..i])
    {
      var e := entries[i];
      EncodeSplit(entries, i);
      EncodeParts(e);
      assert entries[..i + 1] == entries[..i] + [e];
      EncodeOne(e);
      EncodeConcat(entries[..i], [e]);
      ghost var before := buffer;
      buffer := Splice(buffer, offset, e.key + [0]);
      buffer := Splice(buffer, offset + |e.key| + 1, LittleEndian(|e.value|, 8));
      buffer := Splice(buffer, offset + |e.key| + 9, e.value);
      ThreeSplices(before, offset, e.key + [0], LittleEndian(|e.value|, 8), e.value, buffer);
      KeyLengthValue(e);
      offset := offset + |e.key| + 9 + |e.value|;
    }
    assert entries[..|entries|] == entries;
    assert buffer[..offset] == buffer;
  }

  lemma KeyLengthValue(e: Entry)
    ensures Encode(e) == e.key + [0] + LittleEndian(|e.value|, 8) + e.value
  {
  }

  lemma ThreeSplices(s: seq<Byte>, at: nat, a: seq<Byte>, b: seq<Byte>, c: seq<Byte>, r: seq<Byte>)
    requires at + |a| + |b| + |c| <= |s|
    requires r == Splice(Splice(Splice(s, at, a), at + |a|, b), at + |a| + |b|, c)
    ensures |r| == |s| && r[..at + |a| + |b| + |c|] == s[..at] + (a + b + c)
  {
  }

  /** Fills a fresh page with entries that fit on it. */
  method WriteNewLeaf(t: Transaction, page: nat, entries: seq<Entry>, totalSize: nat)
    requires FilePage(t.store, page) == ZERO_PAGE && AllGood(entries)
    requires totalSize == |EncodeAll(entries)| <= CAPACITY
    modifies t
    ensures Clean(t.store, page, entries) && OnlyLeafChanged(old(t.store), t.store, page)
  {
    hide Field, FilePage, EncodeAll, WithBytes, WithField, OnlyLeafChanged;
    ghost var store := t.store;
    CountBound(entries);
    UsageWritten(t.store, page, totalSize);
    t.WriteField(page, USAGE, 8, totalSize);
    ghost var store1 := t.store;
    CountWritten(t.store, page, |entries|);
    t.WriteField(page, ENTRY_COUNT, 2, |entries|);
    ghost var store2 := t.store;
    var buffer := EncodeEntries(entries, totalSize);
    DataWritten(t.store, page, 0, buffer);
    t.Write(page, START_HEADER, buffer);
    ZeroData(store, page);
    assert Splice(Zeros(CAPACITY), 0, buffer) == buffer + Zeros(CAPACITY - |buffer|);
    OnlyLeafTwice(store, store1, store2, page);
    OnlyLeafTwice(store, store2, t.store, page);
  }

  lemma ZeroData(store: Store, page: nat)
    requires FilePage(store, page) == ZERO_PAGE
    ensures DataOf(store, page) == Zeros(CAPACITY)
  {
  }

  lemma OnlyLeafTwice(store: Store, store1: Store, store2: Store, page: nat)
    requires OnlyLeafChanged(store, store1, page) && OnlyLeafChanged(store1, store2, page)
    ensures OnlyLeafChanged(store, store2, page)
  {
    hide Field, FilePage;
  }

  // ---- appending ----

  /** The bytes of one entry: key and NUL, length, value. */
  method EncodeEntry(key: seq<Byte>, buffer: seq<Byte>) returns (bytes: seq<Byte>)
    ensures bytes == Encode(Entry(key, buffer))
  {
    hide LittleEndian;
    var size := |key| + 9 + |buffer|;
    bytes := Splice(Zeros(size), 0, key + [0]);
    bytes := Splice(bytes, |key| + 1, LittleEndian(|buffer|, 8));
    bytes := Splice(bytes, |key| + 9, buffer);
    ThreeSplices(Zeros(size), 0, key + [0], LittleEndian(|buffer|, 8), buffer, bytes);
    KeyLengthValue(Entry(key, buffer));
  }

  lemma BytesAppended(s: seq<Byte>, rest: seq<Byte>, bytes: seq<Byte>)
    requires |bytes| <= |rest|
    ensures Splice(s + rest, |s|, bytes) == s + bytes + rest[|bytes|..]
  {
  }

  lemma StaysGood(entries: seq<Entry>, e: Entry)
    requires AllGood(entries) && GoodEntry(e)
    ensures AllGood(entries + [e])
  {
    hide GoodEntry;
  }

  method AppendEntry(t: Transaction, page: nat, key: seq<Byte>, buffer: seq<Byte>, ghost entries: seq<Entry>,
                     ghost rest: seq<Byte>)
    requires Holding(t.store, page, entries, rest) && GoodEntry(Entry(key, buffer))
    requires Usage(t.store, page) + |key| + 9 + |buffer| <= CAPACITY
    modifies t
    ensures Holding(t.store, page, entries + [Entry(key, buffer)], rest[|key| + 9 + |buffer|..])
    ensures OnlyLeafChanged(old(t.store), t.store, page)
  {
    hide Field, FilePage, EncodeAll, Encode, WithBytes, WithField, OnlyLeafChanged, Splice, GoodEntry, Usage, EntryCount, DataOf, Holding;
    ghost var store, e := t.store, Entry(key, buffer);
    HoldingParts(store, page, entries, rest);
    var entrySize := |key| + 9 + |buffer|;
    var updateStart := Usage(t.store, page);
    var updateBuffer := EncodeEntry(key, buffer);
    EncodeParts(e);
    DataWritten(store, page, updateStart, updateBuffer);
    t.Write(page, START_HEADER + updateStart, updateBuffer);
    ghost var store1 := t.store;
    UsageWritten(store1, page, Usage(store1, page) + entrySize);
    t.WriteField(page, USAGE, 8, Usage(t.store, page) + entrySize);
    ghost var store2 := t.store;
    CountWritten(store2, page, EntryCount(store2, page) + 1);
    t.WriteField(page, ENTRY_COUNT, 2, EntryCount(t.store, page) + 1);
    AppendedHolding(store, t.store, page, entries, rest, e);
    OnlyLeafTwice(store, store1, store2, page);
    OnlyLeafTwice(store, store2, t.store, page);
  }

  lemma HoldingParts(store: Store, page: nat, entries: seq<Entry>, rest: seq<Byte>)
    requires Holding(store, page, entries, rest)
    ensures Usage(store, page) == |EncodeAll(entries)| && EntryCount(store, page) == |entries| < 500
    ensures |DataOf(store, page)| == CAPACITY == |EncodeAll(entries)| + |rest|
  {
    hide EncodeAll;
    CountBound(entries);
  }

  lemma AppendedHolding(store: Store, store': Store, page: nat, entries: seq<Entry>, rest: seq<Byte>, e: Entry)
    requires Holding(store, page, entries, rest) && GoodEntry(e) && |Encode(e)| <= |rest|
    requires |DataOf(store, page)| == |EncodeAll(entries)| + |rest|
    requires DataOf(store', page) == Splice(DataOf(store, page), |EncodeAll(entries)|, Encode(e))
    requires Usage(store', page) == Usage(store, page) + |Encode(e)| && EntryCount(store', page) == EntryCount(store, page) + 1
    ensures Holding(store', page, entries + [e], rest[|e.key| + 9 + |e.value|..])
  {
    hide EncodeAll, Encode, DataOf, Usage, EntryCount, GoodEntry, Splice, AllGood;
    EncodeParts(e);
    AppendedEncoding(entries, e);
    StaysGood(entries, e);
    BytesAppended(EncodeAll(entries), rest, Encode(e));
  }

  lemma AppendedEncoding(entries: seq<Entry>, e: Entry)
    ensures EncodeAll(entries + [e]) == EncodeAll(entries) + Encode(e)
  {
    hide EncodeAll, Encode;
    EncodeOne(e);
    EncodeConcat(entries, [e]);
  }

  // ---- replacing a value ----

  /** A page of encoded entries, taken apart at entry `i`: what precedes its length field, the field,
      the value, and the entries behind it. */
  lemma TakenApart(entries: seq<Entry>, i: nat)
    requires i < |entries|
    ensures var e := entries[i];
      EncodeAll(entries) == (EncodeAll(entries[..i]) + (e.key + [0])) + LittleEndian(|e.value|, 8) + e.value + EncodeAll(entries[i + 1..])
  {
    hide EncodeAll, Encode, LittleEndian;
    EncodeSplit(entries, i);
    KeyLengthValue(entries[i]);
  }

  lemma Replaced(entries: seq<Entry>, i: nat, value: seq<Byte>)
    requires i < |entries| && AllGood(entries) && |value| < U64_LIMIT
    ensures var e, entries' := entries[i], entries[i := Entry(entries[i].key, value)];
      && AllGood(entries')
      && EncodeAll(entries') == (EncodeAll(entries[..i]) + (e.key + [0])) + LittleEndian(|value|, 8) + value + EncodeAll(entries[i + 1..])
  {
    hide EncodeAll, LittleEndian;
    var entries' := entries[i := Entry(entries[i].key, value)];
    TakenApart(entries', i);
    assert entries'[..i] == entries[..i] && entries'[i + 1..] == entries[i + 1..];
  }

  /** The part of a page that an update rewrites, from the length field on: the following entries move
      by the difference of the lengths, then length and value are set. */
  method UpdatedPiece(data: seq<Byte>, start: nat, usage: nat, current: nat, buffer: seq<Byte>,
                      ghost before: seq<Byte>, ghost value: seq<Byte>, ghost behind: seq<Byte>, ghost rest: seq<Byte>)
    returns (piece: seq<Byte>)
    requires data == before + LittleEndian(current, 8) + value + behind + rest && |value| == current && |before| == start
    requires usage == |data| - |rest| && |buffer| <= current + |rest|
    ensures start + |piece| <= |data|
    ensures var updated := before + LittleEndian(|buffer|, 8) + buffer + behind;
      |updated| == usage + |buffer| - current && Splice(data, start, piece) == updated + data[|updated|..]
  {
    hide LittleEndian, Splice;
    var updateEnd := usage + if |buffer| > current then |buffer| - current else 0;
    ghost var n := updateEnd - usage;
    piece := data[start..updateEnd];
    Regrouped(before, LittleEndian(current, 8), value, behind, rest, n);
    piece := MoveAndSet(piece, current, |buffer|, LittleEndian(|buffer|, 8), buffer, usage - (start + 8 + current),
                        LittleEndian(current, 8), value, behind, rest[..n]);
    PieceFits(data, before, data[start..updateEnd], rest[n..], LittleEndian(|buffer|, 8), buffer, behind, piece);
  }

  /** The piece in its place: what is new, then what the page held there. */
  lemma PieceFits(data: seq<Byte>, before: seq<Byte>, bytes: seq<Byte>, tail: seq<Byte>, length: seq<Byte>,
                  buffer: seq<Byte>, behind: seq<Byte>, piece: seq<Byte>)
    requires data == before + bytes + tail && |length| + |buffer| + |behind| <= |bytes|
    requires piece == length + buffer + behind + bytes[|length| + |buffer| + |behind|..]
    ensures var updated := before + length + buffer + behind;
      |before| + |piece| <= |data| && |updated| <= |data| && Splice(data, |before|, piece) == updated + data[|updated|..]
  {
    hide Splice;
    PieceWrittenBack(before, bytes, tail, length + buffer + behind, |length| + |buffer| + |behind|);
    Joined(before, length, buffer, behind);
  }

  lemma Joined(p: seq<Byte>, length: seq<Byte>, value: seq<Byte>, behind: seq<Byte>)
    ensures p + (length + value + behind) == p + length + value + behind
  {
  }

  method MoveAndSet(bytes: seq<Byte>, current: nat, length: nat, lengthBytes: seq<Byte>, buffer: seq<Byte>,
                    bytesToMove: nat,
                    ghost oldLength: seq<Byte>, ghost value: seq<Byte>, ghost behind: seq<Byte>, ghost grown: seq<Byte>)
    returns (updated: seq<Byte>)
    requires |lengthBytes| == |oldLength| == 8 && |value| == current && |buffer| == length && |behind| == bytesToMove
    requires bytes == oldLength + value + behind + grown && current + |grown| >= length
    ensures updated == lengthBytes + buffer + behind + bytes[8 + length + bytesToMove..]
  {
    var next, newNext := 8 + current, 8 + length;
    updated := Splice(bytes, newNext, bytes[next..next + bytesToMove]);
    assert bytes[next..next + bytesToMove] == behind;
    updated := Splice(updated, 0, lengthBytes);
    updated := Splice(updated, 8, buffer);
  }

  /** Writing an updated piece back between what precedes it and the rest of the page. */
  lemma PieceWrittenBack(p: seq<Byte>, piece: seq<Byte>, tail: seq<Byte>, front: seq<Byte>, n: nat)
    requires n == |front| <= |piece|
    ensures Splice(p + piece + tail, |p|, front + piece[n..]) == (p + front) + (p + piece + tail)[|p| + n..]
  {
  }

  /** Replaces the value of an entry; false stands for the exception thrown when the result does not
      fit. Behind the entries the page keeps the bytes it had: what a shorter value leaves free is
      not cleared. */
  method UpdateValueTrivially(t: Transaction, page: nat, entryOffset: nat, key: seq<Byte>, buffer: seq<Byte>,
                              ghost entries: seq<Entry>, ghost i: nat, ghost rest: seq<Byte>)
    returns (ok: bool)
    requires Holding(t.store, page, entries, rest)
    requires i < |entries| && entries[i].key == key && entryOffset == Offset(entries, i) && |buffer| < U64_LIMIT
    modifies t
    ensures ok <==> |EncodeAll(entries)| + |buffer| - |entries[i].value| <= CAPACITY
    ensures !ok ==> t.store == old(t.store)
    ensures ok ==> (var entries' := entries[i := Entry(key, buffer)];
                    && |EncodeAll(entries')| <= CAPACITY
                    && Holding(t.store, page, entries', DataOf(old(t.store), page)[|EncodeAll(entries')|..]))
    ensures OnlyLeafChanged(old(t.store), t.store, page)
  {
    hide Field, FilePage, EncodeAll, Encode, WithBytes, WithField, OnlyLeafChanged, LittleEndian, FromLittleEndian, AllGood, Splice, Usage, EntryCount;
    ghost var store, e, entries' := t.store, entries[i], entries[i := Entry(key, buffer)];
    ghost var before, behind := EncodeAll(entries[..i]) + (key + [0]), EncodeAll(entries[i + 1..]);
    TakenApart(entries, i);
    Replaced(entries, i, buffer);
    GoodAt(entries, i);
    NothingChanged(store, page);
    var valueLengthOffset := entryOffset + |key| + 1;
    var data := DataOf(t.store, page);
    LengthField(data, before, |e.value|, e.value + behind + rest);
    var current := FromLittleEndian(data[valueLengthOffset..valueLengthOffset + 8]);
    var valueOffset := valueLengthOffset + 8;
    var usage := Usage(t.store, page);
    if usage + |buffer| - current > CAPACITY {
      return false;
    }
    ok := true;
    if |buffer| == current {
      DataWritten(store, page, valueOffset, buffer);
      t.Write(page, START_HEADER + valueOffset, buffer);
      SameLength(before + LittleEndian(current, 8), e.value, behind, rest, buffer);
      return;
    }
    var piece := UpdatedPiece(data, valueLengthOffset, usage, current, buffer, before, e.value, behind, rest);
    UsageWritten(store, page, usage + |buffer| - current);
    t.WriteField(page, USAGE, 8, usage + |buffer| - current);
    ghost var store1 := t.store;
    DataWritten(store1, page, valueLengthOffset, piece);
    t.Write(page, START_HEADER + valueLengthOffset, piece);
    OnlyLeafTwice(store, store1, t.store, page);
  }

  lemma GoodAt(entries: seq<Entry>, i: nat)
    requires AllGood(entries) && i < |entries|
    ensures |entries[i].value| < U64_LIMIT
  {
  }

  lemma NothingChanged(store: Store, page: nat)
    ensures OnlyLeafChanged(store, store, page)
  {
  }

  lemma LengthField(data: seq<Byte>, before: seq<Byte>, length: nat, behind: seq<Byte>)
    requires data == before + LittleEndian(length, 8) + behind && length < U64_LIMIT
    ensures FromLittleEndian(data[|before|..|before| + 8]) == length
  {
    hide LittleEndian, FromLittleEndian;
    Powers();
    FromToLittleEndian(length, 8);
    assert data[|before|..|before| + 8] == LittleEndian(length, 8);
  }

  lemma SameLength(p: seq<Byte>, value: seq<Byte>, behind: seq<Byte>, rest: seq<Byte>, buffer: seq<Byte>)
    requires |buffer| == |value|
    ensures Splice(p + value + behind + rest, |p|, buffer) == p + buffer + behind + rest
    ensures (p + value + behind + rest)[|p + buffer + behind|..] == rest
  {
  }

  lemma Regrouped(p: seq<Byte>, length: seq<Byte>, value: seq<Byte>, behind: seq<Byte>, rest: seq<Byte>, n: nat)
    requires n <= |rest|
    ensures p + length + value + behind + rest == p + (length + value + behind + rest[..n]) + rest[n..]
    ensures (p + (length + value + behind + rest[..n]) + rest[n..])[|p|..|p + length + value + behind| + n]
         == length + value + behind + rest[..n]
  {
  }

  // ---- removing an entry ----

  lemma DroppedEncoding(entries: seq<Entry>, i: nat)
    requires i < |entries| && AllGood(entries)
    ensures EncodeAll(Cut(entries, i)) == EncodeAll(entries[..i]) + EncodeAll(entries[i + 1..])
    ensures AllGood(Cut(entries, i)) && |Cut(entries, i)| == |entries| - 1
  {
    hide EncodeAll, GoodEntry;
    EncodeConcat(entries[..i], entries[i + 1..]);
  }

  lemma BytesRemoved(before: seq<Byte>, entry: seq<Byte>, behind: seq<Byte>, rest: seq<Byte>)
    ensures var data := before + entry + behind + rest;
      && data[|before| + |entry|..|before| + |entry| + |behind|] == behind
      && Splice(data, |before|, Splice(Zeros(|behind| + |entry|), 0, behind)) == before + behind + (Zeros(|entry|) + rest)
  {
  }

  /** The entries behind the removed one, moved over it and followed by zeros. */
  lemma Removal(data: seq<Byte>, entries: seq<Entry>, i: nat, rest: seq<Byte>)
    requires i < |entries| && AllGood(entries) && data == EncodeAll(entries) + rest
    ensures var e, at := entries[i], Offset(entries, i);
      var size := |Encode(e)|;
      var moved := |EncodeAll(entries)| - at - size;
      && size == |e.key| + 9 + |e.value| && moved >= 0 && at + size + moved <= |data|
      && FromLittleEndian(data[at + |e.key| + 1..at + |e.key| + 9]) == |e.value|
      && Splice(data, at, Splice(Zeros(moved + size), 0, data[at + size..at + size + moved]))
         == EncodeAll(Cut(entries, i)) + (Zeros(size) + rest)
      && AllGood(Cut(entries, i)) && |Cut(entries, i)| == |entries| - 1 && |EncodeAll(Cut(entries, i))| == at + moved
  {
    hide EncodeAll, Encode, LittleEndian, FromLittleEndian, AllGood, Splice, Cut;
    var e, before, behind := entries[i], EncodeAll(entries[..i]), EncodeAll(entries[i + 1..]);
    LengthOf(data, entries, i, rest);
    EncodeSplit(entries, i);
    EncodeParts(e);
    DroppedEncoding(entries, i);
    BytesRemoved(before, Encode(e), behind, rest);
  }

  /** The length field of an entry lies behind its key. */
  lemma LengthOf(data: seq<Byte>, entries: seq<Entry>, i: nat, rest: seq<Byte>)
    requires i < |entries| && AllGood(entries) && data == EncodeAll(entries) + rest
    ensures var e, at := entries[i], Offset(entries, i);
      at + |e.key| + 9 <= |data| && FromLittleEndian(data[at + |e.key| + 1..at + |e.key| + 9]) == |e.value|
  {
    hide EncodeAll, Encode, LittleEndian, FromLittleEndian, AllGood;
    var e, before, behind := entries[i], EncodeAll(entries[..i]), EncodeAll(entries[i + 1..]);
    TakenApart(entries, i);
    GoodAt(entries, i);
    LengthFirst(before + (e.key + [0]), LittleEndian(|e.value|, 8), e.value, behind, rest);
    LengthField(data, before + (e.key + [0]), |e.value|, e.value + behind + rest);
  }

  lemma LengthFirst(p: seq<Byte>, length: seq<Byte>, value: seq<Byte>, behind: seq<Byte>, rest: seq<Byte>)
    ensures p + length + value + behind + rest == p + length + (value + behind + rest)
  {
  }

  /** Removes an entry of several: the following ones move up, and zeros fill the space behind them. */
  method RemoveEntry(t: Transaction, page: nat, entryOffset: nat, key: seq<Byte>,
                     ghost entries: seq<Entry>, ghost i: nat, ghost rest: seq<Byte>)
    requires Holding(t.store, page, entries, rest)
    requires i < |entries| && entries[i].key == key && entryOffset == Offset(entries, i)
    modifies t
    ensures Holding(t.store, page, Cut(entries, i), Zeros(|Encode(entries[i])|) + rest)
    ensures OnlyLeafChanged(old(t.store), t.store, page)
  {
    hide Field, FilePage, EncodeAll, Encode, WithBytes, WithField, OnlyLeafChanged, LittleEndian, FromLittleEndian, AllGood, Splice,
         Usage, EntryCount, Cut, Offset;
    CountBound(entries);
    var data := DataOf(t.store, page);
    Removal(data, entries, i, rest);
    var valueLength := FromLittleEndian(data[entryOffset + |key| + 1..entryOffset + |key| + 9]);
    var entrySize := |key| + 9 + valueLength;
    var nextEntryOffset := entryOffset + entrySize;
    var bytesToMove := Usage(t.store, page) - nextEntryOffset;
    var writeBuffer := Splice(Zeros(bytesToMove + entrySize), 0, data[nextEntryOffset..nextEntryOffset + bytesToMove]);
    Rewritten(t.store, page, entryOffset, writeBuffer, Cut(entries, i), Zeros(entrySize) + rest);
    t.Write(page, START_HEADER + entryOffset, writeBuffer);
    t.WriteField(page, USAGE, 8, Usage(t.store, page) - entrySize);
    t.WriteField(page, ENTRY_COUNT, 2, EntryCount(t.store, page) - 1);
  }

  /** Writing bytes of the page, then the size and the number of the entries it holds with them. */
  lemma Rewritten(store: Store, page: nat, offset: nat, bytes: seq<Byte>, entries: seq<Entry>, rest: seq<Byte>)
    requires offset + |bytes| <= CAPACITY && AllGood(entries)
    requires Splice(DataOf(store, page), offset, bytes) == EncodeAll(entries) + rest
    requires |EncodeAll(entries)| < U64_LIMIT && |entries| < U16_LIMIT
    ensures var store1 := WithBytes(store, page, START_HEADER + offset, bytes);
      var store2 := WithField(store1, page, USAGE, 8, |EncodeAll(entries)|);
      var store3 := WithField(store2, page, ENTRY_COUNT, 2, |entries|);
      && Usage(store1, page) == Usage(store, page) && EntryCount(store2, page) == EntryCount(store, page)
      && Holding(store3, page, entries, rest) && OnlyLeafChanged(store, store3, page)
  {
    hide EncodeAll, AllGood, Splice, Usage, EntryCount, OnlyLeafChanged, DataOf, WithBytes, WithField;
    var store1 := WithBytes(store, page, START_HEADER + offset, bytes);
    var store2 := WithField(store1, page, USAGE, 8, |EncodeAll(entries)|);
    DataWritten(store, page, offset, bytes);
    UsageWritten(store1, page, |EncodeAll(entries)|);
    CountWritten(store2, page, |entries|);
    OnlyLeafTwice(store, store1, store2, page);
    OnlyLeafTwice(store, store2, WithField(store2, page, ENTRY_COUNT, 2, |entries|), page);
  }

  // ---- the unused space ----

  /** A clean page parses back, and nothing that follows the page matters. */
  lemma CleanParses(store: Store, page: nat, entries: seq<Entry>, beyond: nat -> Byte)
    requires Clean(store, page, entries)
    ensures Readable(DataOf(store, page), entries) && EntriesFrom(DataOf(store, page), beyond, 0) == entries
  {
    hide EncodeAll, EntriesFrom, Readable, DataOf;
    var data := DataOf(store, page);
    assert Holds(data, 0, EncodeAll(entries)) && EndsAt(data, |EncodeAll(entries)|);
    StoredIsReadable(data, entries);
    ParsesBackIff(data, beyond, entries);
  }

  /** What an append leaves clean. */
  lemma AppendKeepsClean(store: Store, store': Store, page: nat, entries: seq<Entry>, e: Entry)
    requires Clean(store, page, entries) && |EncodeAll(entries)| + |Encode(e)| <= CAPACITY
    requires Holding(store', page, entries + [e], Zeros(CAPACITY - |EncodeAll(entries)|)[|Encode(e)|..])
    ensures Clean(store', page, entries + [e])
  {
    hide Encode, EncodeAll;
    EncodeOne(e);
    EncodeConcat(entries, [e]);
    assert Zeros(CAPACITY - |EncodeAll(entries)|)[|Encode(e)|..] == Zeros(CAPACITY - |EncodeAll(entries + [e])|);
  }

  /** What a removal leaves clean. */
  lemma RemoveKeepsClean(store: Store, store': Store, page: nat, entries: seq<Entry>, i: nat)
    requires Clean(store, page, entries) && i < |entries|
    requires Holding(store', page, Cut(entries, i), Zeros(|Encode(entries[i])|) + Zeros(CAPACITY - |EncodeAll(entries)|))
    ensures Clean(store', page, Cut(entries, i))
  {
    hide Encode, EncodeAll, Cut, AllGood;
    EncodeSplit(entries, i);
    DroppedEncoding(entries, i);
    assert Zeros(|Encode(entries[i])|) + Zeros(CAPACITY - |EncodeAll(entries)|) == Zeros(CAPACITY - |EncodeAll(Cut(entries, i))|);
  }

  /** An update to a value that is not shorter keeps the page clean. */
  lemma UpdateKeepsClean(store: Store, store': Store, page: nat, entries: seq<Entry>, entries': seq<Entry>)
    requires Clean(store, page, entries) && |EncodeAll(entries)| <= |EncodeAll(entries')| <= CAPACITY
    requires Holding(store', page, entries', DataOf(store, page)[|EncodeAll(entries')|..])
    ensures Clean(store', page, entries')
  {
    hide EncodeAll, AllGood;
    assert DataOf(store, page)[|EncodeAll(entries')|..] == Zeros(CAPACITY - |EncodeAll(entries')|);
  }

  /** An update to a shorter value leaves the old last bytes behind. The page still parses to its
      entries if and only if the first of them is zero. */
  lemma ShorterParsesIff(store: Store, store': Store, page: nat, entries: seq<Entry>, entries': seq<Entry>,
                         beyond: nat -> Byte)
    requires Clean(store, page, entries) && |EncodeAll(entries')| < |EncodeAll(entries)|
    requires Holding(store', page, entries', DataOf(store, page)[|EncodeAll(entries')|..])
    ensures EntriesFrom(DataOf(store', page), beyond, 0) == entries' <==> EncodeAll(entries)[|EncodeAll(entries')|] == 0
  {
    hide EncodeAll, EntriesFrom, AllGood;
    var data, n := DataOf(store', page), |EncodeAll(entries')|;
    assert data == EncodeAll(entries') + DataOf(store, page)[n..];
    assert Holds(data, 0, EncodeAll(entries'));
    ParsesBackIff(data, beyond, entries');
  }

  /** For the last entry of a page, that byte is one of its old value. */
  lemma LastShorterByte(entries: seq<Entry>, value: seq<Byte>)
    requires entries != [] && |value| < |entries[|entries| - 1].value|
    ensures var last := |entries| - 1;
      var entries' := entries[last := Entry(entries[last].key, value)];
      && |EncodeAll(entries')| < |EncodeAll(entries)|
      && EncodeAll(entries)[|EncodeAll(entries')|] == entries[last].value[|value|]
  {
    hide EncodeAll, LittleEndian;
    var last := |entries| - 1;
    var entries' := entries[last := Entry(entries[last].key, value)];
    TakenApart(entries, last);
    TakenApart(entries', last);
    assert entries'[..last] == entries[..last] && entries[last + 1..] == entries'[last + 1..] == [];
    assert EncodeAll([]) == [] by { OffsetEnds([]); NothingEncoded(); }
  }
}
