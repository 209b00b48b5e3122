/** The data section of a leaf page: keys and values packed one after another. */
module LeafCodec {
  import opened Bytes
  import opened BufferPool
  import opened Pages
  import opened BigValue

  const MAX_KEY_LENGTH: nat := 2000

  datatype Entry = Entry(key: seq<Byte>, value: seq<Byte>)

  predicate NulFree(key: seq<Byte>) {
    forall i :: 0 <= i < |key| ==> key[i] != 0
  }

  predicate GoodEntry(e: Entry) {
    0 < |e.key| <= MAX_KEY_LENGTH && NulFree(e.key) && |e.value| < U64_LIMIT
  }

  predicate AllGood(entries: seq<Entry>) {
    forall i :: 0 <= i < |entries| ==> GoodEntry(entries[i])
  }

  /** What precedes the value bytes: the key, a NUL, and the length of the value. */
  function EntryHeader(key: seq<Byte>, length: nat): seq<Byte> {
    key + [0] + LittleEndian(length, 8)
  }

  function Encode(e: Entry): seq<Byte> {
    EntryHeader(e.key, |e.value|) + e.value
  }

  function EncodeAll(entries: seq<Entry>): seq<Byte> {
    if entries == [] then [] else Encode(entries[0]) + EncodeAll(entries[1..])
  }

  /** Where entry `i` starts. */
  function Offset(entries: seq<Entry>, i: nat): nat
    requires i <= |entries|
  {
    |EncodeAll(entries[..i])|
  }

  lemma {:induction false} EncodeConcat(entries: seq<Entry>, more: seq<Entry>)
    ensures EncodeAll(entries + more) == EncodeAll(entries) + EncodeAll(more)
  {
    hide Encode;
    if entries == [] {
      assert entries + more == more;
    } else {
      assert (entries + more)[0] == entries[0] && (entries + more)[1..] == entries[1..] + more;
      EncodeConcat(entries[1..], more);
    }
  }

  lemma NothingEncoded()
    ensures EncodeAll([]) == []
  {
  }

  lemma EncodeOne(e: Entry)
    ensures EncodeAll([e]) == Encode(e)
  {
    assert [e][1..] == [];
    assert EncodeAll([]) == [];
  }

  lemma EncodeSplit(entries: seq<Entry>, i: nat)
    requires i < |entries|
    ensures EncodeAll(entries) == EncodeAll(entries[..i]) + Encode(entries[i]) + EncodeAll(entries[i + 1..])
    ensures Offset(entries, i + 1) == Offset(entries, i) + |Encode(entries[i])|
  {
    hide Encode;
    EncodeOne(entries[i]);
    EncodeConcat(entries[..i], [entries[i]]);
    assert entries[..i] + [entries[i]] == entries[..i + 1];
    EncodeConcat(entries[..i + 1], entries[i + 1..]);
    assert entries[..i + 1] + entries[i + 1..] == entries;
  }

  lemma OffsetEnds(entries: seq<Entry>)
    ensures Offset(entries, 0) == 0 && Offset(entries, |entries|) == |EncodeAll(entries)|
  {
    assert entries[..0] == [] && entries[..|entries|] == entries;
  }

  // ---- what the loops over a page can rely on ----

  predicate HeaderAt(data: seq<Byte>, entries: seq<Entry>, i: nat)
    requires i < |entries|
  {
    Holds(data, Offset(entries, i), EntryHeader(entries[i].key, |entries[i].value|))
  }

  /** A walk over the page finds the headers of exactly these entries. It also describes a page whose
      only entry goes on in further regions. */
  ghost predicate Readable(data: seq<Byte>, entries: seq<Entry>) {
    && AllGood(entries)
    && (forall i :: 0 <= i < |entries| ==> HeaderAt(data, entries, i))
    && EndsAt(data, |EncodeAll(entries)|)
  }

  /** The walk stops here: at the end of the page, or at what looks like an empty key. */
  predicate EndsAt(data: seq<Byte>, pos: nat) {
    pos >= |data| || data[pos] == 0
  }

  lemma HoldsEntry(data: seq<Byte>, entries: seq<Entry>, i: nat)
    requires Holds(data, 0, EncodeAll(entries)) && i < |entries|
    ensures Holds(data, Offset(entries, i), Encode(entries[i]))
    ensures HeaderAt(data, entries, i)
  {
    hide Encode, EncodeAll, Holds, EntryHeader;
    EncodeSplit(entries, i);
    HoldsConcat(data, 0, EncodeAll(entries[..i]) + Encode(entries[i]), EncodeAll(entries[i + 1..]));
    HoldsConcat(data, 0, EncodeAll(entries[..i]), Encode(entries[i]));
    EncodeParts(entries[i]);
    HoldsConcat(data, Offset(entries, i), EntryHeader(entries[i].key, |entries[i].value|), entries[i].value);
  }

  lemma EncodeParts(e: Entry)
    ensures Encode(e) == EntryHeader(e.key, |e.value|) + e.value
    ensures |EntryHeader(e.key, |e.value|)| == |e.key| + 9
  {
  }

  /** The encoded entries are readable exactly when the walk stops behind them. */
  lemma StoredIsReadable(data: seq<Byte>, entries: seq<Entry>)
    requires AllGood(entries) && Holds(data, 0, EncodeAll(entries))
    ensures Readable(data, entries) <==> EndsAt(data, |EncodeAll(entries)|)
  {
    hide Holds, EncodeAll;
    forall i | 0 <= i < |entries| ensures HeaderAt(data, entries, i) {
      HoldsEntry(data, entries, i);
    }
  }

  /** The first page of a value that goes on in further regions. */
  lemma BigIsReadable(data: seq<Byte>, e: Entry)
    requires GoodEntry(e) && |data| == CAPACITY < |Encode(e)| && data == Encode(e)[..CAPACITY]
    ensures Readable(data, [e])
  {
    hide LittleEndian;
    EncodeOne(e);
    OffsetEnds([e]);
    assert Holds(data, 0, EntryHeader(e.key, |e.value|));
  }

  // ---- the C string functions on a page ----

  function StrLen(data: seq<Byte>, pos: nat): (n: nat)
    requires pos <= |data|
    ensures pos + n <= |data|
    decreases |data| - pos
  {
    if pos == |data| || data[pos] == 0 then 0 else 1 + StrLen(data, pos + 1)
  }

  /** The NUL-terminated string at `pos` is `key`. */
  predicate Matches(data: seq<Byte>, pos: nat, key: seq<Byte>) {
    Holds(data, pos, key) && pos + |key| < |data| && data[pos + |key|] == 0
  }

  lemma {:induction false} StrLenOf(data: seq<Byte>, pos: nat, key: seq<Byte>)
    requires Matches(data, pos, key) && NulFree(key)
    ensures StrLen(data, pos) == |key|
    decreases key
  {
    if key == [] {
    } else {
      assert data[pos] == data[pos..pos + |key|][0] == key[0];
      assert Holds(data, pos + 1, key[1..]) by {
        assert data[pos + 1..pos + |key|] == data[pos..pos + |key|][1..];
      }
      StrLenOf(data, pos + 1, key[1..]);
    }
  }

  /** Strings without a NUL are told apart, also when one is a prefix of the other. */
  lemma MatchesOnlyItself(data: seq<Byte>, pos: nat, key: seq<Byte>, other: seq<Byte>)
    requires Matches(data, pos, key) && NulFree(key) && NulFree(other)
    ensures Matches(data, pos, other) <==> other == key
  {
    if Matches(data, pos, other) {
      StrLenOf(data, pos, key);
      StrLenOf(data, pos, other);
    }
  }

  lemma HeaderParts(data: seq<Byte>, pos: nat, key: seq<Byte>, length: nat)
    requires Holds(data, pos, EntryHeader(key, length)) && length < U64_LIMIT
    ensures pos + |key| + 9 <= |data| && Matches(data, pos, key)
    ensures FromLittleEndian(data[pos + |key| + 1..pos + |key| + 9]) == length
  {
    hide LittleEndian, FromLittleEndian;
    HoldsConcat(data, pos, key + [0], LittleEndian(length, 8));
    HoldsConcat(data, pos, key, [0]);
    Powers();
    FromToLittleEndian(length, 8);
    assert data[pos + |key|..pos + |key| + 1][0] == 0;
  }

  // ---- searching and parsing ----

  function IndexOf(entries: seq<Entry>, key: seq<Byte>): (i: int)
    ensures -1 <= i < |entries|
    ensures i >= 0 ==> entries[i].key == key
    ensures forall j :: 0 <= j < (if i < 0 then |entries| else i) ==> entries[j].key != key
  {
    if entries == [] then -1
    else if entries[0].key == key then 0
    else var i := IndexOf(entries[1..], key); if i < 0 then -1 else i + 1
  }

  /** The offset of the entry with the key, or -1 when there is none. */
  method FindEntryInLeaf(data: seq<Byte>, key: seq<Byte>, ghost entries: seq<Entry>) returns (offset: int)
    requires Readable(data, entries) && NulFree(key)
    ensures var i := IndexOf(entries, key); offset == if i < 0 then -1 else Offset(entries, i)
  {
    hide Holds, EncodeAll, EntryHeader, LittleEndian, FromLittleEndian, Matches, IndexOf;
    var pos: nat := 0;
    ghost var i := 0;
    OffsetEnds(entries);
    while pos < |data|
      invariant 0 <= i <= |entries| && pos == Offset(entries, i)
      invariant forall j :: 0 <= j < i ==> entries[j].key != key
      decreases |entries| - i
    {
      if data[pos] == 0 {
        NoKeyAtZero(data, entries, i);
        return -1;
      }
      EntryAt(data, entries, i);
      MatchesOnlyItself(data, pos, entries[i].key, key);
      if Matches(data, pos, key) {
        return pos;
      }
      StrLenOf(data, pos, entries[i].key);
      var keySize := StrLen(data, pos) + 1;
      var valueLength := FromLittleEndian(data[pos + keySize..pos + keySize + 8]);
      pos := pos + keySize + 8 + valueLength;
      i := i + 1;
    }
    PastTheEnd(data, entries, i);
    return -1;
  }

  /** A zero at the start of an entry means that there are no more. */
  lemma NoKeyAtZero(data: seq<Byte>, entries: seq<Entry>, i: nat)
    requires Readable(data, entries) && i <= |entries| && Offset(entries, i) < |data| && data[Offset(entries, i)] == 0
    ensures i == |entries|
  {
    hide Holds, EncodeAll, EntryHeader, Matches;
    if i < |entries| {
      assert HeaderAt(data, entries, i);
      HeaderParts(data, Offset(entries, i), entries[i].key, |entries[i].value|);
      MatchesFirst(data, Offset(entries, i), entries[i].key);
    }
  }

  lemma MatchesFirst(data: seq<Byte>, pos: nat, key: seq<Byte>)
    requires Matches(data, pos, key) && key != [] && NulFree(key)
    ensures pos + |key| <= |data| && data[pos..pos + |key|] == key && data[pos] != 0
  {
    assert data[pos] == data[pos..pos + |key|][0];
  }

  lemma PastTheEnd(data: seq<Byte>, entries: seq<Entry>, i: nat)
    requires Readable(data, entries) && i <= |entries| && Offset(entries, i) >= |data|
    ensures i == |entries|
  {
    hide Holds, EncodeAll, EntryHeader, Matches;
    if i < |entries| {
      assert HeaderAt(data, entries, i);
      HeaderParts(data, Offset(entries, i), entries[i].key, |entries[i].value|);
    }
  }

  /** What the walk sees when it stands at an entry and not at the end. */
  lemma EntryAt(data: seq<Byte>, entries: seq<Entry>, i: nat)
    requires Readable(data, entries) && i <= |entries| && Offset(entries, i) < |data| && data[Offset(entries, i)] != 0
    ensures i < |entries| && GoodEntry(entries[i])
    ensures var pos, e := Offset(entries, i), entries[i];
      && pos + |e.key| + 9 <= |data| && Matches(data, pos, e.key)
      && FromLittleEndian(data[pos + |e.key| + 1..pos + |e.key| + 9]) == |e.value|
      && Offset(entries, i + 1) == pos + |e.key| + 9 + |e.value|
  {
    hide Holds, EncodeAll, EntryHeader, Matches, FromLittleEndian, Encode;
    OffsetEnds(entries);
    assert i < |entries|;
    assert HeaderAt(data, entries, i);
    HeaderParts(data, Offset(entries, i), entries[i].key, |entries[i].value|);
    EncodeSplit(entries, i);
    EncodeParts(entries[i]);
  }

  /** `n` bytes of memory from `pos` on, where `beyond` gives the memory that follows the page. */
  function Memory(data: seq<Byte>, beyond: nat -> Byte, pos: nat, n: nat): (s: seq<Byte>)
    ensures |s| == n
  {
    seq<Byte>(n, i requires 0 <= i < n => if pos + i < |data| then data[pos + i] else beyond(pos + i - |data|))
  }

  lemma MemoryInside(data: seq<Byte>, beyond: nat -> Byte, pos: nat, n: nat)
    requires pos + n <= |data|
    ensures Memory(data, beyond, pos, n) == data[pos..pos + n]
  {
  }

  /** The entries that a walk from `pos` reads. */
  function EntriesFrom(data: seq<Byte>, beyond: nat -> Byte, pos: nat): seq<Entry>
    decreases |data| - pos
  {
    if EndsAt(data, pos) then []
    else
      var keySize := StrLen(data, pos);
      var valueLength := FromLittleEndian(Memory(data, beyond, pos + keySize + 1, 8));
      [Entry(data[pos..pos + keySize], Memory(data, beyond, pos + keySize + 9, valueLength))]
      + EntriesFrom(data, beyond, pos + keySize + 9 + valueLength)
  }

  method GetEntriesInLeaf(data: seq<Byte>, beyond: nat -> Byte) returns (result: seq<Entry>)
    ensures result == EntriesFrom(data, beyond, 0)
  {
    hide StrLen, FromLittleEndian, Memory, EntriesFrom;
    result := [];
    var pos: nat := 0;
    while pos < |data|
      invariant result + EntriesFrom(data, beyond, pos) == EntriesFrom(data, beyond, 0)
      decreases |data| - pos
    {
      if data[pos] == 0 {
        break;
      }
      var keySize := StrLen(data, pos);
      var valueLength := FromLittleEndian(Memory(data, beyond, pos + keySize + 1, 8));
      var entry := Entry(data[pos..pos + keySize], Memory(data, beyond, pos + keySize + 9, valueLength));
      OneEntryRead(data, beyond, pos);
      Associative(result, [entry], EntriesFrom(data, beyond, pos + keySize + 9 + valueLength));
      result := result + [entry];
      pos := pos + keySize + 9 + valueLength;
    }
    EndOfPage(data, beyond, pos);
  }

  lemma OneEntryRead(data: seq<Byte>, beyond: nat -> Byte, pos: nat)
    requires !EndsAt(data, pos)
    ensures var keySize := StrLen(data, pos);
      var valueLength := FromLittleEndian(Memory(data, beyond, pos + keySize + 1, 8));
      EntriesFrom(data, beyond, pos)
      == [Entry(data[pos..pos + keySize], Memory(data, beyond, pos + keySize + 9, valueLength))]
         + EntriesFrom(data, beyond, pos + keySize + 9 + valueLength)
  {
    hide StrLen, FromLittleEndian, Memory;
  }

  lemma Associative(s: seq<Entry>, t: seq<Entry>, u: seq<Entry>)
    ensures s + (t + u) == (s + t) + u
  {
  }

  /** A walk that stands at an encoded entry reads its key, and its value as far as it is on the page. */
  lemma EntryReads(data: seq<Byte>, beyond: nat -> Byte, pos: nat, e: Entry)
    requires GoodEntry(e) && Holds(data, pos, EntryHeader(e.key, |e.value|))
    ensures !EndsAt(data, pos)
    ensures EntriesFrom(data, beyond, pos)
         == [Entry(e.key, Memory(data, beyond, pos + |e.key| + 9, |e.value|))]
            + EntriesFrom(data, beyond, pos + |e.key| + 9 + |e.value|)
  {
    hide EntryHeader, FromLittleEndian, Memory, Holds, Matches, StrLen, NulFree;
    HeaderParts(data, pos, e.key, |e.value|);
    MatchesFirst(data, pos, e.key);
    StrLenOf(data, pos, e.key);
    MemoryInside(data, beyond, pos + |e.key| + 1, 8);
    assert data[pos + |e.key| + 1..pos + |e.key| + 1 + 8] == data[pos + |e.key| + 1..pos + |e.key| + 9];
  }

  lemma {:induction false} EntriesRead(data: seq<Byte>, beyond: nat -> Byte, entries: seq<Entry>, pos: nat)
    requires AllGood(entries) && Holds(data, pos, EncodeAll(entries))
    ensures EntriesFrom(data, beyond, pos) == entries + EntriesFrom(data, beyond, pos + |EncodeAll(entries)|)
    decreases |entries|
  {
    hide Holds, Encode, EntryHeader, EntriesFrom, Memory;
    if entries == [] {
    } else {
      var e, rest := entries[0], entries[1..];
      HoldsConcat(data, pos, Encode(e), EncodeAll(rest));
      EncodeParts(e);
      HoldsConcat(data, pos, EntryHeader(e.key, |e.value|), e.value);
      EntryReads(data, beyond, pos, e);
      ValueReads(data, beyond, pos + |e.key| + 9, e.value);
      EntriesRead(data, beyond, rest, pos + |Encode(e)|);
      assert entries == [e] + rest;
      Associative([e], rest, EntriesFrom(data, beyond, pos + |EncodeAll(entries)|));
    }
  }

  lemma ValueReads(data: seq<Byte>, beyond: nat -> Byte, pos: nat, value: seq<Byte>)
    requires Holds(data, pos, value)
    ensures Memory(data, beyond, pos, |value|) == value
  {
    MemoryInside(data, beyond, pos, |value|);
  }

  /** The round trip: the encoded entries parse back if and only if the page ends behind them, or the
      next byte is zero. */
  lemma ParsesBackIff(data: seq<Byte>, beyond: nat -> Byte, entries: seq<Entry>)
    requires AllGood(entries) && Holds(data, 0, EncodeAll(entries))
    ensures EntriesFrom(data, beyond, 0) == entries <==> EndsAt(data, |EncodeAll(entries)|)
  {
    hide Holds, EncodeAll, Memory, StrLen, FromLittleEndian;
    EntriesRead(data, beyond, entries, 0);
    var n := |EncodeAll(entries)|;
    assert EndsAt(data, n) <==> EntriesFrom(data, beyond, n) == [];
    assert |EntriesFrom(data, beyond, 0)| == |entries| + |EntriesFrom(data, beyond, n)|;
  }

  /** Of a value that goes on in further regions, the parser gets the key and the length right. */
  lemma BigParses(data: seq<Byte>, beyond: nat -> Byte, e: Entry)
    requires GoodEntry(e) && |data| == CAPACITY < |Encode(e)| && data == Encode(e)[..CAPACITY]
    ensures var entries := EntriesFrom(data, beyond, 0);
      |entries| == 1 && entries[0].key == e.key && |entries[0].value| == |e.value|
  {
    hide EntriesFrom, Memory;
    EncodeOne(e);
    OffsetEnds([e]);
    EncodeParts(e);
    assert Holds(data, 0, EntryHeader(e.key, |e.value|));
    EntryReads(data, beyond, 0, e);
    EndOfPage(data, beyond, |Encode(e)|);
  }

  lemma EndOfPage(data: seq<Byte>, beyond: nat -> Byte, pos: nat)
    requires EndsAt(data, pos)
    ensures EntriesFrom(data, beyond, pos) == []
  {
  }

  /** No two lists of entries share an encoding. */
  lemma EncodingIsUnique(entries: seq<Entry>, entries': seq<Entry>)
    requires AllGood(entries) && AllGood(entries') && EncodeAll(entries) == EncodeAll(entries')
    ensures entries == entries'
  {
    hide EncodeAll, EntriesFrom;
    var data := EncodeAll(entries);
    assert Holds(data, 0, data);
    ParsesBackIff(data, _ => 0, entries);
    ParsesBackIff(data, _ => 0, entries');
  }
}
