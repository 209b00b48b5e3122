/** The bytes of the log file: how records are laid out, and the loop that reads them back. */
module LogCodec {
  import opened Bytes
  import opened LogSemantics

  const COMMON_HEADER: nat := 13   // checksum, lsn, txn_id: 4 bytes each; type: 1 byte
  const SET_HEADER: nat := 27      // plus loc: 8 bytes; length, old_value_len, new_value_len: 2 each
  const CLR_HEADER: nat := 29      // plus undo_lsn: 4 bytes; loc: 8; length, new_value_len: 2 each

  /** The checksum of the header after the checksum field and of the data; any function will do. */
  type Checksum = (seq<Byte>, seq<Byte>) -> nat

  function HeaderSize(kind: Byte): (n: nat)
    ensures COMMON_HEADER <= n <= CLR_HEADER
  {
    if kind == CLR then CLR_HEADER else if kind == SET then SET_HEADER else COMMON_HEADER
  }

  function KindOf(r: Record): Byte {
    match r
    case Control(_, _, kind) => kind
    case Set(_, _, _, _, _, _) => SET
    case Clr(_, _, _, _, _, _) => CLR
  }

  function RecordSize(r: Record): nat {
    HeaderSize(KindOf(r)) + |Data(r)|
  }

  /** The fields fit the widths of the record layout. */
  predicate Storable(r: Record) {
    && r.lsn < U32_LIMIT && r.txn < U32_LIMIT
    && match r
       case Control(_, _, kind) => kind != SET && kind != CLR
       case Set(_, _, loc, len, oldVal, newVal) =>
         loc < U64_LIMIT && len < U16_LIMIT && |oldVal| <= len && |newVal| <= len
       case Clr(_, _, undoLsn, loc, len, newVal) =>
         undoLsn < U32_LIMIT && loc < U64_LIMIT && len < U16_LIMIT && |newVal| <= len
  }

  /** The type-specific part of the header. */
  function Extra(r: Record): (s: seq<Byte>)
    ensures |s| == HeaderSize(KindOf(r)) - COMMON_HEADER || r.Control?
    ensures r.Control? ==> s == []
  {
    match r
    case Control(_, _, _) => []
    case Set(_, _, loc, len, oldVal, newVal) =>
      LittleEndian(loc, 8) + LittleEndian(len, 2) + LittleEndian(|oldVal|, 2) + LittleEndian(|newVal|, 2)
    case Clr(_, _, undoLsn, loc, len, newVal) =>
      LittleEndian(undoLsn, 4) + LittleEndian(loc, 8) + LittleEndian(len, 2) + LittleEndian(|newVal|, 2)
  }

  function HeaderTail(r: Record): seq<Byte> {
    LittleEndian(r.lsn, 4) + LittleEndian(r.txn, 4) + [KindOf(r)] + Extra(r)
  }

  function Data(r: Record): seq<Byte> {
    match r
    case Control(_, _, _) => []
    case Set(_, _, _, _, oldVal, newVal) => oldVal + newVal
    case Clr(_, _, _, _, _, newVal) => newVal
  }

  function ChecksumOf(cs: Checksum, tail: seq<Byte>, data: seq<Byte>): nat {
    cs(tail, data) % U32_LIMIT
  }

  function Encode(cs: Checksum, r: Record): seq<Byte> {
    LittleEndian(ChecksumOf(cs, HeaderTail(r), Data(r)), 4) + HeaderTail(r) + Data(r)
  }

  function EncodeAll(cs: Checksum, records: seq<Record>): seq<Byte> {
    if records == [] then [] else Encode(cs, records[0]) + EncodeAll(cs, records[1..])
  }

  /** A little-endian field of the file. */
  function Field(file: seq<Byte>, offset: nat, width: nat): nat {
    FromLittleEndian(ReadAt(file, offset, width))
  }

  /** What the file holds at `offset`, read as a record: the bytes the checksum covers, the stored
      checksum, and the record. Reads past the end of the file give zeros. */
  datatype Raw = Raw(stored: nat, tail: seq<Byte>, data: seq<Byte>, record: Record)

  function LoadRecord(file: seq<Byte>, offset: nat): Raw {
    var kind := ByteAt(file, offset + 12);
    var size := HeaderSize(kind);
    var lsn := Field(file, offset + 4, 4);
    var txn := Field(file, offset + 8, 4);
    var stored := Field(file, offset, 4);
    var tail := ReadAt(file, offset + 4, size - 4);
    if kind == SET then
      var oldLen := Field(file, offset + 23, 2);
      var newLen := Field(file, offset + 25, 2);
      var data := ReadAt(file, offset + size, oldLen + newLen);
      Raw(stored, tail, data,
          Set(lsn, txn, Field(file, offset + 13, 8), Field(file, offset + 21, 2), data[..oldLen], data[oldLen..]))
    else if kind == CLR then
      var newLen := Field(file, offset + 27, 2);
      var data := ReadAt(file, offset + size, newLen);
      Raw(stored, tail, data,
          Clr(lsn, txn, Field(file, offset + 13, 4), Field(file, offset + 17, 8), Field(file, offset + 25, 2), data))
    else
      Raw(stored, tail, [], Control(lsn, txn, kind))
  }

  /** The size of a loaded record is what the loader advances by. */
  function RawSize(raw: Raw): nat {
    HeaderSize(KindOf(raw.record)) + |raw.data|
  }

  predicate ChecksumMatches(cs: Checksum, raw: Raw) {
    raw.stored == ChecksumOf(cs, raw.tail, raw.data)
  }

  // ---- a written record reads back ----

  lemma HoldsField(file: seq<Byte>, offset: nat, x: nat, width: nat)
    requires Holds(file, offset, LittleEndian(x, width)) && x < Pow256(width)
    ensures Field(file, offset, width) == x
  {
    HoldsRead(file, offset, LittleEndian(x, width));
    FromToLittleEndian(x, width);
  }

  /** The pieces of a stored record lie where the loader looks for them. */
  lemma HoldsRecord(cs: Checksum, file: seq<Byte>, offset: nat, r: Record)
    requires Holds(file, offset, Encode(cs, r))
    ensures Holds(file, offset, LittleEndian(ChecksumOf(cs, HeaderTail(r), Data(r)), 4))
    ensures Holds(file, offset + 4, LittleEndian(r.lsn, 4))
    ensures Holds(file, offset + 8, LittleEndian(r.txn, 4))
    ensures Holds(file, offset + 12, [KindOf(r)])
    ensures Holds(file, offset + 13, Extra(r))
    ensures Holds(file, offset + 4, HeaderTail(r))
    ensures |HeaderTail(r)| == 9 + |Extra(r)|
    ensures Holds(file, offset + 13 + |Extra(r)|, Data(r))
  {
    hide Extra, Data, Holds, LittleEndian;
    var sum := LittleEndian(ChecksumOf(cs, HeaderTail(r), Data(r)), 4);
    var lsn, txn, kind, extra := LittleEndian(r.lsn, 4), LittleEndian(r.txn, 4), [KindOf(r)], Extra(r);
    HoldsConcat(file, offset, sum + HeaderTail(r), Data(r));
    HoldsConcat(file, offset, sum, HeaderTail(r));
    HoldsConcat(file, offset + 4, lsn + txn + kind, extra);
    HoldsConcat(file, offset + 4, lsn + txn, kind);
    HoldsConcat(file, offset + 4, lsn, txn);
  }

  lemma SetFields(file: seq<Byte>, offset: nat, r: Record)
    requires r.Set? && Storable(r) && Holds(file, offset, Extra(r))
    ensures Field(file, offset, 8) == r.loc && Field(file, offset + 8, 2) == r.len
    ensures Field(file, offset + 10, 2) == |r.oldVal| && Field(file, offset + 12, 2) == |r.newVal|
  {
    hide LittleEndian, Holds, Field;
    Powers();
    var a, b, c, d := LittleEndian(r.loc, 8), LittleEndian(r.len, 2), LittleEndian(|r.oldVal|, 2), LittleEndian(|r.newVal|, 2);
    HoldsConcat(file, offset, a + b + c, d);
    HoldsConcat(file, offset, a + b, c);
    HoldsConcat(file, offset, a, b);
    HoldsField(file, offset, r.loc, 8);
    HoldsField(file, offset + 8, r.len, 2);
    HoldsField(file, offset + 10, |r.oldVal|, 2);
    HoldsField(file, offset + 12, |r.newVal|, 2);
  }

  lemma ClrFields(file: seq<Byte>, offset: nat, r: Record)
    requires r.Clr? && Storable(r) && Holds(file, offset, Extra(r))
    ensures Field(file, offset, 4) == r.undoLsn && Field(file, offset + 4, 8) == r.loc
    ensures Field(file, offset + 12, 2) == r.len && Field(file, offset + 14, 2) == |r.newVal|
  {
    hide LittleEndian, Holds, Field;
    Powers();
    var a, b, c, d := LittleEndian(r.undoLsn, 4), LittleEndian(r.loc, 8), LittleEndian(r.len, 2), LittleEndian(|r.newVal|, 2);
    HoldsConcat(file, offset, a + b + c, d);
    HoldsConcat(file, offset, a + b, c);
    HoldsConcat(file, offset, a, b);
    HoldsField(file, offset, r.undoLsn, 4);
    HoldsField(file, offset + 4, r.loc, 8);
    HoldsField(file, offset + 12, r.len, 2);
    HoldsField(file, offset + 14, |r.newVal|, 2);
  }

  /** Round trip of one record: loading where it was stored gives it back, checksum and size too. */
  lemma LoadStored(cs: Checksum, file: seq<Byte>, offset: nat, r: Record)
    requires Holds(file, offset, Encode(cs, r)) && Storable(r)
    ensures var raw := LoadRecord(file, offset);
      raw.record == r && raw.tail == HeaderTail(r) && raw.data == Data(r)
      && ChecksumMatches(cs, raw) && RawSize(raw) == |Encode(cs, r)|
  {
    hide LittleEndian, Field, HeaderTail, Encode, FromLittleEndian, Holds, ReadAt, ByteAt, Data, Storable, Extra, ChecksumOf;
    CommonFields(cs, file, offset, r);
    TypedFields(cs, file, offset, r);
    EncodedSize(cs, r);
  }

  /** The fields every record has, and the bytes its checksum covers. */
  lemma CommonFields(cs: Checksum, file: seq<Byte>, offset: nat, r: Record)
    requires Holds(file, offset, Encode(cs, r)) && Storable(r)
    ensures ByteAt(file, offset + 12) == KindOf(r)
    ensures Field(file, offset, 4) == ChecksumOf(cs, HeaderTail(r), Data(r))
    ensures Field(file, offset + 4, 4) == r.lsn && Field(file, offset + 8, 4) == r.txn
    ensures ReadAt(file, offset + 4, HeaderSize(KindOf(r)) - 4) == HeaderTail(r)
    ensures ReadAt(file, offset + HeaderSize(KindOf(r)), |Data(r)|) == Data(r)
  {
    hide LittleEndian, Field, HeaderTail, Encode, FromLittleEndian, ReadAt;
    HoldsRecord(cs, file, offset, r);
    Powers();
    HoldsField(file, offset, ChecksumOf(cs, HeaderTail(r), Data(r)), 4);
    HoldsField(file, offset + 4, r.lsn, 4);
    HoldsField(file, offset + 8, r.txn, 4);
    HoldsRead(file, offset + 4, HeaderTail(r));
    HoldsRead(file, offset + 13 + |Extra(r)|, Data(r));
    assert file[offset + 12..offset + 13][0] == file[offset + 12];
    ExtraSize(r);
  }

  lemma ExtraSize(r: Record)
    requires Storable(r)
    ensures HeaderSize(KindOf(r)) == 13 + |Extra(r)|
  {
  }

  /** The fields of a SET or a CLR, and how the data is cut. */
  lemma TypedFields(cs: Checksum, file: seq<Byte>, offset: nat, r: Record)
    requires Holds(file, offset, Encode(cs, r)) && Storable(r)
    ensures r.Set? ==>
              && Field(file, offset + 13, 8) == r.loc && Field(file, offset + 21, 2) == r.len
              && Field(file, offset + 23, 2) == |r.oldVal| && Field(file, offset + 25, 2) == |r.newVal|
              && Data(r)[..|r.oldVal|] == r.oldVal && Data(r)[|r.oldVal|..] == r.newVal
              && |Data(r)| == |r.oldVal| + |r.newVal|
    ensures r.Clr? ==>
              && Field(file, offset + 13, 4) == r.undoLsn && Field(file, offset + 17, 8) == r.loc
              && Field(file, offset + 25, 2) == r.len && Field(file, offset + 27, 2) == |r.newVal|
              && Data(r) == r.newVal
    ensures r.Control? ==> Data(r) == [] && r.kind != SET && r.kind != CLR
  {
    hide LittleEndian, Field, HeaderTail, Encode, FromLittleEndian, Holds, Extra;
    HoldsRecord(cs, file, offset, r);
    if r.Set? {
      SetFields(file, offset + 13, r);
    } else if r.Clr? {
      ClrFields(file, offset + 13, r);
    }
  }

  lemma EncodedSize(cs: Checksum, r: Record)
    requires Storable(r)
    ensures |Encode(cs, r)| == RecordSize(r) >= COMMON_HEADER
  {
  }

  // ---- the load loop ----

  datatype Loaded = Loaded(records: seq<Record>, end: nat)

  /** The records the loader takes from `pos` on: it stops at the end or at a wrong checksum. */
  function LoadFrom(cs: Checksum, file: seq<Byte>, pos: nat): Loaded
    decreases |file| - pos
  {
    if pos >= |file| then Loaded([], pos)
    else
      var raw := LoadRecord(file, pos);
      if !ChecksumMatches(cs, raw) then Loaded([], pos)
      else
        var rest := LoadFrom(cs, file, pos + RawSize(raw));
        Loaded([raw.record] + rest.records, rest.end)
  }

  /** The bytes at `pos` do not start with an intact record. */
  predicate StopsAt(cs: Checksum, file: seq<Byte>, pos: nat) {
    pos >= |file| || !ChecksumMatches(cs, LoadRecord(file, pos))
  }

  predicate AllStorable(records: seq<Record>) {
    forall i :: 0 <= i < |records| ==> Storable(records[i])
  }

  /** Reading back what was written: the loader returns all stored records first, and nothing else
      when what follows them is the end of the file or not an intact record. */
  lemma {:induction false} LoadReturnsStored(cs: Checksum, file: seq<Byte>, pos: nat, records: seq<Record>)
    requires Holds(file, pos, EncodeAll(cs, records)) && AllStorable(records)
    decreases |records|
    ensures records <= LoadFrom(cs, file, pos).records
    ensures StopsAt(cs, file, pos + |EncodeAll(cs, records)|) ==>
              LoadFrom(cs, file, pos) == Loaded(records, pos + |EncodeAll(cs, records)|)
  {
    hide LoadRecord, Encode, Holds, ChecksumMatches, RawSize;
    if records == [] {
    } else {
      var r := records[0];
      HoldsConcat(file, pos, Encode(cs, r), EncodeAll(cs, records[1..]));
      LoadStored(cs, file, pos, r);
      EncodedSize(cs, r);
      HoldsBound(file, pos, Encode(cs, r));
      LoadReturnsStored(cs, file, pos + |Encode(cs, r)|, records[1..]);
      var rest := LoadFrom(cs, file, pos + |Encode(cs, r)|);
      assert LoadFrom(cs, file, pos) == Loaded([r] + rest.records, rest.end);
      assert records == [r] + records[1..];
    }
  }

  // ---- what is loaded was there, and intact ----

  /** How many bytes of data the header at `pos` announces. */
  function DataSize(file: seq<Byte>, pos: nat): nat {
    if ByteAt(file, pos + 12) == SET then Field(file, pos + 23, 2) + Field(file, pos + 25, 2)
    else if ByteAt(file, pos + 12) == CLR then Field(file, pos + 27, 2)
    else 0
  }

  /** The loader takes a record exactly when the first four bytes are the checksum of all that follow them
      in it, whatever the checksum function is. */
  lemma LoadsIffIntact(cs: Checksum, file: seq<Byte>, pos: nat)
    requires pos < |file|
    ensures var size := HeaderSize(ByteAt(file, pos + 12));
      var sum := cs(ReadAt(file, pos + 4, size - 4), ReadAt(file, pos + size, DataSize(file, pos))) % U32_LIMIT;
      && (Field(file, pos, 4) != sum ==> LoadFrom(cs, file, pos) == Loaded([], pos))
      && (Field(file, pos, 4) == sum ==> LoadFrom(cs, file, pos).records != [])
  {
    hide Field, ReadAt;
    var raw := LoadRecord(file, pos);
    var rest := LoadFrom(cs, file, pos + RawSize(raw));
  }

  lemma FieldBytes(file: seq<Byte>, offset: nat, width: nat)
    ensures LittleEndian(Field(file, offset, width), width) == ReadAt(file, offset, width)
  {
    ToFromLittleEndian(ReadAt(file, offset, width));
  }

  /** The fields of a loaded record, laid out again, are the bytes its checksum covers. */
  lemma LoadedTail(file: seq<Byte>, pos: nat)
    ensures var raw := LoadRecord(file, pos);
      && KindOf(raw.record) == ByteAt(file, pos + 12)
      && raw.tail == HeaderTail(raw.record) == ReadAt(file, pos + 4, HeaderSize(KindOf(raw.record)) - 4)
  {
    hide Field, LittleEndian, ReadAt, ByteAt;
    FieldBytes(file, pos + 4, 4);
    FieldBytes(file, pos + 8, 4);
    ReadConcat(file, pos + 4, 4, 4);
    OneByte(file, pos + 12);
    ReadConcat(file, pos + 4, 8, 1);
    var kind := ByteAt(file, pos + 12);
    if kind == SET {
      SetLaidOut(file, pos + 13);
      ReadConcat(file, pos + 4, 9, 14);
    } else if kind == CLR {
      ClrLaidOut(file, pos + 13);
      ReadConcat(file, pos + 4, 9, 16);
    }
  }

  lemma OneByte(file: seq<Byte>, offset: nat)
    ensures ReadAt(file, offset, 1) == [ByteAt(file, offset)]
  {
  }

  lemma SetLaidOut(file: seq<Byte>, at: nat)
    ensures LittleEndian(Field(file, at, 8), 8) + LittleEndian(Field(file, at + 8, 2), 2)
            + LittleEndian(Field(file, at + 10, 2), 2) + LittleEndian(Field(file, at + 12, 2), 2) == ReadAt(file, at, 14)
  {
    hide Field, LittleEndian, ReadAt;
    FieldBytes(file, at, 8);
    FieldBytes(file, at + 8, 2);
    FieldBytes(file, at + 10, 2);
    FieldBytes(file, at + 12, 2);
    ReadConcat(file, at, 8, 2);
    ReadConcat(file, at, 10, 2);
    ReadConcat(file, at, 12, 2);
  }

  lemma ClrLaidOut(file: seq<Byte>, at: nat)
    ensures LittleEndian(Field(file, at, 4), 4) + LittleEndian(Field(file, at + 4, 8), 8)
            + LittleEndian(Field(file, at + 12, 2), 2) + LittleEndian(Field(file, at + 14, 2), 2) == ReadAt(file, at, 16)
  {
    hide Field, LittleEndian, ReadAt;
    FieldBytes(file, at, 4);
    FieldBytes(file, at + 4, 8);
    FieldBytes(file, at + 12, 2);
    FieldBytes(file, at + 14, 2);
    ReadConcat(file, at, 4, 8);
    ReadConcat(file, at, 12, 2);
    ReadConcat(file, at, 14, 2);
  }

  lemma LoadedData(file: seq<Byte>, pos: nat)
    ensures var raw := LoadRecord(file, pos);
      raw.data == Data(raw.record) == ReadAt(file, pos + HeaderSize(ByteAt(file, pos + 12)), |raw.data|)
  {
    hide Field, ByteAt;
  }

  /** A record that was loaded is encoded by the bytes it was loaded from. */
  lemma LoadedBytes(cs: Checksum, file: seq<Byte>, pos: nat)
    requires ChecksumMatches(cs, LoadRecord(file, pos))
    ensures var raw := LoadRecord(file, pos); Encode(cs, raw.record) == ReadAt(file, pos, RawSize(raw))
  {
    hide LittleEndian, ReadAt, ByteAt, HeaderTail, Data, ChecksumOf, FromLittleEndian;
    var raw := LoadRecord(file, pos);
    LoadedTail(file, pos);
    LoadedData(file, pos);
    FieldBytes(file, pos, 4);
    StoredField(file, pos);
    var size := HeaderSize(KindOf(raw.record));
    ReadConcat(file, pos, 4, size - 4);
    ReadConcat(file, pos, size, |raw.data|);
  }

  lemma StoredField(file: seq<Byte>, pos: nat)
    ensures LoadRecord(file, pos).stored == Field(file, pos, 4)
  {
    hide Field;
  }

  /** The loader makes nothing up: the records it returns, encoded with their checksums, are the bytes from
      `pos` up to where it stops, zeros past the end of the file included. */
  lemma {:induction false} LoadIsSound(cs: Checksum, file: seq<Byte>, pos: nat)
    decreases |file| - pos
    ensures var loaded := LoadFrom(cs, file, pos);
      loaded.end >= pos && EncodeAll(cs, loaded.records) == ReadAt(file, pos, loaded.end - pos)
  {
    hide LoadRecord, ChecksumMatches, Encode, ReadAt, RawSize;
    if pos < |file| && ChecksumMatches(cs, LoadRecord(file, pos)) {
      var raw := LoadRecord(file, pos);
      RawSizePositive(raw);
      LoadIsSound(cs, file, pos + RawSize(raw));
      var rest := LoadFrom(cs, file, pos + RawSize(raw));
      LoadedBytes(cs, file, pos);
      ReadConcat(file, pos, RawSize(raw), rest.end - (pos + RawSize(raw)));
      assert ([raw.record] + rest.records)[1..] == rest.records;
    } else {
      ReadNothing(file, pos);
    }
  }

  lemma RawSizePositive(raw: Raw)
    ensures RawSize(raw) > 0
  {
  }

  lemma ReadNothing(file: seq<Byte>, pos: nat)
    ensures ReadAt(file, pos, 0) == []
  {
  }

  /** Where the loader stops there is no intact record. */
  lemma {:induction false} LoadStops(cs: Checksum, file: seq<Byte>, pos: nat)
    decreases |file| - pos
    ensures LoadFrom(cs, file, LoadFrom(cs, file, pos).end).records == []
  {
    hide LoadRecord, ChecksumMatches, RawSize;
    if pos < |file| && ChecksumMatches(cs, LoadRecord(file, pos)) {
      RawSizePositive(LoadRecord(file, pos));
      LoadStops(cs, file, pos + RawSize(LoadRecord(file, pos)));
    }
  }

  lemma {:induction false} EncodeConcat(cs: Checksum, records: seq<Record>, more: seq<Record>)
    ensures EncodeAll(cs, records + more) == EncodeAll(cs, records) + EncodeAll(cs, more)
  {
    hide Encode;
    if records == [] {
      assert records + more == more;
    } else {
      assert (records + more)[0] == records[0] && (records + more)[1..] == records[1..] + more;
      EncodeConcat(cs, records[1..], more);
    }
  }

  /** A log cut off at any byte: the records wholly before the cut are loaded, and, unless the cut
      record passes its checksum by luck, the result is exactly that prefix. */
  lemma {:induction false} TornLogLoadsPrefix(cs: Checksum, records: seq<Record>, cut: nat) returns (whole: nat)
    requires AllStorable(records) && cut <= |EncodeAll(cs, records)|
    ensures whole <= |records|
    ensures |EncodeAll(cs, records[..whole])| <= cut
    ensures whole < |records| ==> cut < |EncodeAll(cs, records[..whole + 1])|
    ensures var torn := EncodeAll(cs, records)[..cut];
      && records[..whole] <= LoadFrom(cs, torn, 0).records
      && (StopsAt(cs, torn, |EncodeAll(cs, records[..whole])|) ==> LoadFrom(cs, torn, 0).records == records[..whole])
  {
    hide Encode, LoadFrom, StopsAt;
    whole := 0;
    assert records[..0] == [];
    while whole < |records| && |EncodeAll(cs, records[..whole + 1])| <= cut
      invariant 0 <= whole <= |records| && |EncodeAll(cs, records[..whole])| <= cut
    {
      whole := whole + 1;
    }
    var torn := EncodeAll(cs, records)[..cut];
    assert records == records[..whole] + records[whole..];
    EncodeConcat(cs, records[..whole], records[whole..]);
    assert Holds(torn, 0, EncodeAll(cs, records[..whole]));
    LoadReturnsStored(cs, torn, 0, records[..whole]);
  }
}
