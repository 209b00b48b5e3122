/** The in-memory log and its file: appending, flushing, loading. */
module WalLog {
  import opened Bytes
  import opened LogSemantics
  import opened LogCodec

  /** `pwrite`: `data` at `offset`, which may extend the file. */
  function WriteAt(file: seq<Byte>, offset: nat, data: seq<Byte>): seq<Byte>
    requires offset <= |file|
  {
    file[..offset] + data + (if offset + |data| <= |file| then file[offset + |data|..] else [])
  }

  lemma WriteAtBytes(file: seq<Byte>, offset: nat, data: seq<Byte>)
    requires offset <= |file|
    ensures var r := WriteAt(file, offset, data);
      && |r| == (if offset + |data| > |file| then offset + |data| else |file|)
      && forall i :: 0 <= i < |r| ==> r[i] == if offset <= i < offset + |data| then data[i - offset] else file[i]
  {
  }

  /** LSNs strictly increase and stay below the next one. */
  ghost predicate Ordered(records: seq<Record>, nextLsn: nat) {
    && (forall i, j :: 0 <= i < j < |records| ==> records[i].lsn < records[j].lsn)
    && (forall i :: 0 <= i < |records| ==> records[i].lsn < nextLsn)
  }

  lemma EncodeSnoc(cs: Checksum, records: seq<Record>, k: nat, i: nat)
    requires k <= i < |records|
    ensures EncodeAll(cs, records[k..i + 1]) == EncodeAll(cs, records[k..i]) + Encode(cs, records[i])
  {
    hide Encode;
    EncodeConcat(cs, records[k..i], [records[i]]);
    assert records[k..i + 1] == records[k..i] + [records[i]];
    assert EncodeAll(cs, [records[i]]) == Encode(cs, records[i]) + EncodeAll(cs, []);
  }

  lemma EncodeNone(cs: Checksum)
    ensures EncodeAll(cs, []) == []
  {
  }

  lemma EncodeSplit(cs: Checksum, records: seq<Record>, k: nat, i: nat)
    requires k <= i <= |records|
    ensures EncodeAll(cs, records[k..]) == EncodeAll(cs, records[k..i]) + EncodeAll(cs, records[i..])
  {
    assert records[k..] == records[k..i] + records[i..];
    EncodeConcat(cs, records[k..i], records[i..]);
  }

  lemma LoadStep(cs: Checksum, file: seq<Byte>, pos: nat)
    requires pos < |file|
    ensures var raw := LoadRecord(file, pos);
      && RawSize(raw) > 0
      && LoadFrom(cs, file, pos) ==
         if ChecksumMatches(cs, raw) then
           var rest := LoadFrom(cs, file, pos + RawSize(raw));
           Loaded([raw.record] + rest.records, rest.end)
         else Loaded([], pos)
  {
    hide LoadRecord, ChecksumMatches;
  }

  lemma LoadEnds(cs: Checksum, file: seq<Byte>, pos: nat)
    requires StopsAt(cs, file, pos)
    ensures LoadFrom(cs, file, pos) == Loaded([], pos)
  {
    hide LoadRecord, ChecksumMatches;
  }

  class Log {
    const checksum: Checksum
    var records: seq<Record>
    var nextLsn: nat
    var file: seq<Byte>
    var logPos: nat
    var unflushed: nat        // index into records of the first unflushed record
    ghost var first: nat      // index into records of the first record of the file

    /** The file holds exactly the flushed records since the last truncation. */
    ghost predicate Valid()
      reads this
    {
      && first <= unflushed <= |records|
      && logPos == |file|
      && file == EncodeAll(checksum, records[first..unflushed])
      && Ordered(records, nextLsn)
    }

    constructor (checksum: Checksum)
      ensures Valid() && this.checksum == checksum
      ensures records == [] && nextLsn == 0 && unflushed == 0 && first == 0
    {
      this.checksum := checksum;
      records, nextLsn, file, logPos, unflushed, first := [], 0, [], 0, 0, 0;
    }

    /** A log over a file that is there already: nothing is loaded yet. */
    constructor Opened(checksum: Checksum, file: seq<Byte>)
      ensures this.checksum == checksum && this.file == file
      ensures records == [] && nextLsn == 0 && unflushed == 0 && first == 0
    {
      this.checksum := checksum;
      records, nextLsn, this.file, logPos, unflushed, first := [], 0, file, 0, 0, 0;
    }

    /** Hands out the next LSN. */
    method TakeLsn() returns (lsn: nat)
      requires Valid()
      modifies this`nextLsn
      ensures Valid() && lsn == old(nextLsn) && nextLsn == lsn + 1
    {
      lsn := nextLsn;
      nextLsn := nextLsn + 1;
    }

    method Push(r: Record)
      requires Valid() && nextLsn > r.lsn && (records != [] ==> Last(records).lsn < r.lsn)
      modifies this`records
      ensures Valid() && records == old(records) + [r]
    {
      hide EncodeAll;
      assert (records + [r])[first..unflushed] == records[first..unflushed];
      records := records + [r];
    }

    method Flush()
      requires Valid()
      modifies this`file, this`logPos, this`unflushed
      ensures Valid() && unflushed == |records|
      ensures file == old(file) + EncodeAll(checksum, records[old(unflushed)..])
    {
      hide Encode, EncodeAll, Ordered;
      var buffer: seq<Byte> := [];
      EncodeNone(checksum);
      assert records[unflushed..unflushed] == [];
      for i := unflushed to |records|
        modifies {}
        invariant buffer == EncodeAll(checksum, records[unflushed..i])
      {
        EncodeSnoc(checksum, records, unflushed, i);
        buffer := buffer + Encode(checksum, records[i]);
      }
      assert records[unflushed..|records|] == records[unflushed..];
      EncodeSplit(checksum, records, first, unflushed);
      file := WriteAt(file, logPos, buffer);
      logPos := logPos + |buffer|;
      unflushed := |records|;
      assert records[first..unflushed] == records[first..];
    }

    /** Makes every record up to `lsn` durable. */
    method FlushUpTo(lsn: nat)
      requires Valid()
      modifies this`file, this`logPos, this`unflushed
      ensures Valid()
      ensures forall i :: unflushed <= i < |records| ==> records[i].lsn > lsn
      ensures old(unflushed == |records| || records[unflushed].lsn > lsn) ==>
                unflushed == old(unflushed) && file == old(file) && logPos == old(logPos)
      ensures unflushed == |records| || (unflushed == old(unflushed) && file == old(file) && logPos == old(logPos))
    {
      hide EncodeAll;
      if unflushed < |records| && records[unflushed].lsn <= lsn {
        Flush();
      }
    }

    /** Truncates the log file. The records stay in memory, and the unflushed ones unflushed. */
    method Truncate()
      requires Valid()
      modifies this`file, this`logPos, this`first
      ensures Valid() && first == unflushed && file == []
    {
      file := [];
      logPos := 0;
      first := unflushed;
      assert records[first..unflushed] == [];
    }

    /** Takes over the records recovery leaves in memory, and truncates the file. None of them counts as flushed. */
    method TakeOver(records: seq<Record>, nextLsn: nat)
      requires Ordered(records, nextLsn)
      modifies this
      ensures Valid() && first == unflushed == 0 && file == []
      ensures this.records == records && this.nextLsn == nextLsn
    {
      this.records, this.nextLsn := records, nextLsn;
      file, logPos, unflushed, first := [], 0, 0, 0;
      assert records[0..0] == [];
    }

    /** The load loop of recovery, over a file left by a crash: the records are those whose encodings, checksums
        included, the file holds from its start on, and they end at the end of the file or before bytes
        that do not start with their checksum. */
    method Load()
      modifies this`records, this`logPos
      ensures Loaded(records, logPos) == LoadFrom(checksum, file, 0)
      ensures EncodeAll(checksum, records) == ReadAt(file, 0, logPos)
      ensures logPos < |file| ==>
        var size := HeaderSize(ByteAt(file, logPos + 12));
        Field(file, logPos, 4)
        != checksum(ReadAt(file, logPos + 4, size - 4), ReadAt(file, logPos + size, DataSize(file, logPos))) % U32_LIMIT
    {
      hide LoadFrom, LoadRecord, ChecksumMatches, RawSize, Field, DataSize, ReadAt, ByteAt, EncodeAll;
      records := [];
      logPos := 0;
      while logPos < |file|
        invariant var rest := LoadFrom(checksum, file, logPos);
          LoadFrom(checksum, file, 0) == Loaded(records + rest.records, rest.end)
        decreases |file| - logPos
      {
        LoadStep(checksum, file, logPos);
        var raw := LoadRecord(file, logPos);
        if !ChecksumMatches(checksum, raw) {
          break;
        }
        records := records + [raw.record];
        logPos := logPos + RawSize(raw);
      }
      LoadEnds(checksum, file, logPos);
      LoadIsSound(checksum, file, 0);
      LoadStops(checksum, file, 0);
      if logPos < |file| {
        LoadsIffIntact(checksum, file, logPos);
      }
    }
  }
}
