/** Bytes, little-endian words and the zero-extended reads that files and pages give. */
module Bytes {
  type Byte = x: int | 0 <= x < 256

  const PAGE_SIZE: nat := 4096
  const U16_LIMIT: nat := 0x1_0000
  const U32_LIMIT: nat := 0x1_0000_0000
  const U64_LIMIT: nat := 0x1_0000_0000_0000_0000

  function Zeros(n: nat): (s: seq<Byte>)
    ensures |s| == n && forall i :: 0 <= i < n ==> s[i] == 0
  {
    seq(n, _ => 0)
  }

  /** The byte at position `b`; everything past the end of a file reads as zero. */
  function ByteAt(s: seq<Byte>, b: nat): Byte {
    if b < |s| then s[b] else 0
  }

  /** `pread` into a zeroed buffer: `n` bytes from `offset`, zero past the end of the file. */
  function ReadAt(file: seq<Byte>, offset: nat, n: nat): (s: seq<Byte>)
    ensures |s| == n
    ensures forall i :: 0 <= i < n ==> s[i] == ByteAt(file, offset + i)
  {
    seq<Byte>(n, i requires 0 <= i => ByteAt(file, offset + i))
  }

  function Pow256(n: nat): (p: nat)
    ensures p >= 1
  {
    if n == 0 then 1 else 256 * Pow256(n - 1)
  }

  function LittleEndian(x: nat, width: nat): (s: seq<Byte>)
    ensures |s| == width
    decreases width
  {
    if width == 0 then [] else [x % 256] + LittleEndian(x / 256, width - 1)
  }

  function FromLittleEndian(s: seq<Byte>): nat {
    if s == [] then 0 else s[0] + 256 * FromLittleEndian(s[1..])
  }

  lemma {:induction false} FromToLittleEndian(x: nat, width: nat)
    requires x < Pow256(width)
    ensures FromLittleEndian(LittleEndian(x, width)) == x
    decreases width
  {
    if width == 0 {
    } else {
      FromToLittleEndian(x / 256, width - 1);
      assert LittleEndian(x, width)[1..] == LittleEndian(x / 256, width - 1);
    }
  }

  lemma {:induction false} ToFromLittleEndian(s: seq<Byte>)
    ensures LittleEndian(FromLittleEndian(s), |s|) == s
  {
    if s != [] {
      ToFromLittleEndian(s[1..]);
      assert FromLittleEndian(s) / 256 == FromLittleEndian(s[1..]) && FromLittleEndian(s) % 256 == s[0];
    }
  }

  lemma ReadConcat(file: seq<Byte>, offset: nat, m: nat, n: nat)
    ensures ReadAt(file, offset, m) + ReadAt(file, offset + m, n) == ReadAt(file, offset, m + n)
  {
  }

  lemma {:induction false} FromLittleEndianBound(s: seq<Byte>)
    ensures FromLittleEndian(s) < Pow256(|s|)
  {
    if s == [] {
    } else {
      FromLittleEndianBound(s[1..]);
    }
  }

  lemma Powers()
    ensures Pow256(2) == U16_LIMIT
    ensures Pow256(4) == U32_LIMIT
    ensures Pow256(8) == U64_LIMIT
  {
    assert Pow256(1) == 256;
    assert Pow256(2) == 65536;
    assert Pow256(3) == 256 * 65536;
    assert Pow256(4) == 65536 * 65536;
    assert Pow256(5) == 256 * Pow256(4);
    assert Pow256(6) == 256 * Pow256(5);
    assert Pow256(7) == 256 * Pow256(6);
  }

  /** `s` with the bytes from `offset` on replaced by `data`. */
  function Splice(s: seq<Byte>, offset: nat, data: seq<Byte>): (r: seq<Byte>)
    requires offset + |data| <= |s|
    ensures |r| == |s|
    ensures forall i :: 0 <= i < |s| ==> r[i] == if offset <= i < offset + |data| then data[i - offset] else s[i]
  {
    s[..offset] + data + s[offset + |data|..]
  }

  /** The file holds `s` at `offset`. */
  predicate Holds(file: seq<Byte>, offset: nat, s: seq<Byte>) {
    offset + |s| <= |file| && file[offset..offset + |s|] == s
  }

  lemma HoldsConcat(file: seq<Byte>, offset: nat, s: seq<Byte>, t: seq<Byte>)
    requires Holds(file, offset, s + t)
    ensures Holds(file, offset, s) && Holds(file, offset + |s|, t)
  {
    var u := file[offset..offset + |s| + |t|];
    assert u == s + t;
    assert file[offset..offset + |s|] == u[..|s|];
    assert file[offset + |s|..offset + |s| + |t|] == u[|s|..];
  }

  lemma HoldsBound(file: seq<Byte>, offset: nat, s: seq<Byte>)
    requires Holds(file, offset, s)
    ensures offset + |s| <= |file|
  {
  }

  lemma HoldsRead(file: seq<Byte>, offset: nat, s: seq<Byte>)
    requires Holds(file, offset, s)
    ensures ReadAt(file, offset, |s|) == s
  {
    assert forall i :: 0 <= i < |s| ==> file[offset..offset + |s|][i] == s[i];
  }

  /** A value with a part written over it: as long as it takes, zeros where nothing was. */
  function PartWritten(value: seq<Byte>, offset: nat, buffer: seq<Byte>): (r: seq<Byte>)
    ensures |r| == if offset + |buffer| > |value| then offset + |buffer| else |value|
  {
    var n := if offset + |buffer| > |value| then offset + |buffer| else |value|;
    Splice(ReadAt(value, 0, n), offset, buffer)
  }

  /** `after` is `before` with the buffer over it from `at` on: longer if it takes that, and zero where nothing was. */
  ghost predicate WrittenOver(before: seq<Byte>, after: seq<Byte>, at: nat, buffer: seq<Byte>) {
    && |after| == (if at + |buffer| > |before| then at + |buffer| else |before|)
    && forall j :: 0 <= j < |after| ==>
         after[j] == if at <= j < at + |buffer| then buffer[j - at] else if j < |before| then before[j] else 0
  }

  lemma PartIsWrittenOver(value: seq<Byte>, at: nat, buffer: seq<Byte>)
    ensures WrittenOver(value, PartWritten(value, at, buffer), at, buffer)
  {
  }

  /** That determines it. */
  lemma WrittenOverOnce(before: seq<Byte>, after: seq<Byte>, after': seq<Byte>, at: nat, buffer: seq<Byte>)
    requires WrittenOver(before, after, at, buffer) && WrittenOver(before, after', at, buffer)
    ensures after == after'
  {
  }

  /** `after` is as long as the buffer, and holds zeros before `at` and as much of the buffer as goes behind them. */
  ghost predicate PushedBack(after: seq<Byte>, at: nat, buffer: seq<Byte>) {
    |after| == |buffer| && forall j :: 0 <= j < |after| ==> after[j] == if j < at then 0 else buffer[j - at]
  }

  lemma CutIsPushedBack(at: nat, buffer: seq<Byte>)
    ensures PushedBack((Zeros(at) + buffer)[..|buffer|], at, buffer)
    ensures WrittenOver([], (Zeros(at) + buffer)[..|buffer|], at, buffer) <==> at == 0
  {
  }
}
