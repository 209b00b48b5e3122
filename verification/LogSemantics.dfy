/** What a sequence of log records means, one byte of the data file at a time. */
module LogSemantics {
  import opened Bytes

  // The values of the record type field.
  const BEGIN: Byte := 0
  const COMMIT: Byte := 1
  const ABORT_BEGIN: Byte := 2
  const ABORT_END: Byte := 3
  const CHECKPOINT: Byte := 4
  const SET: Byte := 5
  const CLR: Byte := 6

  /** A log record; `Control` stands for every type that does not touch the data file. */
  datatype Record =
    | Control(lsn: nat, txn: nat, kind: Byte)
    | Set(lsn: nat, txn: nat, loc: nat, len: nat, oldVal: seq<Byte>, newVal: seq<Byte>)
    | Clr(lsn: nat, txn: nat, undoLsn: nat, loc: nat, len: nat, newVal: seq<Byte>)

  /** The bytes of the data file, zero past its end. */
  type Image = nat -> Byte

  predicate Covers(r: Record, b: nat) {
    !r.Control? && r.loc <= b < r.loc + r.len
  }

  /** The byte a SET or CLR writes at `b`: its value bytes, then fill zeros. */
  function NewAt(r: Record, b: nat): Byte
    requires Covers(r, b)
  {
    ByteAt(r.newVal, b - r.loc)
  }

  /** The byte that was at `b` before a SET, out of its zero-trimmed old value. */
  function OldAt(r: Record, b: nat): Byte
    requires r.Set? && Covers(r, b)
  {
    ByteAt(r.oldVal, b - r.loc)
  }

  predicate IsKind(r: Record, kind: Byte) {
    r.Control? && r.kind == kind
  }

  function Last(log: seq<Record>): Record
    requires log != []
  {
    log[|log| - 1]
  }

  function Init(log: seq<Record>): seq<Record>
    requires log != []
  {
    log[..|log| - 1]
  }

  /** Replaying the whole log over a byte that starts as `v`. */
  function Redo(v: Byte, log: seq<Record>, b: nat): Byte {
    if log == [] then v
    else if Covers(Last(log), b) then NewAt(Last(log), b)
    else Redo(v, Init(log), b)
  }

  function Committed(log: seq<Record>): set<nat> {
    if log == [] then {}
    else Committed(Init(log)) + (if IsKind(Last(log), COMMIT) then {Last(log).txn} else {})
  }

  /** Transactions with a COMMIT or ABORT_END record. */
  function Finished(log: seq<Record>): set<nat> {
    if log == [] then {}
    else Finished(Init(log)) +
         (if IsKind(Last(log), COMMIT) || IsKind(Last(log), ABORT_END) then {Last(log).txn} else {})
  }

  predicate SetsAt(r: Record, b: nat) {
    r.Set? && Covers(r, b)
  }

  /** The byte with only the SETs of the given transactions applied, in log order. */
  function Applied(v: Byte, log: seq<Record>, txns: set<nat>, b: nat): Byte {
    if log == [] then v
    else if SetsAt(Last(log), b) && Last(log).txn in txns then NewAt(Last(log), b)
    else Applied(v, Init(log), txns, b)
  }

  /** The atomic-and-durable specification: the base byte plus the committed SETs. */
  function CommittedValue(v: Byte, log: seq<Record>, b: nat): Byte {
    Applied(v, log, Committed(log), b)
  }

  /** Index of the first SET at `b` by a transaction outside `fin`, or -1. */
  function FirstOpen(log: seq<Record>, fin: set<nat>, b: nat): (i: int)
    ensures -1 <= i < |log|
    ensures i >= 0 ==> SetsAt(log[i], b) && log[i].txn !in fin
    ensures forall k :: 0 <= k < (if i < 0 then |log| else i) ==> !(SetsAt(log[k], b) && log[k].txn !in fin)
  {
    if log == [] then -1
    else
      var i := FirstOpen(Init(log), fin, b);
      if i >= 0 then i
      else if SetsAt(Last(log), b) && Last(log).txn !in fin then |log| - 1
      else -1
  }

  /** What recovery leaves at `b`: redo everything, then undo unfinished SETs last to first,
      so the first unfinished SET has the final word. */
  function Recovered(v: Byte, log: seq<Record>, b: nat): Byte {
    var i := FirstOpen(log, Finished(log), b);
    if i >= 0 then OldAt(log[i], b) else Redo(v, log, b)
  }

  /** Indices of the SETs of `txn` at or after `from` that the backward scan of an abort still
      has to compensate: a SET is pushed, a CLR that undoes the top pops it. */
  function UndoStack(log: seq<Record>, txn: nat, from: nat): (stack: seq<nat>)
    ensures forall k :: 0 <= k < |stack| ==> from <= stack[k] < |log| && log[stack[k]].Set? && log[stack[k]].txn == txn
  {
    if |log| <= from then []
    else
      var stack := UndoStack(Init(log), txn, from);
      var r := Last(log);
      if r.txn != txn then stack
      else if r.Set? then stack + [|log| - 1]
      else if r.Clr? && stack != [] && r.undoLsn == log[stack[|stack| - 1]].lsn then stack[..|stack| - 1]
      else stack
  }

  /** The CLR for a SET: it restores the old value over the whole range. */
  function Compensation(r: Record, lsn: nat): Record
    requires r.Set?
  {
    Clr(lsn, r.txn, r.lsn, r.loc, r.len, r.oldVal)
  }

  predicate HasClr(log: seq<Record>, txn: nat) {
    exists i :: 0 <= i < |log| && log[i].Clr? && log[i].txn == txn
  }

  /** Only `txn` may have unfinished SETs at `b`. */
  predicate ExclusiveAt(log: seq<Record>, txn: nat, b: nat) {
    forall i :: 0 <= i < |log| && SetsAt(log[i], b) && log[i].txn !in Finished(log) ==> log[i].txn == txn
  }

  /** What the old value of a SET has to record when it is made after `pre`. */
  ghost predicate RecordsOldValue(base: Image, pre: seq<Record>, r: Record)
    requires r.Set?
  {
    forall b {:trigger Covers(r, b)} :: Covers(r, b) ==> OldAt(r, b) == Redo(base(b), pre, b)
  }

  /** The CLRs that undo the SETs at `indices`, last one first, numbered from `lsn` on. */
  function Compensations(log: seq<Record>, indices: seq<nat>, lsn: nat): (clrs: seq<Record>)
    requires forall k :: 0 <= k < |indices| ==> indices[k] < |log| && log[indices[k]].Set?
    ensures |clrs| == |indices|
    decreases indices
  {
    if indices == [] then []
    else
      var n := |indices| - 1;
      [Compensation(log[indices[n]], lsn)] + Compensations(log, indices[..n], lsn + 1)
  }

  /** Indices of the SETs of transactions outside `fin`. */
  function OpenSets(log: seq<Record>, fin: set<nat>): (indices: seq<nat>)
    ensures forall k :: 0 <= k < |indices| ==> indices[k] < |log| && log[indices[k]].Set? && log[indices[k]].txn !in fin
  {
    if log == [] then []
    else OpenSets(Init(log), fin) + (if Last(log).Set? && Last(log).txn !in fin then [|log| - 1] else [])
  }

  /** Undoing the stacked SETs, last one first, over a byte that is now `v`. */
  function Unwound(v: Byte, log: seq<Record>, stack: seq<nat>, b: nat): Byte
    requires forall k :: 0 <= k < |stack| ==> stack[k] < |log| && log[stack[k]].Set?
    decreases stack
  {
    if stack == [] then v
    else
      var r := log[stack[|stack| - 1]];
      Unwound(if Covers(r, b) then OldAt(r, b) else v, log, stack[..|stack| - 1], b)
  }

  /** When `r` may follow `pre` over the image `base`. The interesting clauses: a SET saves what
      it overwrites and never touches bytes another open transaction has set; a CLR undoes the
      last SET that is not undone yet; COMMIT comes before any CLR, ABORT_END after the last. */
  ghost predicate MayFollow(base: Image, pre: seq<Record>, r: Record) {
    match r
    case Set(_, txn, loc, len, _, _) =>
      && txn !in Finished(pre)
      && RecordsOldValue(base, pre, r)
      && forall b {:trigger Covers(r, b)} :: Covers(r, b) ==> ExclusiveAt(pre, txn, b)
    case Clr(lsn, txn, _, _, _, _) =>
      && txn !in Finished(pre)
      && var stack := UndoStack(pre, txn, 0);
         stack != [] && r == Compensation(pre[stack[|stack| - 1]], lsn)
    case Control(_, txn, kind) =>
      && (kind == COMMIT ==> txn !in Finished(pre) && !HasClr(pre, txn))
      && (kind == ABORT_END ==> UndoStack(pre, txn, 0) == [] || txn in Finished(pre))
  }

  /** A log that transactions obeying the discipline can have produced over `base`. */
  ghost predicate WellFormed(base: Image, log: seq<Record>) {
    log == [] || (WellFormed(base, Init(log)) && MayFollow(base, Init(log), Last(log)))
  }
}
