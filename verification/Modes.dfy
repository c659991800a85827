/** Write-buffer mode and direct mode agree. */
module Modes {
  import opened Arith
  import opened Bytes
  import opened CacheRecord
  import opened Layout
  import opened FileSpec
  import opened FlashSpec
  import opened FlashRefinement
  import opened FlashRuns

  /** Whether a file is full, or will be once the append under way has set eof. */
  predicate Fills(s: FileState) {
    if s.stage.Putting? then |s.Stream()| >= s.maxSize else s.eof
  }

  /** A directly written file and a buffered one that took the same records. */
  ghost predicate SameFile(d: FileState, b: FileState) {
    && !d.buffered && b.buffered && !d.cut && !b.cut
    && d.id == b.id && d.maxSize == b.maxSize && d.recs == b.recs
    && d.stage.Idle? && d.eof == Fills(b)
  }

  ghost predicate SameFlash(d: Flash, b: Flash) {
    && !d.cfg.buffered && b.cfg.buffered && d.cfg.fileSize == b.cfg.fileSize
    && d.index == b.index && d.size == b.size && d.nextId == b.nextId && d.cur == b.cur
    && d.files.order == b.files.order && d.files.items.Keys == b.files.items.Keys
    && forall id :: id in d.files.items ==> SameFile(d.files.items[id], b.files.items[id])
  }

  /** The two ways of appending fill the file at the same record. */
  lemma TakenSame(d: FileState, b: FileState, r: Record, whole: bool)
    requires SameFile(d, b) && FileInv(d) && !d.eof && b.w > 0 && b.stage.Idle?
    ensures SameFile(Taken(d, r, whole), Taken(b, r, whole))
  {
    EncodeSnoc(d.recs, r);
    hide EncodeAll, Serialize;
  }

  lemma RolledSame(d: Flash, b: Flash)
    requires SameFlash(d, b) && d.cur in d.files.items && CurIdle(b)
    ensures SameFlash(Rolled(d), Rolled(b)) && CurIdle(d)
  {
  }

  lemma InsertSame(crc: Checksum, d: Flash, b: Flash, key: Text, val: Text, whole: bool)
    requires FlashInv(crc, d) && FlashInv(crc, b) && SameFlash(d, b) && Storable(key, val) && CurIdle(b)
    ensures SameFlash(Insert(d, crc, key, val, whole), Insert(b, crc, key, val, whole)) && CurIdle(d)
  {
    hide NulFree, MakeRecord, StoreInv, SameFile, Contents, Append, Rolled, InsertRecord;
    RolledSame(d, b);
    RolledIsOpen(crc, d);
    RolledIsOpen(crc, b);
    OpenHasBuffers(crc, Rolled(b));
    CurBuffered(crc, Rolled(b));
    PutSame(crc, Rolled(d), Rolled(b), MakeRecord(crc, key, val), whole);
  }

  lemma CurBuffered(crc: Checksum, b: Flash)
    requires FlashInv(crc, b) && b.cfg.buffered
    ensures b.files.items[b.cur].buffered
  {
  }

  lemma CurInv(crc: Checksum, d: Flash)
    requires FlashInv(crc, d)
    ensures FileInv(d.files.items[d.cur])
  {
  }

  lemma SetFileSame(d: Flash, b: Flash, id: nat, s: FileState, t: FileState)
    requires SameFlash(d, b) && id in d.files.items && SameFile(s, t)
    ensures SameFlash(SetFile(d, id, s), SetFile(b, id, t))
  {
    hide SameFile;
  }

  lemma PutSame(crc: Checksum, d: Flash, b: Flash, r: Record, whole: bool)
    requires FlashInv(crc, d) && SameFlash(d, b) && !d.files.items[d.cur].eof && b.files.items[b.cur].w > 0
    requires CurIdle(b)
    ensures SameFlash(InsertRecord(d, r, whole), InsertRecord(b, r, whole))
  {
    hide StoreInv, Taken, Address, EncodeAll;
    var s, t := d.files.items[d.cur], b.files.items[b.cur];
    CurInv(crc, d);
    TakenSame(s, t, r, whole);
    SetFileSame(d, b, d.cur, Taken(s, r, whole), Taken(t, r, whole));
  }

  /** The operations a client sees; the steps of a file exist in write-buffer mode only. */
  predicate Comparable(op: FlashOp) {
    op.OpInsert? || op.OpLookup? || op.OpDelete? || (op.OpFile? && (WriterOp(op.op) || PendingOp(op.op)))
  }

  function WithoutWriters(ops: seq<FlashOp>): seq<FlashOp> {
    if ops == [] then [] else (if ops[0].OpFile? then [] else [ops[0]]) + WithoutWriters(ops[1..])
  }

  lemma StepFills(s: FileState, op: FileOp)
    requires Enabled(s, op) && (WriterOp(op) || PendingOp(op))
    ensures var t := Apply(s, op);
      && t.buffered == s.buffered && t.cut == s.cut && t.id == s.id && t.maxSize == s.maxSize && t.recs == s.recs
      && Fills(t) == Fills(s)
  {
    hide EncodeAll, NumBufs, Segment;
  }

  lemma FileStepSame(d: Flash, b: Flash, id: nat, op: FileOp)
    requires SameFlash(d, b) && id in b.files.items && Enabled(b.files.items[id], op) && (WriterOp(op) || PendingOp(op))
    ensures SameFlash(d, FileStep(b, id, op))
  {
    StepFills(b.files.items[id], op);
    hide EncodeAll, NumBufs, Segment, Fills, Apply;
  }

  lemma StepSame(crc: Checksum, d: Flash, b: Flash, op: FlashOp)
    requires FlashInv(crc, d) && FlashInv(crc, b) && SameFlash(d, b) && CanStep(b, op) && Comparable(op)
    ensures if op.OpFile? then SameFlash(d, StepFlash(crc, b, op))
            else CanStep(d, op) && SameFlash(StepFlash(crc, d, op), StepFlash(crc, b, op))
  {
    hide StoreInv;
    match op
    case OpInsert(key, val, whole) => InsertSame(crc, d, b, key, val, whole);
    case OpLookup(key) =>
    case OpDelete(key) =>
    case OpFile(id, step) => FileStepSame(d, b, id, step);
  }

  /** For the same client operations, with the steps of the buffered cache's files interleaved in any
      way, both modes issue the same addresses, roll files over at the same records, and hold the
      same index. */
  lemma {:induction false} RunSame(crc: Checksum, d: Flash, b: Flash, ops: seq<FlashOp>)
    requires FlashInv(crc, d) && FlashInv(crc, b) && SameFlash(d, b) && CanRunFlash(crc, b, ops)
    requires forall i :: 0 <= i < |ops| ==> Comparable(ops[i])
    ensures CanRunFlash(crc, d, WithoutWriters(ops))
    ensures SameFlash(RunFlash(crc, d, WithoutWriters(ops)), RunFlash(crc, b, ops))
    decreases |ops|
  {
    hide FlashInv, SameFlash, CanStep, StepFlash;
    if ops != [] {
      StepSame(crc, d, b, ops[0]);
      StepRefines(crc, b, ops[0]);
      var rest := WithoutWriters(ops[1..]);
      if ops[0].OpFile? {
        RunSame(crc, d, StepFlash(crc, b, ops[0]), ops[1..]);
        assert WithoutWriters(ops) == rest;
      } else {
        StepRefines(crc, d, ops[0]);
        RunSame(crc, StepFlash(crc, d, ops[0]), StepFlash(crc, b, ops[0]), ops[1..]);
        assert WithoutWriters(ops) == [ops[0]] + rest && WithoutWriters(ops)[1..] == rest;
      }
    }
  }

  /** From empty directories the two modes leave byte-identical files, wherever the buffered one is drained. */
  lemma ModesAgree(crc: Checksum, direct: Config, buffered: Config, ops: seq<FlashOp>, id: nat)
    requires !direct.buffered && buffered.buffered && buffered.w > 0 && direct.fileSize == buffered.fileSize
    requires (StartInv(crc, buffered); CanRunFlash(crc, StartFlash(buffered), ops))
    requires forall i :: 0 <= i < |ops| ==> Comparable(ops[i])
    ensures (StartInv(crc, direct); StartInv(crc, buffered);
      && CanRunFlash(crc, StartFlash(direct), WithoutWriters(ops))
      && var d, b := RunFlash(crc, StartFlash(direct), WithoutWriters(ops)), RunFlash(crc, StartFlash(buffered), ops);
      && d.index == b.index && d.files.items.Keys == b.files.items.Keys
      && (id in d.files.items ==> d.files.items[id].recs == b.files.items[id].recs)
      && (id in d.files.items && b.files.items[id].Drained() ==> d.files.items[id].disk == b.files.items[id].disk))
  {
    hide FlashInv, CanRunFlash, RunFlash, Contents, SizeExact, CanStep;
    StartInv(crc, direct);
    StartInv(crc, buffered);
    StartSame(direct, buffered);
    hide StartFlash;
    RunSame(crc, StartFlash(direct), StartFlash(buffered), ops);
    var d := RunFlash(crc, StartFlash(direct), WithoutWriters(ops));
    RunRefines(crc, StartFlash(direct), WithoutWriters(ops));
    if id in d.files.items {
      SameNotCut(d, RunFlash(crc, StartFlash(buffered), ops), id);
      DirectIsOnDisk(crc, d, id);
    }
  }

  lemma SameNotCut(d: Flash, b: Flash, id: nat)
    requires SameFlash(d, b) && id in d.files.items
    ensures !d.files.items[id].cut
  {
  }

  lemma StartSame(direct: Config, buffered: Config)
    requires !direct.buffered && buffered.buffered && direct.fileSize == buffered.fileSize
    ensures SameFlash(StartFlash(direct), StartFlash(buffered))
  {
  }

  lemma DirectIsOnDisk(crc: Checksum, d: Flash, id: nat)
    requires FlashInv(crc, d) && !d.cfg.buffered && id in d.files.items && !d.files.items[id].cut
    ensures d.files.items[id].disk == d.files.items[id].Stream()
  {
  }
}
