/** When a file loses nothing: a condition on its state, exact over everything that its writer and the rest of
    an Append or Close may still do, and the conditions on the steps that decide it. */
module FileLoss {
  import opened Arith
  import opened CacheRecord
  import opened Layout
  import opened FileSpec
  import opened FileRuns
  import opened FileReads

  /** The writer is in its drain loop, or will enter it. */
  predicate Awake(s: FileState) {
    s.pc.Draining? || (s.pc.Waiting? && s.sem > 0)
  }

  /** A file that takes no more records: past its loop the writer has written all; in the loop or on its way there
      it is sent to the last buffer, and not to be sent further; else what is still to come sends it there. */
  ghost predicate Intact(s: FileState) {
    && !s.cut
    && (s.eof && s.buffered ==>
          if PastLoop(s) then s.disk == s.Stream()
          else
            && s.w > 0
            && var last := NumBufs(|s.Stream()|, s.w);
               if Awake(s) then s.woff == last && !s.stage.Sealing?
               else (s.stage.Testing? && !s.running) || s.stage.Posting? || s.stage.Sealing? ==> s.woff + 1 == last)
  }

  /** The writer has exited without all of the file, or was sent past the last buffer. */
  ghost predicate Spoilt(s: FileState) {
    (s.pc.Exited? && s.disk != s.Stream()) || SentTooFar(s)
  }

  /** Steps of the writer, and of an Append or Close under way. */
  ghost predicate Going(ops: seq<FileOp>) {
    forall i :: 0 <= i < |ops| ==> WriterOp(ops[i]) || PendingOp(ops[i])
  }

  /** It may come to that. */
  ghost predicate MaySpoil(s: FileState) {
    exists ops :: Going(ops) && CanRun(s, ops) && Spoilt(Run(s, ops))
  }

  // ---------- Intact files stay intact ----------

  /** A writer that leaves its loop at the last buffer has written all. */
  lemma LeavesWhole(s: FileState)
    requires s.w > 0 && BufferInv(s) && s.doff >= s.woff == NumBufs(|s.Stream()|, s.w)
    ensures s.disk == s.Stream()
  {
    NumBufsBounds(|s.Stream()|, s.w);
    assert s.Stream()[..|s.Stream()|] == s.Stream();
  }

  /** Only two steps decide over the tail of a file: the one that sets eof, and the first of Close. */
  lemma StepIntact(s: FileState, op: FileOp)
    requires FileInv(s) && Intact(s) && Enabled(s, op) && !op.SetEof? && !op.Seal?
    ensures Intact(Apply(s, op))
  {
    if op.Leave? && s.eof && s.buffered {
      LeavesWhole(s);
    }
    hide EncodeAll, NumBufs, Segment, Serialize, Full;
  }

  lemma IntactNotSpoilt(s: FileState)
    requires FileInv(s) && Intact(s) && s.eof && s.buffered
    ensures !Spoilt(s)
  {
  }

  lemma {:induction false} RunStaysIntact(s: FileState, ops: seq<FileOp>)
    requires FileInv(s) && Intact(s) && s.eof && Going(ops) && CanRun(s, ops)
    ensures var t := Run(s, ops); FileInv(t) && Intact(t) && t.eof && t.buffered == s.buffered && t.recs == s.recs
    decreases |ops|
  {
    hide EncodeAll, Intact;
    if ops != [] {
      ApplyKeepsInv(s, ops[0]);
      NoSetEof(s, ops[0]);
      StepIntact(s, ops[0]);
      RunStaysIntact(Apply(s, ops[0]), ops[1..]);
    }
  }

  /** Once eof is set it is not set again by these steps, and no record comes in. */
  lemma NoSetEof(s: FileState, op: FileOp)
    requires FileInv(s) && s.eof && Enabled(s, op) && (WriterOp(op) || PendingOp(op))
    ensures !op.SetEof? && Apply(s, op).eof && Apply(s, op).buffered == s.buffered && Apply(s, op).recs == s.recs
  {
    hide EncodeAll, NumBufs, Segment;
  }

  // ---------- Files that are not may be spoilt ----------

  /** Left to itself the writer ends with exactly FinalDisk, or behind the last buffer. */
  lemma {:induction false} WriterFinishes(s: FileState) returns (ops: seq<FileOp>)
    requires s.buffered && s.w > 0 && FileInv(s) && s.eof && (PastLoop(s) || Awake(s))
    ensures OnlyWriter(ops) && CanRun(s, ops) && Run(s, ops).recs == s.recs
    ensures var t := Run(s, ops); if Overrun(s) then SentTooFar(t) else t.pc.Exited? && t.disk == FinalDisk(s)
    decreases s.woff - s.doff + WriterRank(s)
  {
    if s.pc.Exited? || SentTooFar(s) {
      ops := [];
    } else {
      var op := NextWriterOp(s);
      ApplyKeepsInv(s, op);
      WriterStepKeepsFinalDisk(s, op);
      StepKeepsOverrun(s, op);
      hide FileInv, FinalDisk, Overrun, SentTooFar;
      var rest := WriterFinishes(Apply(s, op));
      RunFirst(s, op, rest);
      ops := [op] + rest;
    }
  }

  lemma NextWriterOp(s: FileState) returns (op: FileOp)
    requires s.buffered && s.w > 0 && FileInv(s) && s.eof && !s.pc.Exited? && !SentTooFar(s)
    requires PastLoop(s) || Awake(s)
    ensures WriterOp(op) && Enabled(s, op)
    ensures var t := Apply(s, op); t.buffered && t.w == s.w && t.eof && t.recs == s.recs && (PastLoop(t) || Awake(t))
    ensures var t := Apply(s, op); t.woff - t.doff + WriterRank(t) < s.woff - s.doff + WriterRank(s)
  {
    match s.pc
    case Waiting => op := Wake;
    case Draining => op := if s.doff >= s.woff then Leave else Flush;
    case Leaving => op := Finish;
    case Checking => op := Check;
    hide EncodeAll, NumBufs, Segment;
  }

  lemma StepKeepsOverrun(s: FileState, op: FileOp)
    requires s.buffered && s.w > 0 && FileInv(s) && s.eof && Enabled(s, op) && WriterOp(op)
    ensures Overrun(Apply(s, op)) <==> Overrun(s)
  {
    hide EncodeAll, NumBufs, Segment;
  }

  lemma GoingCons(op: FileOp, ops: seq<FileOp>)
    requires (WriterOp(op) || PendingOp(op)) && Going(ops)
    ensures Going([op] + ops)
  {
  }

  lemma OnlyWriterGoing(ops: seq<FileOp>)
    requires OnlyWriter(ops)
    ensures Going(ops)
  {
  }

  /** With the writer past its loop or on its way through it, its own steps will do. */
  lemma SpoilsNow(s: FileState) returns (ops: seq<FileOp>)
    requires s.buffered && s.w > 0 && FileInv(s) && s.eof && !s.cut && (PastLoop(s) || Awake(s))
    requires if PastLoop(s) then s.disk != s.Stream() else s.woff != NumBufs(|s.Stream()|, s.w)
    ensures Going(ops) && CanRun(s, ops) && Spoilt(Run(s, ops))
  {
    ops := WriterFinishes(s);
    OnlyWriterGoing(ops);
    if !PastLoop(s) && !Overrun(s) {
      CutAt(s.Stream(), s.w, s.woff);
    }
    hide EncodeAll, Run, CanRun, FileInv;
  }

  /** The step of Append or Close that comes next brings the writer there. */
  lemma PendingNext(s: FileState) returns (op: FileOp)
    requires s.buffered && s.w > 0 && FileInv(s) && s.eof && !s.cut && !Intact(s) && !PastLoop(s)
    requires Awake(s) ==> s.woff == NumBufs(|s.Stream()|, s.w)
    ensures PendingOp(op) && Enabled(s, op)
    ensures var t := Apply(s, op);
      && t.buffered && t.w == s.w && t.eof && !t.cut && t.recs == s.recs && !Intact(t) && !PastLoop(t)
      && (if s.stage.Testing? then t.stage.Posting? else Awake(t) && t.woff != NumBufs(|t.Stream()|, t.w))
  {
    op := if s.stage.Testing? then Test else if s.stage.Posting? then Post else Raise;
    hide EncodeAll, NumBufs, Segment;
  }

  lemma {:induction false} Spoils(s: FileState) returns (ops: seq<FileOp>)
    requires s.buffered && FileInv(s) && s.eof && !s.cut && !Intact(s)
    ensures Going(ops) && CanRun(s, ops) && Spoilt(Run(s, ops))
    decreases !Awake(s), s.stage.Testing?
  {
    hide EncodeAll, NumBufs, Run, CanRun, BufferInv, WriterInv, Going;
    assert s.w > 0;
    if PastLoop(s) || (Awake(s) && s.woff != NumBufs(|s.Stream()|, s.w)) {
      ops := SpoilsNow(s);
    } else {
      var op := PendingNext(s);
      ApplyKeepsInv(s, op);
      hide Intact, FileInv;
      var t := Apply(s, op);
      var rest;
      if s.stage.Testing? {
        rest := Spoils(t);
      } else {
        rest := SpoilsNow(t);
      }
      RunFirst(s, op, rest);
      GoingCons(op, rest);
      ops := [op] + rest;
    }
  }

  /** The condition is exact: a file that takes no more records is intact just if none of what may still happen
      to it, in any order, leaves it spoilt. */
  lemma IntactIsExact(s: FileState)
    requires FileInv(s) && s.buffered && s.eof && !s.cut
    ensures Intact(s) <==> !MaySpoil(s)
  {
    hide FileInv, Intact, Spoilt, Going, Run, CanRun;
    if Intact(s) {
      forall ops | Going(ops) && CanRun(s, ops)
        ensures !Spoilt(Run(s, ops))
      {
        RunStaysIntact(s, ops);
        IntactNotSpoilt(Run(s, ops));
      }
    } else {
      var ops := Spoils(s);
    }
  }

  /** A file whose writer exits without all of it has lost at least its last record: reading that fails. */
  lemma SpoiltLoses(crc: Checksum, s: FileState)
    requires FileInv(s) && RecordsSound(crc, s.recs, s.cut) && s.pc.Exited? && s.disk != s.Stream()
    requires s.buffered && s.eof
    ensures s.recs != []
    ensures var lba := Address(s.id, s.recs, |s.recs| - 1);
      lba.off + lba.size <= |s.Stream()| && Read(crc, s, lba) == None
  {
    DiskIsPrefix(s);
    hide RecordsSound, FileInv, Serialize, Read;
    var last := |s.recs| - 1;
    ReadIssued(crc, s, last);
    OffsetStep(s.recs, last);
    assert s.recs[..|s.recs|] == s.recs;
  }

  // ---------- The steps that decide ----------

  /** The step that sets eof. Past its loop the writer must have written all; in the loop or on its way there, the
      file must end on a buffer boundary; else it must not, unless the flag is set (and nobody will be woken). */
  ghost predicate SetsEofSafely(s: FileState)
    requires s.w > 0
  {
    s.buffered && |s.Stream()| >= s.maxSize ==>
      if PastLoop(s) then s.disk == s.Stream()
      else if Awake(s) then |s.Stream()| % s.w == 0
      else s.running || |s.Stream()| % s.w != 0
  }

  lemma SetEofIntact(s: FileState)
    requires FileInv(s) && Enabled(s, SetEof)
    ensures Intact(Apply(s, SetEof)) <==> SetsEofSafely(s)
  {
  }

  /** The first step of Close: the writer is at rest, and one more buffer is the last; or it is past its loop,
      and has written all. */
  ghost predicate SealsSafely(s: FileState) {
    s.buffered ==>
      if PastLoop(s) then s.disk == s.Stream()
      else !Awake(s) && s.w > 0 && s.woff + 1 == NumBufs(|s.Stream()|, s.w)
  }

  lemma SealIntact(s: FileState)
    requires FileInv(s) && Enabled(s, Seal) && !s.cut
    ensures Intact(Apply(s, Seal)) <==> SealsSafely(s)
  {
  }

  /** The same for an append that is not disturbed. */
  predicate FillsSafely(s: FileState, r: Record)
    requires s.buffered ==> s.w > 0
  {
    s.buffered && Append(s, r).eof ==>
      var boundary := |Append(s, r).Stream()| % s.w == 0;
      !PastLoop(s) && if Awake(s) then boundary else s.running || !boundary
  }

  lemma AppendIntact(s: FileState, r: Record)
    requires FileInv(s) && Enabled(s, Put(r))
    ensures Intact(Append(s, r)) <==> FillsSafely(s, r)
  {
    hide EncodeAll, Serialize;
    AppendKeepsInv(s, r);
    if s.buffered && Append(s, r).eof {
      EofAppendState(s, r);
    }
  }

  // ---------- From buffers to file ----------

  /** The move from buffers to file is invisible: once the writer of an intact file has exited, every issued address
      yields from the file the very bytes it yielded from the buffers. */
  lemma SwitchIsInvisible(s: FileState, ops: seq<FileOp>, i: nat)
    requires s.buffered && FileInv(s) && Intact(s) && s.eof && !s.Closed()
    requires Going(ops) && CanRun(s, ops) && Run(s, ops).pc.Exited?
    requires i < |s.recs|
    ensures var t := Run(s, ops);
      && t.Closed() && t.Drained() && t.recs == s.recs
      && var lba := Address(s.id, s.recs, i);
      && lba.off + lba.size <= |s.Stream()| == |t.Stream()|
      && ReadBytes(t, lba) == ReadBytes(s, lba) == Serialize(s.recs[i])
  {
    hide EncodeAll, Serialize, FileInv, Run, CanRun, Going;
    RunStaysIntact(s, ops);
    SliceAt(s.recs, i);
  }

  /** Until the writer of an intact file has exited, with all of it on flash, there is a step to take; or it is one
      that was forgotten. */
  lemma IntactGoesOn(s: FileState)
    requires FileInv(s) && Intact(s) && s.buffered && s.eof
    ensures
      || (s.pc.Exited? && s.disk == s.Stream())
      || (exists op :: (WriterOp(op) || PendingOp(op)) && Enabled(s, op))
      || Stalled(s)
  {
    if !s.pc.Exited? {
      WriterNeverStuck(s);
      if !s.stage.Idle? {
        var op := PendingOf(s);
        assert PendingOp(op) && Enabled(s, op);
      }
    }
  }

  function PendingOf(s: FileState): FileOp {
    match s.stage
    case Testing => Test
    case Posting => Post
    case Flagging => Flag
    case _ => Raise
  }
}
