/** DispatchBuffer posts the semaphore before it sets is_writer_running, and holds no lock that the
    writer takes. What may come of the moment in between. (What holds all the same is in FileRuns.) */
module DispatchRace {
  import opened Arith
  import opened Layout
  import opened FileSpec
  import opened FileRuns
  import opened FileLoss

  /** Posted to, and not through with it: the writer will clear the flag once more. */
  predicate BeforeFinish(s: FileState) {
    !s.eof && if s.sem == 0 then s.pc.Draining? || s.pc.Leaving? else s.sem == 1 && (s.pc.Waiting? || s.pc.Checking?)
  }

  /** Through with it: the writer will wait for the next post. */
  predicate AfterFinish(s: FileState) {
    !s.eof && s.sem == 0 && (s.pc.Waiting? || s.pc.Checking?)
  }

  lemma {:induction false} WriterTrack(s: FileState, ops: seq<FileOp>)
    requires (BeforeFinish(s) || AfterFinish(s)) && CanRun(s, ops) && OnlyWriter(ops)
    ensures var t := Run(s, ops);
      && (if AfterFinish(s) || Finish in ops then AfterFinish(t) else BeforeFinish(t))
      && (AfterFinish(s) ==> t.running == s.running)
      && (BeforeFinish(s) && Finish in ops ==> !t.running)
    decreases |ops|
  {
    hide EncodeAll, Segment, NumBufs;
    if ops != [] {
      WriterTrack(Apply(s, ops[0]), ops[1..]);
      assert ops == [ops[0]] + ops[1..];
    }
  }

  /** With the flag set only now, the writer takes the steps ops between post and flag. */
  ghost function RacedFlag(s: FileState, ops: seq<FileOp>): FileState
    requires FileInv(s) && s.stage.Posting? && CanRun(Apply(s, Post), ops) && OnlyWriter(ops)
  {
    StageStays(Apply(s, Post), ops);
    Apply(Run(Apply(s, Post), ops), Flag)
  }

  lemma {:induction false} StageStays(s: FileState, ops: seq<FileOp>)
    requires CanRun(s, ops) && OnlyWriter(ops)
    ensures Run(s, ops).stage == s.stage && Run(s, ops).eof == s.eof
    decreases |ops|
  {
    hide EncodeAll, Segment, NumBufs;
    if ops != [] {
      StageStays(Apply(s, ops[0]), ops[1..]);
    }
  }

  /** It comes to a stall. */
  ghost predicate WillStall(s: FileState) {
    exists more :: OnlyWriter(more) && CanRun(s, more) && Stalled(Run(s, more))
  }

  lemma PostedWriter(s: FileState)
    requires FileInv(s) && s.stage.Posting? && !s.eof
    ensures BeforeFinish(Apply(s, Post)) && !s.running
  {
  }

  /** A writer that is through when the flag is set has at most its test of eof_ to go. */
  lemma ThroughStalls(s: FileState)
    requires AfterFinish(s) && s.running
    ensures WillStall(s)
  {
    hide EncodeAll, Segment, NumBufs, Run, CanRun;
    var more: seq<FileOp> := [];
    RunNone(s);
    if s.pc.Checking? {
      RunNone(Apply(s, Check));
      RunFirst(s, Check, []);
      more := [Check] + [];
      assert OnlyWriter(more) by { JustCheck(); }
    }
    assert OnlyWriter(more) && CanRun(s, more) && Stalled(Run(s, more));
  }

  lemma JustCheck()
    ensures OnlyWriter([Check] + [])
  {
  }

  lemma NotThroughGoesOn(s: FileState)
    requires BeforeFinish(s)
    ensures !WillStall(s)
  {
    hide Run, CanRun, OnlyWriter;
    forall more | OnlyWriter(more) && CanRun(s, more)
      ensures !Stalled(Run(s, more))
    {
      WriterTrack(s, more);
    }
  }

  /** A file that takes more records stalls after a dispatch, at once or as soon as its writer has tested eof_, just if
      the writer has cleared the flag before it is set. */
  lemma RaceStalls(s: FileState, ops: seq<FileOp>)
    requires FileInv(s) && s.stage.Posting? && !s.eof
    requires CanRun(Apply(s, Post), ops) && OnlyWriter(ops)
    ensures WillStall(RacedFlag(s, ops)) <==> Finish in ops
  {
    hide FileInv, Run, CanRun, OnlyWriter, WillStall;
    PostedWriter(s);
    var m := Apply(s, Post);
    WriterTrack(m, ops);
    StageStays(m, ops);
    if Finish in ops {
      ThroughStalls(RacedFlag(s, ops));
    } else {
      NotThroughGoesOn(RacedFlag(s, ops));
    }
  }

  /** Then, however much is appended, and even when the file fills up, nothing more is written before Close. */
  lemma {:induction false} StalledStays(s: FileState, ops: seq<FileOp>)
    requires s.buffered && Stalled(s) && CanRun(s, ops) && (s.stage.Idle? || s.stage.Putting? || s.stage.Testing?)
    requires forall i :: 0 <= i < |ops| ==> !ops[i].Seal?
    ensures Stalled(Run(s, ops)) && Run(s, ops).disk == s.disk && Run(s, ops).doff == s.doff
    decreases |ops|
  {
    hide EncodeAll;
    if ops != [] {
      StalledStays(Apply(s, ops[0]), ops[1..]);
    }
  }

  /** Close wakes the writer once more, and then all is written; as everywhere, it is sent too far if
      the stream ends on a buffer boundary, and only then. */
  lemma CloseRescues(s: FileState)
    requires s.buffered && s.w > 0 && BufferInv(s) && Stalled(s) && s.stage.Idle?
    ensures ClosedDisk(s) == s.Stream()
    ensures s.woff == Full(|s.Stream()|, s.w) ==> (SealsSafely(s) <==> |s.Stream()| % s.w != 0)
  {
    hide EncodeAll;
    var n := |s.Stream()|;
    DivBounds(n, s.w);
    MulSucc(n / s.w, s.w);
    MulMono(n / s.w + 1, s.woff + 1, s.w);
    assert s.Stream()[..n] == s.Stream();
  }
}
