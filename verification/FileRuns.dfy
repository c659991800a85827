/** What holds in every interleaving of appends, dispatches and writer steps on one file. */
module FileRuns {
  import opened Arith
  import opened Bytes
  import opened CacheRecord
  import opened Layout
  import opened FileSpec

  // ---------- The invariant of all runs ----------

  lemma FreshFileInv(id: nat, maxSize: nat, w: nat, buffered: bool)
    requires buffered ==> w > 0
    ensures FileInv(FreshFile(id, maxSize, w, buffered))
  {
  }

  /** A buffer index not past the first unfilled buffer lies inside the stream. */
  lemma FullBuffers(n: nat, w: nat, d: nat)
    requires w > 0 && d <= n / w
    ensures d * w <= n
  {
    DivBounds(n, w);
    MulMono(d, n / w, w);
  }

  lemma DivMono(n: nat, m: nat, w: nat)
    requires w > 0 && n <= m
    ensures n / w <= m / w
  {
    DivBounds(n, w);
    DivBounds(m, w);
    MulGap(m / w, n / w, w);
  }

  /** A record begun makes the stream longer by its bytes, and keeps the size bound. */
  lemma PutKeepsSize(s: FileState, r: Record)
    requires Enabled(s, Put(r)) && SizeInv(s) && (!s.buffered ==> s.disk == s.Stream())
    ensures var t := Apply(s, Put(r)); SizeInv(t) && t.Stream() == s.Stream() + Serialize(r) && t.recs == s.recs + [r]
  {
    EncodeSnoc(s.recs, r);
    OffsetAppend(s.recs, r, |s.recs|);
    assert s.recs[..|s.recs|] == s.recs;
  }

  lemma PutKeepsBuffers(s: FileState, r: Record)
    requires Enabled(s, Put(r)) && s.buffered && s.w > 0 && BufferInv(s)
    ensures BufferInv(Apply(s, Put(r)))
  {
    hide EncodeAll, Serialize;
    EncodeSnoc(s.recs, r);
    var n, m := |s.Stream()|, |s.Stream() + Serialize(r)|;
    FullBuffers(n, s.w, s.doff);
    DivMono(n, m, s.w);
    FullBuffers(m, s.w, s.doff);
    NumBufsBounds(m, s.w);
    assert s.Stream()[..s.doff * s.w] == (s.Stream() + Serialize(r))[..s.doff * s.w];
  }

  /** Flushing buffer doff extends the file by exactly the next piece of the stream. */
  lemma FlushExtends(s: FileState)
    requires s.w > 0 && BufferInv(s) && Enabled(s, Flush)
    ensures Apply(s, Flush).disk == s.Stream()[..Min((s.doff + 1) * s.w, |s.Stream()|)]
    ensures s.doff * s.w <= |s.Stream()|
  {
    var n := |s.Stream()|;
    NumBufsBounds(n, s.w);
    DivBounds(n, s.w);
    MulMono(s.doff, s.doff + 1, s.w);
    MulSucc(n / s.w, s.w);
    if s.doff <= n / s.w {
      MulMono(s.doff, n / s.w, s.w);
    }
    var a, b := s.doff * s.w, Min((s.doff + 1) * s.w, n);
    assert s.Stream()[..a] + s.Stream()[a..b] == s.Stream()[..b];
  }

  lemma ApplyKeepsWriter(s: FileState, op: FileOp)
    requires s.buffered && s.w > 0 && BufferInv(s) && WriterInv(s) && Enabled(s, op)
    ensures WriterInv(Apply(s, op))
  {
    hide EncodeAll, NumBufs, Segment;
  }

  lemma ApplyKeepsBuffers(s: FileState, op: FileOp)
    requires s.buffered && s.w > 0 && BufferInv(s) && WriterInv(s) && Enabled(s, op)
    ensures BufferInv(Apply(s, op))
  {
    hide EncodeAll, NumBufs, Segment;
    match op
    case Put(r) => PutKeepsBuffers(s, r);
    case Flush => FlushExtends(s);
    case _ => NumBufsBounds(|s.Stream()|, s.w);
  }

  /** Every step of appender, writer and Close keeps the invariant. */
  lemma ApplyKeepsInv(s: FileState, op: FileOp)
    requires FileInv(s) && Enabled(s, op)
    ensures FileInv(Apply(s, op))
  {
    hide EncodeAll, NumBufs, Segment, BufferInv, WriterInv;
    if !Reopened(s) {
      if op.Put? {
        PutKeepsSize(s, op.r);
      }
      if s.buffered {
        ApplyKeepsBuffers(s, op);
        ApplyKeepsWriter(s, op);
      }
    }
  }

  /** In every interleaving the invariant holds. */
  lemma {:induction false} RunKeepsInv(s: FileState, ops: seq<FileOp>)
    requires FileInv(s) && CanRun(s, ops)
    ensures FileInv(Run(s, ops))
    decreases |ops|
  {
    if ops != [] {
      ApplyKeepsInv(s, ops[0]);
      RunKeepsInv(Apply(s, ops[0]), ops[1..]);
    }
  }

  function ConcatSegments(stream: seq<byte>, w: nat, k: nat): seq<byte> {
    if k == 0 then [] else ConcatSegments(stream, w, k - 1) + Segment(stream, w, k - 1)
  }

  lemma {:induction false} ConcatSegmentsIsPrefix(stream: seq<byte>, w: nat, k: nat)
    ensures ConcatSegments(stream, w, k) == stream[..Min(k * w, |stream|)]
  {
    if k > 0 {
      ConcatSegmentsIsPrefix(stream, w, k - 1);
      MulMono(k - 1, k, w);
      var a, b := Min((k - 1) * w, |stream|), Min(k * w, |stream|);
      assert stream[..a] + stream[a..b] == stream[..b];
    }
  }

  lemma FullSegment(stream: seq<byte>, w: nat, i: nat)
    requires w > 0 && i < |stream| / w
    ensures |Segment(stream, w, i)| == w
  {
    FullBuffers(|stream|, w, i + 1);
    MulSucc(i, w);
  }

  /** After any run from a fresh buffered file, the file holds buffers [0, doff) one after
      the other, each once and in order; that is a prefix of the stream, and before
      eof only full buffers have gone out. */
  lemma FileIsWrittenPrefix(id: nat, maxSize: nat, w: nat, ops: seq<FileOp>)
    requires w > 0 && CanRun(FreshFile(id, maxSize, w, true), ops)
    ensures var t := Run(FreshFile(id, maxSize, w, true), ops);
      && t.disk == ConcatSegments(t.Stream(), w, t.doff)
      && t.disk <= t.Stream()
      && t.doff <= NumBufs(|t.Stream()|, w)
      && (!t.eof ==> forall i :: 0 <= i < t.doff ==> |Segment(t.Stream(), w, i)| == w)
  {
    var s := FreshFile(id, maxSize, w, true);
    hide Run, CanRun, ConcatSegments, Segment;
    FreshFileInv(id, maxSize, w, true);
    RunKeepsInv(s, ops);
    RunKeepsConfig(s, ops);
    var t := Run(s, ops);
    ConcatSegmentsIsPrefix(t.Stream(), w, t.doff);
    if !t.eof {
      forall i | 0 <= i < t.doff
        ensures |Segment(t.Stream(), w, i)| == w
      {
        FullSegment(t.Stream(), w, i);
      }
    }
  }

  lemma {:induction false} RunKeepsConfig(s: FileState, ops: seq<FileOp>)
    requires CanRun(s, ops)
    ensures var t := Run(s, ops);
      t.id == s.id && t.maxSize == s.maxSize && t.w == s.w && t.buffered == s.buffered
    decreases |ops|
  {
    if ops != [] {
      RunKeepsConfig(Apply(s, ops[0]), ops[1..]);
    }
  }

  /** The records of a file are those put into it, in order; nothing else touches them. */
  function Added(ops: seq<FileOp>): seq<Record> {
    if ops == [] then []
    else (if ops[0].Put? then [ops[0].r] else []) + Added(ops[1..])
  }

  lemma ApplyAdds(s: FileState, op: FileOp)
    requires Enabled(s, op)
    ensures Apply(s, op).recs == if op.Put? then s.recs + [op.r] else s.recs
  {
    hide EncodeAll;
  }

  lemma {:induction false} RunAddsInOrder(s: FileState, ops: seq<FileOp>)
    requires CanRun(s, ops)
    ensures Run(s, ops).recs == s.recs + Added(ops)
    decreases |ops|
  {
    hide Apply, Enabled;
    if ops != [] {
      ApplyAdds(s, ops[0]);
      RunAddsInOrder(Apply(s, ops[0]), ops[1..]);
    }
  }

  /** A file exceeds its maximum by less than its last record. */
  lemma FileSizeBound(id: nat, maxSize: nat, w: nat, buffered: bool, ops: seq<FileOp>)
    requires (buffered ==> w > 0) && CanRun(FreshFile(id, maxSize, w, buffered), ops)
    requires maxSize > 0
    ensures var t := Run(FreshFile(id, maxSize, w, buffered), ops);
      t.recs != [] ==> |t.Stream()| < maxSize + |Serialize(t.recs[|t.recs| - 1])|
  {
    var s := FreshFile(id, maxSize, w, buffered);
    FreshFileInv(id, maxSize, w, buffered);
    RunKeepsInv(s, ops);
    RunKeepsConfig(s, ops);
    var t := Run(s, ops);
    if t.recs != [] {
      SliceAt(t.recs, |t.recs| - 1);
      assert t.recs[..|t.recs|] == t.recs;
    }
  }

  // ---------- Append and Close as steps ----------

  lemma RunFirst(s: FileState, op: FileOp, ops: seq<FileOp>)
    requires Enabled(s, op) && CanRun(Apply(s, op), ops)
    ensures CanRun(s, [op] + ops) && Run(s, [op] + ops) == Run(Apply(s, op), ops)
  {
    hide Apply, Enabled;
    assert ([op] + ops)[1..] == ops;
  }

  lemma RunNone(s: FileState)
    ensures CanRun(s, []) && Run(s, []) == s
  {
  }

  lemma {:induction false} RunJoin(s: FileState, a: seq<FileOp>, b: seq<FileOp>)
    requires CanRun(s, a) && CanRun(Run(s, a), b)
    ensures CanRun(s, a + b) && Run(s, a + b) == Run(Run(s, a), b)
    decreases |a|
  {
    hide Apply, Enabled;
    if a == [] {
      assert a + b == b;
    } else {
      RunJoin(Apply(s, a[0]), a[1..], b);
      assert (a + b)[0] == a[0] && (a + b)[1..] == a[1..] + b;
    }
  }

  ghost predicate OnlyPending(ops: seq<FileOp>) {
    forall i :: 0 <= i < |ops| ==> PendingOp(ops[i])
  }

  lemma PendingCons(op: FileOp, ops: seq<FileOp>)
    requires PendingOp(op) && OnlyPending(ops)
    ensures OnlyPending([op] + ops)
  {
  }

  /** The state with a record in the buffers and its append finished, if nothing else runs. */
  function Settled(s: FileState): FileState
    requires s.w > 0
  {
    var n := |s.Stream()|;
    Dispatch(s.(woff := Full(n, s.w), eof := n >= s.maxSize, stage := Idle))
  }

  lemma DispatchSteps(s: FileState) returns (ops: seq<FileOp>)
    requires s.stage.Testing?
    ensures OnlyPending(ops) && CanRun(s, ops) && Run(s, ops) == Dispatch(s.(stage := Idle))
  {
    hide Run, CanRun, OnlyPending;
    var t := Apply(s, Test);
    if Posts(s) {
      var t1 := Apply(t, Post);
      RunNone(Apply(t1, Flag));
      RunFirst(t1, Flag, []);
      RunFirst(t, Post, [Flag] + []);
      ops := [Test] + ([Post] + ([Flag] + []));
      RunFirst(s, Test, [Post] + ([Flag] + []));
      assert OnlyPending(ops) by { PendingNow(ops); }
    } else {
      RunNone(t);
      RunFirst(s, Test, []);
      ops := [Test] + [];
      assert OnlyPending(ops) by { PendingNow(ops); }
    }
  }

  lemma PendingNow(ops: seq<FileOp>)
    requires ops == [Test] + ([Post] + ([Flag] + [])) || ops == [Test] + []
    ensures OnlyPending(ops)
  {
  }

  /** An append that has begun can go on to its end. */
  lemma {:induction false} PuttingGoesOn(s: FileState) returns (ops: seq<FileOp>)
    requires s.stage.Putting? && s.w > 0 && s.woff <= Full(|s.Stream()|, s.w)
    ensures OnlyPending(ops) && CanRun(s, ops) && Run(s, ops) == Settled(s)
    decreases Full(|s.Stream()|, s.w) - s.woff
  {
    hide Run, CanRun, EncodeAll, Full, OnlyPending;
    if s.woff < Full(|s.Stream()|, s.w) {
      var rest := PuttingGoesOn(Apply(s, Advance));
      RunFirst(s, Advance, rest);
      PendingCons(Advance, rest);
      ops := [Advance] + rest;
    } else {
      var rest := DispatchSteps(Apply(s, SetEof));
      RunFirst(s, SetEof, rest);
      PendingCons(SetEof, rest);
      ops := [SetEof] + rest;
    }
  }

  /** Append is its steps with nothing in between. */
  lemma AppendIsSteps(s: FileState, r: Record) returns (ops: seq<FileOp>)
    requires Enabled(s, Put(r)) && (s.buffered ==> BufferInv(s))
    ensures OnlyPending(ops) && CanRun(s, [Put(r)] + ops) && Run(s, [Put(r)] + ops) == Append(s, r)
  {
    hide EncodeAll, Serialize, Run, CanRun, OnlyPending;
    var t := Apply(s, Put(r));
    if s.buffered {
      PutKeepsBuffers(s, r);
      ops := PuttingGoesOn(t);
    } else {
      RunNone(t);
      ops := [];
      assert OnlyPending(ops) by { NonePending(); }
    }
    RunFirst(s, Put(r), ops);
  }

  lemma NonePending()
    ensures OnlyPending([])
  {
  }

  /** The size of the stream after an append, and the invariant. */
  lemma AppendKeepsInv(s: FileState, r: Record)
    requires FileInv(s) && Enabled(s, Put(r))
    ensures FileInv(Append(s, r)) && Append(s, r).stage.Idle?
    ensures Append(s, r).Stream() == s.Stream() + Serialize(r) && Append(s, r).recs == s.recs + [r]
  {
    EncodeSnoc(s.recs, r);
    var ops := AppendIsSteps(s, r);
    RunKeepsInv(s, [Put(r)] + ops);
    hide EncodeAll, Serialize, FileInv, Run, CanRun;
  }

  /** Close up to its join is its steps with nothing in between. */
  lemma ClosingIsSteps(s: FileState)
    requires s.stage.Idle?
    ensures CanRun(s, [Seal] + ([Raise] + [])) && Run(s, [Seal] + ([Raise] + [])) == Closing(s)
    ensures FileInv(s) ==> FileInv(Closing(s))
  {
    var t := Apply(s, Seal);
    hide Run, CanRun, FileInv;
    RunNone(Apply(t, Raise));
    RunFirst(t, Raise, []);
    RunFirst(s, Seal, [Raise] + []);
    if FileInv(s) {
      ApplyKeepsInv(s, Seal);
      ApplyKeepsInv(t, Raise);
    }
  }

  // ---------- When the writer is woken ----------

  /** More whole buffers than have been written. */
  lemma MoreFullBuffers(n: nat, w: nat, d: nat)
    requires w > 0
    ensures d < n / w <==> d * w + w <= n
  {
    DivBounds(n, w);
    MulGap(d, n / w, w);
    MulGap(n / w, d, w);
  }

  /** A dispatch wakes the writer exactly when its flag is not set, and the file is full or a whole buffer
      more than is on flash has been appended. Here the test, in the state that it meets. */
  lemma DispatchTest(s: FileState)
    requires s.buffered && s.w > 0 && BufferInv(s) && (s.stage.Testing? || (s.stage.Idle? && !s.eof))
    ensures Posts(s) <==> !s.running && (s.eof || |s.disk| + s.w <= |s.Stream()|)
  {
    hide EncodeAll, NumBufs;
    var n := |s.Stream()|;
    MoreFullBuffers(n, s.w, s.doff);
    FullBuffers(n, s.w, s.doff);
  }

  /** What an undisturbed append does to the writer, told by the bytes appended and the bytes on flash. */
  lemma AppendWakes(s: FileState, r: Record)
    requires s.buffered && FileInv(s) && Enabled(s, Put(r))
    ensures var t := Append(s, r); var n := |t.Stream()|;
      var wakes := !s.running && (n >= s.maxSize || |s.disk| + s.w <= n);
      && t.eof == (n >= s.maxSize)
      && t.sem == s.sem + (if wakes then 1 else 0) && t.running == (s.running || wakes)
      && (t.woff - if wakes && t.eof then 1 else 0) * s.w <= n
      && n < (t.woff + if wakes && t.eof then 0 else 1) * s.w
      && t.disk == s.disk && t.doff == s.doff && t.pc == s.pc && n == |s.Stream()| + |Serialize(r)|
  {
    hide EncodeAll, Serialize, Full, BufferInv, SizeInv, WriterInv;
    EncodeSnoc(s.recs, r);
    var n := |EncodeAll(s.recs + [r])|;
    FullBounds(n, s.w);
    AppendTest(s, n);
  }

  lemma FullBounds(n: nat, w: nat)
    requires w > 0
    ensures Full(n, w) * w <= n < (Full(n, w) + 1) * w
  {
    DivBounds(n, w);
    MulSucc(n / w, w);
  }

  lemma AppendTest(s: FileState, n: nat)
    requires s.w > 0 && BufferInv(s) && !s.eof && s.stage.Idle? && |s.Stream()| <= n
    ensures s.doff != Full(n, s.w) <==> |s.disk| + s.w <= n
  {
    hide EncodeAll, NumBufs;
    var m := |s.Stream()|;
    FullBuffers(m, s.w, s.doff);
    DivMono(m, n, s.w);
    MoreFullBuffers(n, s.w, s.doff);
  }

  /** Before eof, a post is made, and stands, only for a writer that has a whole buffer to write. */
  ghost predicate WokenForWork(s: FileState) {
    !s.eof && (s.stage.Posting? || s.sem > 0) ==> s.doff < s.woff
  }

  lemma ApplyKeepsWoken(s: FileState, op: FileOp)
    requires s.buffered && s.w > 0 && BufferInv(s) && WriterInv(s) && Enabled(s, op) && WokenForWork(s)
    ensures WokenForWork(Apply(s, op))
  {
    hide EncodeAll, NumBufs, Segment;
  }

  lemma StillWritten(s: FileState, op: FileOp)
    requires s.buffered && s.w > 0 && Enabled(s, op)
    ensures Apply(s, op).buffered && Apply(s, op).w == s.w && !Reopened(Apply(s, op))
  {
    hide EncodeAll, NumBufs, Segment, CutOff;
  }

  lemma {:induction false} RunKeepsWoken(s: FileState, ops: seq<FileOp>)
    requires s.buffered && s.w > 0 && FileInv(s) && !Reopened(s) && CanRun(s, ops) && WokenForWork(s)
    ensures WokenForWork(Run(s, ops))
    decreases |ops|
  {
    hide EncodeAll, NumBufs, Segment, BufferInv, WriterInv, WokenForWork;
    if ops != [] {
      ApplyKeepsWoken(s, ops[0]);
      ApplyKeepsInv(s, ops[0]);
      StillWritten(s, ops[0]);
      hide Apply, Enabled;
      RunKeepsWoken(Apply(s, ops[0]), ops[1..]);
    }
  }

  /** In every run from a fresh file: while it takes records, a writer that is about to be woken, or has
      been and is still at its semaphore, finds a whole buffer that is not on flash yet. */
  lemma WokenHasFullBuffer(id: nat, maxSize: nat, w: nat, ops: seq<FileOp>)
    requires w > 0 && CanRun(FreshFile(id, maxSize, w, true), ops)
    ensures var t := Run(FreshFile(id, maxSize, w, true), ops);
      !t.eof && (t.stage.Posting? || t.sem > 0) ==> t.doff < t.woff && |t.disk| + w <= |t.Stream()|
  {
    var s := FreshFile(id, maxSize, w, true);
    FreshFileInv(id, maxSize, w, true);
    RunKeepsInv(s, ops);
    RunKeepsConfig(s, ops);
    RunKeepsWoken(s, ops);
    var t := Run(s, ops);
    hide Run, CanRun, EncodeAll, NumBufs;
    if !t.eof && (t.stage.Posting? || t.sem > 0) {
      FullBuffers(|t.Stream()|, w, t.woff);
      MulMono(t.doff + 1, t.woff, w);
      MulSucc(t.doff, w);
    }
  }

  // ---------- Where the writer ends once eof is set ----------

  /** Past the drain loop, with no way back into it once eof is set. */
  predicate PastLoop(s: FileState) {
    s.pc.Leaving? || s.pc.Checking? || s.pc.Exited?
  }

  ghost predicate OnlyWriter(ops: seq<FileOp>) {
    forall i :: 0 <= i < |ops| ==> WriterOp(ops[i])
  }

  /** What the file will hold when the writer has finished, if nothing but the writer runs. */
  ghost function FinalDisk(s: FileState): seq<byte> {
    if !s.buffered || PastLoop(s) then s.disk
    else s.Stream()[..Min(s.woff * s.w, |s.Stream()|)]
  }

  lemma WriterStepKeepsFinalDisk(s: FileState, op: FileOp)
    requires s.buffered && s.w > 0 && FileInv(s) && s.eof && Enabled(s, op) && WriterOp(op)
    ensures FinalDisk(Apply(s, op)) == FinalDisk(s)
  {
    ApplyKeepsInv(s, op);
    if op.Leave? {
      assert s.doff == s.woff;
    }
  }

  /** The writer's steps after eof lead to exactly FinalDisk. */
  lemma {:induction false} WriterReachesFinalDisk(s: FileState, ops: seq<FileOp>)
    requires s.buffered && s.w > 0 && FileInv(s) && s.eof && CanRun(s, ops) && OnlyWriter(ops)
    ensures FinalDisk(Run(s, ops)) == FinalDisk(s)
    ensures Run(s, ops).recs == s.recs
    ensures Run(s, ops).pc.Exited? ==> Run(s, ops).disk == FinalDisk(s)
    decreases |ops|
  {
    if ops != [] {
      WriterStepKeepsFinalDisk(s, ops[0]);
      ApplyKeepsInv(s, ops[0]);
      WriterReachesFinalDisk(Apply(s, ops[0]), ops[1..]);
    }
  }

  /** Cutting at buffer k loses nothing exactly when the buffers before k hold all of it. */
  lemma CutAt(stream: seq<byte>, w: nat, k: nat)
    requires w > 0
    ensures k == |stream| / w ==> (stream[..Min(k * w, |stream|)] == stream <==> |stream| % w == 0)
    ensures k > |stream| / w ==> stream[..Min(k * w, |stream|)] == stream
  {
    var n := |stream|;
    DivBounds(n, w);
    MulGap(n / w, k, w);
    assert stream[..n] == stream;
    if k == n / w && n % w != 0 {
      assert |stream[..Min(k * w, n)]| < n;
    }
  }

  /** What an append that fills the file makes of the writer. */
  lemma EofAppendState(s: FileState, r: Record)
    requires s.buffered && s.w > 0 && FileInv(s) && Enabled(s, Put(r)) && Append(s, r).eof
    ensures var t := Append(s, r);
      && FileInv(t) && t.buffered && t.w == s.w && t.pc == s.pc && t.disk == s.disk && !s.pc.Exited?
      && |s.disk| < |t.Stream()|
      && t.woff == (if s.running then |t.Stream()| / s.w else |t.Stream()| / s.w + 1)
  {
    hide EncodeAll, Serialize;
    AppendKeepsInv(s, r);
    SerializeNonempty(r);
  }

  /** The append that fills a file, undisturbed, leaves a writer that is sent over all of the file exactly
      when the writer is not past its drain loop, and either does not run (so that the dispatch can
      raise woff for it) or the stream ends on a buffer boundary. */
  lemma EofAppendDrains(s: FileState, r: Record)
    requires s.buffered && s.w > 0 && FileInv(s) && Enabled(s, Put(r))
    requires Append(s, r).eof
    ensures FinalDisk(Append(s, r)) == Append(s, r).Stream()
            <==> !PastLoop(s) && (s.running ==> |Append(s, r).Stream()| % s.w == 0)
  {
    hide EncodeAll, Serialize, FileInv, Append;
    EofAppendState(s, r);
    var t := Append(s, r);
    CutAt(t.Stream(), s.w, t.woff);
  }

  lemma SerializeNonempty(r: Record)
    ensures |Serialize(r)| == HEADER_SIZE + |r.key| + |r.val|
  {
  }

  /** Closing a file that still takes records sends the writer over all of it, except that a writer past
      its drain loop quits with what it has written. */
  lemma CloseDrains(s: FileState)
    requires s.buffered && s.w > 0 && FileInv(s) && s.stage.Idle? && !s.eof
    ensures FinalDisk(Closing(s)) == s.Stream() <==> (PastLoop(s) ==> s.disk == s.Stream())
  {
    var n := |s.Stream()|;
    DivBounds(n, s.w);
    MulSucc(n / s.w, s.w);
    assert s.Stream()[..n] == s.Stream();
  }

  /** The raised woff names a buffer that does not exist. */
  predicate Overrun(s: FileState) {
    s.w > 0 && !PastLoop(s) && s.woff > NumBufs(|s.Stream()|, s.w)
  }

  /** Closing does not send the writer past the last buffer. */
  predicate ClosesInside(s: FileState) {
    s.buffered ==> !Overrun(Closing(s))
  }

  /** What is on flash once the file has been closed, if nobody else disturbs its writer. */
  ghost function ClosedDisk(s: FileState): seq<byte> {
    FinalDisk(Closing(s))
  }

  /** After the filling append, the writer is sent past the last buffer exactly when it did not run,
      is still to enter its loop, and the stream ends on a buffer boundary. */
  lemma EofAppendOverruns(s: FileState, r: Record)
    requires s.buffered && s.w > 0 && FileInv(s) && Enabled(s, Put(r))
    requires Append(s, r).eof
    ensures Overrun(Append(s, r))
            <==> !PastLoop(s) && !s.running && |Append(s, r).Stream()| % s.w == 0
  {
    hide EncodeAll, Serialize, FileInv, Append;
    EofAppendState(s, r);
  }

  /** The writer stands behind the last buffer and was sent further. */
  predicate SentTooFar(s: FileState) {
    s.w > 0 && s.pc.Draining? && s.doff == NumBufs(|s.Stream()|, s.w) < s.woff
  }

  /** The flag is set, and the writer waits for a post that will not come. */
  predicate Stalled(s: FileState) {
    s.running && s.pc.Waiting? && s.sem == 0
  }

  /** After eof the writer can always take a step until it has exited, except exactly when it was sent
      past the last buffer or waits for a post. */
  lemma WriterNeverStuck(s: FileState)
    requires s.buffered && s.w > 0 && FileInv(s) && s.eof && !s.pc.Exited?
    ensures !SentTooFar(s) && !(s.pc.Waiting? && s.sem == 0) ==> exists op :: WriterOp(op) && Enabled(s, op)
    ensures (forall op :: WriterOp(op) ==> !Enabled(s, op)) <==> SentTooFar(s) || (s.pc.Waiting? && s.sem == 0)
  {
    match s.pc
    case Waiting =>
      if s.sem > 0 {
        assert Enabled(s, Wake);
      }
    case Draining =>
      if s.doff >= s.woff {
        assert Enabled(s, Leave);
      } else if s.doff < NumBufs(|s.Stream()|, s.w) {
        assert Enabled(s, Flush);
      }
    case Leaving => assert Enabled(s, Finish);
    case Checking => assert Enabled(s, Check);
  }

  /** Overrun is decided at eof: writer steps neither cause nor cure it, short of exiting. */
  lemma {:induction false} OverrunIsDecided(s: FileState, ops: seq<FileOp>)
    requires s.buffered && s.w > 0 && FileInv(s) && s.eof && CanRun(s, ops) && OnlyWriter(ops)
    requires !PastLoop(s)
    ensures Overrun(s) ==> !Run(s, ops).pc.Exited? && Overrun(Run(s, ops))
    ensures !Overrun(s) ==> !Overrun(Run(s, ops))
    decreases |ops|
  {
    if ops != [] {
      var t := Apply(s, ops[0]);
      ApplyKeepsInv(s, ops[0]);
      if PastLoop(t) {
        NotOverrunAfterLoop(t, ops[1..]);
      } else {
        OverrunIsDecided(t, ops[1..]);
      }
    }
  }

  lemma {:induction false} NotOverrunAfterLoop(s: FileState, ops: seq<FileOp>)
    requires s.buffered && s.w > 0 && FileInv(s) && s.eof && CanRun(s, ops) && OnlyWriter(ops)
    requires PastLoop(s)
    ensures !Overrun(Run(s, ops))
    decreases |ops|
  {
    if ops != [] {
      ApplyKeepsInv(s, ops[0]);
      NotOverrunAfterLoop(Apply(s, ops[0]), ops[1..]);
    }
  }

  ghost function WriterRank(s: FileState): nat {
    match s.pc
    case Waiting => 4
    case Draining => 3
    case Leaving => 2
    case Checking => 1
    case Exited => 0
  }

  /** After eof the writer can take only as many steps as there are buffers left, plus four. */
  lemma {:induction false} WriterTerminates(s: FileState, ops: seq<FileOp>)
    requires s.buffered && s.w > 0 && FileInv(s) && s.eof && CanRun(s, ops) && OnlyWriter(ops)
    ensures |ops| <= (s.woff - s.doff) + WriterRank(s)
    decreases |ops|
  {
    if ops != [] {
      ApplyKeepsInv(s, ops[0]);
      WriterTerminates(Apply(s, ops[0]), ops[1..]);
    }
  }
}
