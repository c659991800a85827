/** Short runs of one file in which the code does not do what one would expect. Append stands for its steps with
    nothing in between (FileRuns.AppendIsSteps). */
module FileWitnesses {
  import opened Arith
  import opened Bytes
  import opened CacheRecord
  import opened Layout
  import opened FileSpec
  import opened FileRuns

  lemma Lengths(r: Record, q: Record)
    requires |Serialize(r)| == |Serialize(q)| == 18
    ensures |EncodeAll([r])| == 18 && |EncodeAll([r, q])| == 36 && EncodeAll([]) == []
  {
    EncodeSnoc([], r);
    EncodeSnoc([r], q);
    assert [] + [r] == [r] && [r] + [q] == [r, q];
  }

  /** From s the run ops leads to t. */
  ghost predicate Leads(s: FileState, ops: seq<FileOp>, t: FileState) {
    CanRun(s, ops) && Run(s, ops) == t
  }

  lemma LeadsNowhere(s: FileState)
    ensures Leads(s, [], s)
  {
  }

  lemma LeadsFirst(s: FileState, op: FileOp, ops: seq<FileOp>, t: FileState)
    requires Enabled(s, op) && Leads(Apply(s, op), ops, t)
    ensures Leads(s, [op] + ops, t)
  {
    RunFirst(s, op, ops);
  }

  lemma LeadsJoin(s: FileState, a: seq<FileOp>, m: FileState, b: seq<FileOp>, t: FileState)
    requires Leads(s, a, m) && Leads(m, b, t)
    ensures Leads(s, a + b, t)
  {
    RunJoin(s, a, b);
  }

  lemma SameLead(s: FileState, ops: seq<FileOp>, t: FileState)
    requires Leads(s, ops, t)
    ensures CanRun(s, ops) && Run(s, ops) == t
  {
  }

  /** What the steps of a drain do to the rest of the state. */
  lemma FlushBuffer(s: FileState, n: nat)
    requires Enabled(s, Flush) && |s.Stream()| == n
    ensures var t := Apply(s, Flush);
      t == s.(disk := t.disk, doff := s.doff + 1)
      && |t.disk| == |s.disk| + (Min((s.doff + 1) * s.w, n) - Min(s.doff * s.w, n))
  {
    MulMono(s.doff, s.doff + 1, s.w);
  }

  // ---------- A tail lost by a filling append ----------

  /** The writer was woken for the first buffer; the second append fills the file and meets it running. */
  function Filled(r: Record, q: Record): FileState {
    FileState(0, 30, 16, true, false, [r, q], [], true, 2, 0, true, 1, Waiting, Idle)
  }

  lemma FillTwo(r: Record, q: Record)
    requires |Serialize(r)| == |Serialize(q)| == 18
    ensures var s := FreshFile(0, 30, 16, true);
      && !Append(s, r).eof
      && Append(s, r) == FileState(0, 30, 16, true, false, [r], [], false, 1, 0, true, 1, Waiting, Idle)
      && Append(Append(s, r), q) == Filled(r, q)
  {
    Lengths(r, q);
    hide EncodeAll, Serialize;
    assert [] + [r] == [r] && [r] + [q] == [r, q];
    assert Full(18, 16) == 1 && Full(36, 16) == 2;
  }

  const DRAIN: seq<FileOp> := [Wake] + ([Flush] + ([Flush] + ([Leave] + ([Finish] + ([Check] + [])))))

  lemma DrainTwo(r: Record, q: Record) returns (t: FileState)
    requires |Serialize(r)| == |Serialize(q)| == 18
    ensures Leads(Filled(r, q), DRAIN, t)
    ensures t == FileState(0, 30, 16, true, false, [r, q], t.disk, true, 2, 2, false, 0, Exited, Idle)
    ensures |t.disk| == 32 && |t.Stream()| == 36
  {
    Lengths(r, q);
    hide EncodeAll, Serialize, Segment, Leads;
    assert NumBufs(36, 16) == 3;
    hide NumBufs;
    var s := Filled(r, q);
    var s1 := Apply(s, Wake);
    FlushBuffer(s1, 36);
    var s2 := Apply(s1, Flush);
    FlushBuffer(s2, 36);
    var s3 := Apply(s2, Flush);
    var s4 := Apply(s3, Leave);
    var s5 := Apply(s4, Finish);
    t := Apply(s5, Check);
    LeadsNowhere(t);
    LeadsFirst(s5, Check, [], t);
    LeadsFirst(s4, Finish, [Check] + [], t);
    LeadsFirst(s3, Leave, [Finish] + ([Check] + []), t);
    LeadsFirst(s2, Flush, [Leave] + ([Finish] + ([Check] + [])), t);
    LeadsFirst(s1, Flush, [Flush] + ([Leave] + ([Finish] + ([Check] + []))), t);
    LeadsFirst(s, Wake, [Flush] + ([Flush] + ([Leave] + ([Finish] + ([Check] + [])))), t);
  }

  /** A file that loses its tail: the writer has exited, and 32 of 36 bytes are on flash. */
  lemma TailLost(r: Record, q: Record)
    requires |Serialize(r)| == |Serialize(q)| == 18
    ensures var s := Append(Append(FreshFile(0, 30, 16, true), r), q);
      CanRun(s, DRAIN) && Run(s, DRAIN).pc.Exited? && |Run(s, DRAIN).disk| == 32 && |Run(s, DRAIN).Stream()| == 36
  {
    hide DRAIN, Run, CanRun, Append, EncodeAll, Serialize;
    FillTwo(r, q);
    var t := DrainTwo(r, q);
  }

  // ---------- The writer behind its last loop test ----------

  const BEHIND: seq<FileOp> := [Wake] + ([Flush] + ([Leave] + []))

  /** One record in a file, its one full buffer written, and the writer out of its loop with the flag still set. */
  function OneWritten(maxSize: nat, w: nat, r: Record, disk: seq<byte>): FileState {
    FileState(0, maxSize, w, true, false, [r], disk, false, 1, 1, true, 0, Leaving, Idle)
  }

  lemma GoBehind(maxSize: nat, w: nat, r: Record) returns (disk: seq<byte>)
    requires |Serialize(r)| == 18 && 16 <= w <= 18 && maxSize > 18
    ensures Leads(Append(FreshFile(0, maxSize, w, true), r), BEHIND, OneWritten(maxSize, w, r, disk)) && |disk| == w
  {
    Lengths(r, r);
    hide EncodeAll, Serialize, Segment, Leads;
    assert [] + [r] == [r];
    DivUnique(18, w, 1);
    assert Full(18, w) == 1 && NumBufs(18, w) >= 1;
    hide NumBufs, Full;
    var s := Append(FreshFile(0, maxSize, w, true), r);
    assert s == FileState(0, maxSize, w, true, false, [r], [], false, 1, 0, true, 1, Waiting, Idle);
    var s1 := Apply(s, Wake);
    FlushBuffer(s1, 18);
    var s2 := Apply(s1, Flush);
    var t := Apply(s2, Leave);
    disk := t.disk;
    LeadsNowhere(t);
    LeadsFirst(s2, Leave, [], t);
    LeadsFirst(s1, Flush, [Leave] + [], t);
    LeadsFirst(s, Wake, [Flush] + ([Leave] + []), t);
  }

  const CLOSE: seq<FileOp> := [Seal] + ([Raise] + ([Finish] + ([Check] + [])))

  lemma CloseBehind(r: Record, disk: seq<byte>) returns (t: FileState)
    ensures Leads(OneWritten(100, 16, r, disk), CLOSE, t) && t.pc.Exited? && t.disk == disk && t.recs == [r]
  {
    hide EncodeAll, Leads, Segment, NumBufs;
    var s := OneWritten(100, 16, r, disk);
    var s1 := Apply(s, Seal);
    var s2 := Apply(s1, Raise);
    var s3 := Apply(s2, Finish);
    t := Apply(s3, Check);
    LeadsNowhere(t);
    LeadsFirst(s3, Check, [], t);
    LeadsFirst(s2, Finish, [Check] + [], t);
    LeadsFirst(s1, Raise, [Finish] + ([Check] + []), t);
    LeadsFirst(s, Seal, [Raise] + ([Finish] + ([Check] + [])), t);
  }

  /** Close meets that writer: it exits with 16 of 18 bytes. */
  lemma ClosedTooLate(r: Record)
    requires |Serialize(r)| == 18
    ensures var s := Append(FreshFile(0, 100, 16, true), r);
      && CanRun(s, BEHIND + CLOSE)
      && var t := Run(s, BEHIND + CLOSE); t.pc.Exited? && |t.disk| == 16 && |t.Stream()| == 18
  {
    Lengths(r, r);
    hide EncodeAll, Serialize, Append, Run, CanRun, BEHIND, CLOSE, Leads, OneWritten;
    var s := Append(FreshFile(0, 100, 16, true), r);
    var disk := GoBehind(100, 16, r);
    var t := CloseBehind(r, disk);
    LeadsJoin(s, BEHIND, OneWritten(100, 16, r, disk), CLOSE, t);
    SameLead(s, BEHIND + CLOSE, t);
  }

  function FillUp(q: Record): seq<FileOp> {
    [Put(q)] + ([Advance] + ([SetEof] + ([Test] + ([Finish] + ([Check] + [])))))
  }

  lemma FillBehind(r: Record, q: Record, disk: seq<byte>) returns (t: FileState)
    requires |Serialize(r)| == |Serialize(q)| == 18
    ensures Leads(OneWritten(36, 18, r, disk), FillUp(q), t)
    ensures t.pc.Exited? && t.disk == disk && |t.Stream()| == 36
  {
    Lengths(r, q);
    assert [r] + [q] == [r, q] && Full(36, 18) == 2;
    hide EncodeAll, Serialize, Append, Segment, NumBufs, Full, Leads;
    var s := OneWritten(36, 18, r, disk);
    var s1 := Apply(s, Put(q));
    var s2 := Apply(s1, Advance);
    var s3 := Apply(s2, SetEof);
    var s4 := Apply(s3, Test);
    var s5 := Apply(s4, Finish);
    t := Apply(s5, Check);
    LeadsNowhere(t);
    LeadsFirst(s5, Check, [], t);
    LeadsFirst(s4, Finish, [Check] + [], t);
    LeadsFirst(s3, Test, [Finish] + ([Check] + []), t);
    LeadsFirst(s2, SetEof, [Test] + ([Finish] + ([Check] + [])), t);
    LeadsFirst(s1, Advance, [SetEof] + ([Test] + ([Finish] + ([Check] + []))), t);
    LeadsFirst(s, Put(q), [Advance] + ([SetEof] + ([Test] + ([Finish] + ([Check] + [])))), t);
  }

  /** An append that fills the file, on a buffer boundary, meets that writer: it exits with 18 of 36 bytes. */
  lemma FilledTooLate(r: Record, q: Record)
    requires |Serialize(r)| == |Serialize(q)| == 18
    ensures var s := Append(FreshFile(0, 36, 18, true), r);
      && CanRun(s, BEHIND + FillUp(q))
      && var t := Run(s, BEHIND + FillUp(q)); t.pc.Exited? && |t.disk| == 18 && |t.Stream()| == 36
  {
    hide EncodeAll, Serialize, Append, Run, CanRun, BEHIND, FillUp, Leads, OneWritten;
    var s := Append(FreshFile(0, 36, 18, true), r);
    var disk := GoBehind(36, 18, r);
    var t := FillBehind(r, q, disk);
    LeadsJoin(s, BEHIND, OneWritten(36, 18, r, disk), FillUp(q), t);
    SameLead(s, BEHIND + FillUp(q), t);
  }

  // ---------- A writer sent past the last buffer ----------

  /** One record fills the one buffer and the file; once the buffer is written the writer can go neither on nor out. */
  lemma SentTooFarByAppend(r: Record)
    requires |Serialize(r)| == 18
    ensures var s, ops := Append(FreshFile(0, 1, 18, true), r), [Wake] + ([Flush] + []);
      && CanRun(s, ops) && !Run(s, ops).pc.Exited? && SentTooFar(Run(s, ops))
      && forall op :: WriterOp(op) ==> !Enabled(Run(s, ops), op)
  {
    Lengths(r, r);
    hide EncodeAll, Serialize, Segment, Leads;
    assert [] + [r] == [r] && Full(18, 18) == 1 && NumBufs(18, 18) == 1;
    hide Full, NumBufs;
    var s := Append(FreshFile(0, 1, 18, true), r);
    assert s == FileState(0, 1, 18, true, false, [r], [], true, 2, 0, true, 1, Waiting, Idle);
    var s1 := Apply(s, Wake);
    FlushBuffer(s1, 18);
    var t := Apply(s1, Flush);
    LeadsNowhere(t);
    LeadsFirst(s1, Flush, [], t);
    LeadsFirst(s, Wake, [Flush] + [], t);
    assert Leads(s, [Wake] + ([Flush] + []), t);
    SameLead(s, [Wake] + ([Flush] + []), t);
  }

  /** So can the writer of an empty file that is closed. */
  lemma ClosedEmpty()
    ensures var s, ops := FreshFile(0, 30, 16, true), [Seal] + ([Raise] + ([Wake] + []));
      && CanRun(s, ops) && SentTooFar(Run(s, ops)) && forall op :: WriterOp(op) ==> !Enabled(Run(s, ops), op)
  {
    assert EncodeAll([]) == [] && NumBufs(0, 16) == 0;
    hide EncodeAll, NumBufs, Segment, Leads;
    var s := FreshFile(0, 30, 16, true);
    var s1 := Apply(s, Seal);
    var s2 := Apply(s1, Raise);
    var t := Apply(s2, Wake);
    LeadsNowhere(t);
    LeadsFirst(s2, Wake, [], t);
    LeadsFirst(s1, Raise, [Wake] + [], t);
    LeadsFirst(s, Seal, [Raise] + ([Wake] + []), t);
    SameLead(s, [Seal] + ([Raise] + ([Wake] + [])), t);
  }

  // ---------- A writer forgotten ----------

  const TO_THE_POST: seq<FileOp> := [Advance] + ([SetEof] + ([Test] + ([Post] + [])))
  const ROUND: seq<FileOp> := [Wake] + ([Flush] + ([Leave] + ([Finish] + ([Check] + []))))

  /** A record longer than a buffer is in the buffers; and has been posted, with the flag not set yet. */
  function Begun(r: Record): FileState {
    FileState(0, 1000, 16, true, false, [r], [], false, 0, 0, false, 0, Waiting, Putting)
  }

  function Posted(r: Record): FileState {
    Begun(r).(woff := 1, sem := 1, stage := Flagging)
  }

  lemma ToThePost(r: Record)
    requires |Serialize(r)| == 18
    ensures Leads(Begun(r), TO_THE_POST, Posted(r))
  {
    Lengths(r, r);
    assert Full(18, 16) == 1;
    hide EncodeAll, Segment, NumBufs, Full, Leads, Serialize;
    var m := Begun(r);
    var m1 := Apply(m, Advance);
    var m2 := Apply(m1, SetEof);
    var m3 := Apply(m2, Test);
    var t := Apply(m3, Post);
    LeadsNowhere(t);
    LeadsFirst(m3, Post, [], t);
    LeadsFirst(m2, Test, [Post] + [], t);
    LeadsFirst(m1, SetEof, [Test] + ([Post] + []), t);
    LeadsFirst(m, Advance, [SetEof] + ([Test] + ([Post] + [])), t);
  }

  lemma OneRound(r: Record) returns (t: FileState)
    requires |Serialize(r)| == 18
    ensures Leads(Posted(r), ROUND, t)
    ensures t.pc.Waiting? && t.sem == 0 && !t.eof && t.stage.Flagging?
  {
    Lengths(r, r);
    assert NumBufs(18, 16) == 2;
    hide EncodeAll, Segment, NumBufs, Full, Leads, Serialize;
    var m := Posted(r);
    var m1 := Apply(m, Wake);
    var m2 := Apply(m1, Flush);
    var m3 := Apply(m2, Leave);
    var m4 := Apply(m3, Finish);
    t := Apply(m4, Check);
    LeadsNowhere(t);
    LeadsFirst(m4, Check, [], t);
    LeadsFirst(m3, Finish, [Check] + [], t);
    LeadsFirst(m2, Leave, [Finish] + ([Check] + []), t);
    LeadsFirst(m1, Flush, [Leave] + ([Finish] + ([Check] + [])), t);
    LeadsFirst(m, Wake, [Flush] + ([Leave] + ([Finish] + ([Check] + []))), t);
  }

  /** The writer is through with the one full buffer before the flag is set: the file is open, and
      its writer stalled. */
  lemma StallWitness(r: Record)
    requires |Serialize(r)| == 18
    ensures var s, ops := FreshFile(0, 1000, 16, true), [Put(r)] + (TO_THE_POST + (ROUND + ([Flag] + [])));
      CanRun(s, ops) && Stalled(Run(s, ops)) && !Run(s, ops).eof
  {
    hide TO_THE_POST, ROUND, Leads, EncodeAll, Serialize, Run, CanRun;
    var s := FreshFile(0, 1000, 16, true);
    assert [] + [r] == [r];
    ToThePost(r);
    var p := OneRound(r);
    var t := Apply(p, Flag);
    LeadsNowhere(t);
    LeadsFirst(p, Flag, [], t);
    LeadsJoin(Posted(r), ROUND, p, [Flag] + [], t);
    LeadsJoin(Begun(r), TO_THE_POST, Posted(r), ROUND + ([Flag] + []), t);
    LeadsFirst(s, Put(r), TO_THE_POST + (ROUND + ([Flag] + [])), t);
    SameLead(s, [Put(r)] + (TO_THE_POST + (ROUND + ([Flag] + []))), t);
  }
}
