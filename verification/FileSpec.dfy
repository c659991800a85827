/** The states of one cache file and the steps its appender and its writer thread take.
    The buffers do not appear here: they are cut from the appended stream. */
module FileSpec {
  import opened Arith
  import opened Bytes
  import opened CacheRecord
  import opened Layout

  /** Where the writer thread stands: at its semaphore, in the drain loop, out of it with the running
      flag still set, between that and the test of eof_, or finished with its buffers cleared. */
  datatype WriterPc = Waiting | Draining | Leaving | Checking | Exited

  /** Where the caller of Append or Close stands: in neither; putting a record into the buffers; about to
      test whether to dispatch; past that test; between post and flag; or past the first line of Close. */
  datatype Stage = Idle | Putting | Testing | Posting | Flagging | Sealing

  datatype FileState = FileState(
    id: nat, maxSize: nat, w: nat, buffered: bool,
    cut: bool,          // found at start-up, and ending inside a record
    recs: seq<Record>,  // the records appended so far
    disk: seq<byte>,    // contents of the file
    eof: bool, woff: nat, doff: nat, running: bool, sem: nat,
    pc: WriterPc, stage: Stage)
  {
    /** The flat byte stream that the buffers hold in pieces. */
    function Stream(): seq<byte> {
      EncodeAll(recs)
    }

    /** The test that makes Read go to the file: eof_ && bufs_.empty(), or direct mode. */
    predicate Closed() {
      buffered ==> eof && (pc.Exited? || |Stream()| == 0)
    }

    predicate Drained() {
      pc.Exited? && disk == Stream()
    }
  }

  function FreshFile(id: nat, maxSize: nat, w: nat, buffered: bool): FileState {
    FileState(id, maxSize, w, buffered, false, [], [], false, 0, 0, false, 0, Waiting, Idle)
  }

  /** A file found at start-up, with the records that its scan came upon. */
  function ReopenedFile(id: nat, buffered: bool, recs: seq<Record>, disk: seq<byte>): FileState {
    FileState(id, 0, 0, buffered, |disk| < |EncodeAll(recs)|, recs, disk, true, 0, 0, false, 0, Exited, Idle)
  }

  // ---------- Append and Close, undisturbed ----------

  /** The test at the head of DispatchBuffer: no writer runs, and there is a buffer for it. */
  predicate Posts(s: FileState) {
    !s.running && (s.eof || s.doff != s.woff)
  }

  function Dispatch(s: FileState): FileState {
    if Posts(s) then s.(woff := if s.eof then s.woff + 1 else s.woff, sem := s.sem + 1, running := true) else s
  }

  function Append(s: FileState, r: Record): FileState
    requires s.buffered ==> s.w > 0
  {
    var recs := s.recs + [r];
    var n := |EncodeAll(recs)|;
    if s.buffered then
      Dispatch(s.(recs := recs, woff := Full(n, s.w), eof := n >= s.maxSize))
    else
      s.(recs := recs, disk := s.disk + Serialize(r), eof := |s.disk| + |Serialize(r)| >= s.maxSize)
  }

  /** Close up to its join: raise eof, send the writer one buffer further, wake it. */
  function Closing(s: FileState): FileState {
    s.(eof := true, woff := if s.buffered then s.woff + 1 else s.woff, sem := s.sem + 1)
  }

  /** What Append does: a full file refuses; else the record goes to the end, under the address returned. */
  ghost predicate Appends(crc: Checksum, s: FileState, key: Text, val: Text, ok: bool, t: FileState, lba: LBA) {
    && RecordSize(key, val) < TWO_TO_THE_32 && s.stage.Idle? && (s.buffered && !s.eof ==> s.w > 0)
    && ok == !s.eof
    && (ok ==> var r := MakeRecord(crc, key, val);
               t == Append(s, r) && lba == Address(s.id, s.recs + [r], |s.recs|))
    && (!ok ==> t == s)
  }

  /** The bytes from a to b, as far as there are any. */
  function Piece(stream: seq<byte>, a: nat, b: nat): seq<byte>
    requires a <= b
  {
    stream[Min(a, |stream|)..Min(b, |stream|)]
  }

  /** The bytes of buffer i. */
  function Segment(stream: seq<byte>, w: nat, i: nat): seq<byte> {
    assert i * w <= (i + 1) * w by { MulMono(i, i + 1, w); }
    Piece(stream, i * w, (i + 1) * w)
  }

  // ---------- The steps ----------

  /** The steps of Append: a record begins to go into the buffers, fills them one after the other, sets eof,
      and is dispatched in a test, a post and the setting of the flag. The steps of the writer. The steps of
      Close. (In direct mode Put is all of Append.) */
  datatype FileOp =
    | Put(r: Record) | Advance | SetEof | Test | Post | Flag
    | Wake | Flush | Leave | Finish | Check
    | Seal | Raise

  predicate Enabled(s: FileState, op: FileOp) {
    match op
    case Put(r) => s.stage.Idle? && !s.eof && (s.buffered ==> s.w > 0)
    case Advance => s.stage.Putting? && s.w > 0 && s.woff < Full(|s.Stream()|, s.w)
    case SetEof => s.stage.Putting? && s.w > 0 && s.woff == Full(|s.Stream()|, s.w)
    case Test => s.stage.Testing?
    case Post => s.stage.Posting?
    case Flag => s.stage.Flagging?
    case Wake => s.pc.Waiting? && s.sem > 0
    case Flush => s.pc.Draining? && s.doff < s.woff && s.w > 0 && s.doff < NumBufs(|s.Stream()|, s.w)
    case Leave => s.pc.Draining? && s.doff >= s.woff
    case Finish => s.pc.Leaving?
    case Check => s.pc.Checking?
    case Seal => s.stage.Idle?
    case Raise => s.stage.Sealing?
  }

  function Apply(s: FileState, op: FileOp): FileState
    requires Enabled(s, op)
  {
    match op
    case Put(r) => if s.buffered then s.(recs := s.recs + [r], stage := Putting) else Append(s, r)
    case Advance => s.(woff := s.woff + 1)
    case SetEof => s.(eof := |s.Stream()| >= s.maxSize, stage := Testing)
    case Test => s.(stage := if Posts(s) then Posting else Idle)
    case Post => s.(woff := if s.eof then s.woff + 1 else s.woff, sem := s.sem + 1, stage := Flagging)
    case Flag => s.(running := true, stage := Idle)
    case Wake => s.(sem := s.sem - 1, pc := Draining)
    case Flush => s.(disk := s.disk + Segment(s.Stream(), s.w, s.doff), doff := s.doff + 1)
    case Leave => s.(pc := Leaving)
    case Finish => s.(running := false, pc := Checking)
    case Check => s.(pc := if s.eof then Exited else Waiting)
    case Seal => s.(eof := true, stage := Sealing)
    case Raise => s.(woff := if s.buffered then s.woff + 1 else s.woff, sem := s.sem + 1, stage := Idle)
  }

  predicate WriterOp(op: FileOp) {
    op.Wake? || op.Flush? || op.Leave? || op.Finish? || op.Check?
  }

  /** The steps that go on with an Append or a Close once begun. */
  predicate PendingOp(op: FileOp) {
    op.Advance? || op.SetEof? || op.Test? || op.Post? || op.Flag? || op.Raise?
  }

  ghost predicate CanRun(s: FileState, ops: seq<FileOp>)
    decreases |ops|
  {
    ops == [] || (Enabled(s, ops[0]) && CanRun(Apply(s, ops[0]), ops[1..]))
  }

  ghost function Run(s: FileState, ops: seq<FileOp>): FileState
    requires CanRun(s, ops)
    decreases |ops|
  {
    if ops == [] then s else Run(Apply(s, ops[0]), ops[1..])
  }

  // ---------- Invariant ----------

  /** Size bound: only the record that crosses maxSize may pass it. */
  ghost predicate SizeInv(s: FileState) {
    && (!s.eof && !s.stage.Putting? ==> s.recs == [] || |s.Stream()| < s.maxSize)
    && (s.recs != [] ==> |s.recs| == 1 || Offset(s.recs, |s.recs| - 1) < s.maxSize)
  }

  ghost predicate BufferInv(s: FileState)
    requires s.w > 0
  {
    var n := |s.Stream()|;
    && s.doff <= s.woff
    && s.doff <= NumBufs(n, s.w)
    && (if s.stage.Putting? then s.woff <= Full(n, s.w) else Full(n, s.w) <= s.woff)
    && (s.stage.Testing? || (!s.eof && !s.stage.Putting?) ==> s.woff == Full(n, s.w))
    && s.disk == s.Stream()[..Min(s.doff * s.w, n)]
  }

  /** How the writer, its semaphore and its flag go together. Between post and flag, and once the flag has
      been set too late, they do not. */
  ghost predicate WriterInv(s: FileState) {
    && (s.pc.Exited? ==> s.eof)
    && (s.stage.Putting? ==> !s.eof && s.recs != [])
    && (s.stage.Sealing? ==> s.eof)
    && (s.stage.Posting? ==> !s.running && s.sem == 0 && (s.pc.Waiting? || s.pc.Checking? || s.pc.Exited?))
    && (s.stage.Putting? || s.stage.Testing? || (s.stage.Idle? && !s.eof) ==>
          (s.pc.Draining? || s.pc.Leaving? || s.sem > 0 ==> s.running))
    && (s.stage.Idle? && s.eof && s.pc.Waiting? && s.sem == 0 ==> s.running)
    && (!s.eof || s.stage.Testing? ==> s.sem <= 1 && (s.sem == 1 ==> !s.pc.Draining? && !s.pc.Leaving?))
  }

  /** A file found in the directory at start-up: nobody writes it, and it ends behind or inside its last record. */
  predicate Reopened(s: FileState) {
    && s.eof && s.pc.Exited? && s.w == s.maxSize == 0 && (s.stage.Idle? || s.stage.Sealing?)
    && if s.cut then CutOff(s.recs, s.disk) else s.disk == s.Stream()
  }

  ghost predicate FileInv(s: FileState) {
    || Reopened(s)
    || (!s.cut && s.buffered && s.w > 0 && SizeInv(s) && BufferInv(s) && WriterInv(s))
    || (!s.cut && !s.buffered && SizeInv(s) && s.disk == s.Stream() && s.woff == s.doff == 0
        && (s.stage.Idle? || s.stage.Sealing?))
  }
}
