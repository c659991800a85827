/** Short runs of the tiered store, and of its protocol, in which the code does not do what one would expect. */
module TierWitnesses {
  import opened Arith
  import opened Bytes
  import opened CacheRecord
  import opened Layout
  import opened FileSpec
  import opened Lru
  import opened FlashSpec
  import opened FlashRefinement
  import opened FlashRuns
  import opened Recovery
  import opened FirstWins
  import opened Restart
  import opened Forgetting
  import opened TierSpec
  import opened TierRuns
  import opened FileWitnesses
  import opened FlashWitnesses
  import opened Resp

  // ---------- The tiered store ----------

  /** One file that is never filled, and one buffer that is never full. */
  function Big(): Config {
    Config(10000, 1000, 1000, true)
  }

  /** That file, with some records in its buffer. */
  function Holding(recs: seq<Record>): FileState {
    FileState(0, 1000, 1000, true, false, recs, [], false, 0, 0, false, 0, Waiting, Idle)
  }

  lemma AppendHolding(recs: seq<Record>, r: Record)
    requires |EncodeAll(recs)| + |Serialize(r)| < 1000
    ensures Append(Holding(recs), r) == Holding(recs + [r])
  {
    EncodeSnoc(recs, r);
    hide EncodeAll, Serialize;
    assert Full(|EncodeAll(recs + [r])|, 1000) == 0;
  }

  /** Set a key, and let its entry go from memory to the queue and on to flash. */
  function Push(k: Text, v: Text): seq<TierOp> {
    [OpSet(k, v)] + ([OpEvictToQueue] + [OpFlush()])
  }

  function Empty(f: Flash): Tier {
    Tier(MemLru, LruState([], map[]), [], f)
  }

  lemma RunTierFirst(crc: Checksum, t: Tier, op: TierOp, ops: seq<TierOp>)
    requires TierInv(crc, t) && CanStepTier(t, op)
    requires (StepKeepsTier(crc, t, op); CanRunTier(crc, StepTier(crc, t, op), ops))
    ensures CanRunTier(crc, t, [op] + ops)
    ensures (StepKeepsTier(crc, t, op);
      RunTier(crc, t, [op] + ops) == RunTier(crc, StepTier(crc, t, op), ops))
  {
    hide TierInv, CanStepTier, StepTier;
    assert ([op] + ops)[1..] == ops;
    StepKeepsTier(crc, t, op);
  }

  lemma {:induction false} RunTierJoin(crc: Checksum, t: Tier, a: seq<TierOp>, b: seq<TierOp>)
    requires TierInv(crc, t) && CanRunTier(crc, t, a) && TierInv(crc, RunTier(crc, t, a))
    requires CanRunTier(crc, RunTier(crc, t, a), b)
    ensures CanRunTier(crc, t, a + b) && RunTier(crc, t, a + b) == RunTier(crc, RunTier(crc, t, a), b)
    decreases |a|
  {
    hide TierInv, CanStepTier, StepTier;
    if a == [] {
      assert a + b == b;
    } else {
      StepKeepsTier(crc, t, a[0]);
      RunTierJoin(crc, StepTier(crc, t, a[0]), a[1..], b);
      assert (a + b)[0] == a[0] && (a + b)[1..] == a[1..] + b;
    }
  }

  lemma RunTierOne(crc: Checksum, t: Tier, op: TierOp)
    requires TierInv(crc, t) && CanStepTier(t, op)
    ensures CanRunTier(crc, t, [op]) && RunTier(crc, t, [op]) == StepTier(crc, t, op)
    ensures TierInv(crc, RunTier(crc, t, [op]))
  {
    hide TierInv, CanStepTier, StepTier;
    StepKeepsTier(crc, t, op);
    assert [op][1..] == [];
  }

  /** Memory holds one key. */
  function OneKey(k: Text, v: Text, f: Flash): Tier {
    Tier(MemLru, LruState([k], map[][k := v]), [], f)
  }

  /** Memory is empty but for one entry on its way to flash. */
  function OneQueued(k: Text, v: Text, f: Flash): Tier {
    Tier(MemLru, LruState([], map[][k := v]), [(k, v)], f)
  }

  lemma EvictOnly(crc: Checksum, f: Flash, k: Text, v: Text)
    requires TierInv(crc, OneKey(k, v, f))
    ensures CanStepTier(OneKey(k, v, f), OpEvictToQueue)
    ensures StepTier(crc, OneKey(k, v, f), OpEvictToQueue) == OneQueued(k, v, f)
    ensures FlashInv(crc, f)
  {
    hide StoreInv, QueueInv;
    assert [k][..0] == [] && [] + [(k, v)] == [(k, v)];
  }

  lemma FlushNow(crc: Checksum, f: Flash, k: Text, v: Text)
    requires TierInv(crc, OneQueued(k, v, f)) && FlashInv(crc, f) && Storable(k, v) && FlashIdle(Empty(f))
    ensures CanStepTier(OneQueued(k, v, f), OpFlush())
    ensures StepTier(crc, OneQueued(k, v, f), OpFlush()) == Empty(Insert(f, crc, k, v))
  {
    hide TierInv, Insert, StoreInv, Storable;
    FlushOnly(crc, f, k, v);
  }

  /** What follows the set in a push. */
  lemma EvictAndFlush(crc: Checksum, f: Flash, k: Text, v: Text)
    requires TierInv(crc, OneKey(k, v, f)) && Storable(k, v) && FlashIdle(Empty(f))
    ensures CanRunTier(crc, OneKey(k, v, f), [OpEvictToQueue] + [OpFlush()])
    ensures RunTier(crc, OneKey(k, v, f), [OpEvictToQueue] + [OpFlush()]) == Empty(Insert(f, crc, k, v))
    ensures TierInv(crc, Empty(Insert(f, crc, k, v)))
  {
    hide TierInv, RunTier, CanRunTier, Insert, Storable, CanStepTier, StepTier, StoreInv;
    var t1, t2 := OneKey(k, v, f), OneQueued(k, v, f);
    EvictOnly(crc, f, k, v);
    StepKeepsTier(crc, t1, OpEvictToQueue);
    FlushNow(crc, f, k, v);
    StepKeepsTier(crc, t2, OpFlush());
    RunTierOne(crc, t2, OpFlush());
    RunTierFirst(crc, t1, OpEvictToQueue, [OpFlush()]);
  }

  lemma FlushOnly(crc: Checksum, f: Flash, k: Text, v: Text)
    requires FlashInv(crc, f) && Storable(k, v)
    ensures FlushOne(Tier(MemLru, LruState([], map[][k := v]), [(k, v)], f), crc) == Empty(Insert(f, crc, k, v))
  {
    hide Insert, StoreInv;
    assert map[][k := v] - {k} == map[] && [(k, v)][1..] == [];
  }

  /** A push into an empty memory is an insert into flash. */
  lemma PushEffect(crc: Checksum, f: Flash, k: Text, v: Text)
    requires TierInv(crc, Empty(f)) && One(k, v) && FlashIdle(Empty(f))
    ensures CanRunTier(crc, Empty(f), Push(k, v)) && RunTier(crc, Empty(f), Push(k, v)) == Empty(Insert(f, crc, k, v))
    ensures TierInv(crc, Empty(Insert(f, crc, k, v)))
  {
    hide TierInv, RunTier, CanRunTier, Insert, Storable;
    assert [k] + [] == [k];
    assert CacheAdd(LruState([], map[]), k, v) == LruState([k], map[][k := v]);
    StepKeepsTier(crc, Empty(f), OpSet(k, v));
    EvictAndFlush(crc, f, k, v);
    RunTierFirst(crc, Empty(f), OpSet(k, v), [OpEvictToQueue] + [OpFlush()]);
  }

  /** A record that is in the buffer of the only file. */
  lemma HoldingReply(crc: Checksum, recs: seq<Record>, index: map<Text, LBA>, size: int, k: Text)
    requires TierInv(crc, Empty(Single(Big(), Holding(recs), index, size)))
    ensures var f := Single(Big(), Holding(recs), index, size);
      && (k in index ==> InRange(f, k))
      && GetReply(Empty(f), crc, k) == if k in Contents(f) then Some(Contents(f)[k]) else None
  {
    hide StoreInv, Contents, Lookup, InRange, QueueInv, EncodeAll;
    var f := Single(Big(), Holding(recs), index, size);
    LookupRefines(crc, f, k);
    IndexInRange(crc, f);
    IndexNamesFiles(crc, f, k);
    assert k in index ==> Retained(f, k);
  }

  /** What two pushes leave on flash, whatever becomes of the index in between. */
  lemma PushTwice(crc: Checksum, recs: seq<Record>, index: map<Text, LBA>, size: int, k: Text, v: Text)
    requires FlashInv(crc, Single(Big(), Holding(recs), index, size)) && One(k, v) && |EncodeAll(recs)| < 900
    ensures var f, r := Single(Big(), Holding(recs), index, size), MakeRecord(crc, k, v);
      Insert(f, crc, k, v)
      == Single(Big(), Holding(recs + [r]), IndexInsert(index, k, Address(0, recs + [r], |recs|)), size + 18)
  {
    hide StoreInv, Append, Serialize, EncodeAll, Contents, MakeRecord, IndexInsert, Address, Insert, Storable;
    OneSize(crc, k, v);
    AppendHolding(recs, MakeRecord(crc, k, v));
    InsertSingle(crc, Big(), Holding(recs), index, size, k, v);
  }

  /** The cache after two inserts of the same key. */
  lemma TwoInserts(crc: Checksum, k: Text, v: Text, v': Text) returns (f1: Flash, f2: Flash, index: map<Text, LBA>)
    requires One(k, v) && One(k, v')
    ensures FlashInv(crc, StartFlash(Big())) && f1 == Insert(StartFlash(Big()), crc, k, v)
    ensures FlashInv(crc, f1) && f2 == Insert(f1, crc, k, v') && FlashInv(crc, f2)
    ensures f2 == Single(Big(), Holding([] + [MakeRecord(crc, k, v)] + [MakeRecord(crc, k, v')]), index, 36)
    ensures Contents(f2) == map[][k := v] && FlashIdle(Empty(StartFlash(Big()))) && FlashIdle(Empty(f1))
  {
    hide FlashInv, EncodeAll, Contents, MakeRecord, IndexInsert, Address, Insert, Storable, StartFlash, SizeExact,
         Single, Holding, Big;
    var r, r' := MakeRecord(crc, k, v), MakeRecord(crc, k, v');
    StartHolding();
    StartInv(crc, Big());
    EncodeNone();
    OneEncoded(crc, k, v);
    OneStorable(k, v);
    OneStorable(k, v');
    PushTwice(crc, [], map[], 0, k, v);
    f1 := Insert(StartFlash(Big()), crc, k, v);
    StartIdle(Big());
    InsertRefines(crc, StartFlash(Big()), k, v);
    IdleOf(crc, f1);
    var index1 := IndexInsert(map[], k, Address(0, [] + [r], 0));
    PushTwice(crc, [] + [r], index1, 18, k, v');
    f2 := Insert(f1, crc, k, v');
    InsertRefines(crc, f1, k, v');
    index := IndexInsert(index1, k, Address(0, [] + [r] + [r'], 1));
  }

  lemma OneStorable(k: Text, v: Text)
    requires One(k, v)
    ensures Storable(k, v)
  {
  }

  lemma IdleOf(crc: Checksum, f: Flash)
    requires FlashInv(crc, f) && CurIdle(f)
    ensures FlashIdle(Empty(f))
  {
  }

  lemma StartHolding()
    ensures StartFlash(Big()) == Single(Big(), Holding([]), map[], 0) && (Big().buffered ==> Big().w > 0)
  {
    StartSingle(Big());
  }

  /** Set, flush, set, flush: get replies with the first value. */
  lemma StaleAfterFlush(crc: Checksum, k: Text, v: Text, v': Text)
    requires One(k, v) && One(k, v')
    ensures (StartTierInv(crc, MemLru, Big());
      var t, ops := StartTier(MemLru, Big()), Push(k, v) + Push(k, v');
      && CanRunTier(crc, t, ops) && LastSet(ops, k, None) == Some(v')
      && TierInv(crc, RunTier(crc, t, ops))
      && (IndexInRange(crc, RunTier(crc, t, ops).flash); GetReply(RunTier(crc, t, ops), crc, k) == Some(v)))
  {
    hide FlashInv, QueueInv, Contents, MakeRecord, Insert, Storable, RunTier, CanRunTier, Push, LastSet, StartFlash,
         Lookup, InRange, TierInv, GetReply, Single;
    LastPushed(k, v, v');
    StartTierInv(crc, MemLru, Big());
    var f0 := StartFlash(Big());
    var f1, f2, index := TwoInserts(crc, k, v, v');
    PushEffect(crc, f0, k, v);
    PushEffect(crc, f1, k, v');
    RunTierJoin(crc, Empty(f0), Push(k, v), Push(k, v'));
    HoldingReply(crc, [] + [MakeRecord(crc, k, v)] + [MakeRecord(crc, k, v')], index, 36, k);
  }

  lemma EncodeNone()
    ensures EncodeAll([]) == []
  {
  }

  lemma OneEncoded(crc: Checksum, k: Text, v: Text)
    requires One(k, v)
    ensures |EncodeAll([] + [MakeRecord(crc, k, v)])| == 18
  {
    OneSize(crc, k, v);
    EncodeSnoc([], MakeRecord(crc, k, v));
    EncodeNone();
  }

  lemma LastPushed(k: Text, v: Text, v': Text)
    ensures LastSet(Push(k, v) + Push(k, v'), k, None) == Some(v')
  {
    hide Push;
    LastSetJoin(Push(k, v), Push(k, v'), k, None);
    LastSetPush(k, v, None);
    LastSetPush(k, v', Some(v));
  }

  lemma LastSetPush(k: Text, v: Text, init: Option<Text>)
    ensures LastSet(Push(k, v), k, init) == Some(v)
  {
    assert Push(k, v)[1..] == [OpEvictToQueue] + [OpFlush()];
    assert ([OpEvictToQueue] + [OpFlush()])[1..] == [OpFlush()] && [OpFlush()][1..] == [];
    assert LastSet([OpFlush()], k, Some(v)) == Some(v);
    assert LastSet([OpEvictToQueue] + [OpFlush()], k, Some(v)) == Some(v);
  }

  lemma {:induction false} LastSetJoin(a: seq<TierOp>, b: seq<TierOp>, k: Text, init: Option<Text>)
    ensures LastSet(a + b, k, init) == LastSet(b, k, LastSet(a, k, init))
    decreases |a|
  {
    if a == [] {
      assert a + b == b;
    } else {
      LastSetJoin(a[1..], b, k, if a[0].OpSet? && a[0].key == k then Some(a[0].val) else init);
      assert (a + b)[0] == a[0] && (a + b)[1..] == a[1..] + b;
    }
  }

  // ---------- Restart ----------

  /** A get of a value on flash moves it to memory. */
  lemma GetPromotes(crc: Checksum, recs: seq<Record>, index: map<Text, LBA>, size: int, k: Text, v: Text)
    requires TierInv(crc, Empty(Single(Big(), Holding(recs), index, size))) && One(k, v) && k in index
    requires Contents(Single(Big(), Holding(recs), index, size)) == map[][k := v]
    ensures var t := Empty(Single(Big(), Holding(recs), index, size));
      && CanStepTier(t, OpGet(k))
      && StepTier(crc, t, OpGet(k)) == OneKey(k, v, Single(Big(), Holding(recs), index - {k}, size))
  {
    hide StoreInv, Contents, Lookup, InRange, QueueInv, EncodeAll, Holding;
    var f := Single(Big(), Holding(recs), index, size);
    HoldingReply(crc, recs, index, size, k);
    IndexInRange(crc, f);
    IndexNamesFiles(crc, f, k);
    assert Lookup(f, crc, k) == Some(v);
    OnlyFile(f.files.items);
    assert [k] + [] == [k] && [0] + [] == [0];
  }

  lemma OnlyFile(items: map<nat, FileState>)
    ensures Without([0], 0) == [] && LruTouch(LruState([0], items), 0) == LruState([0], items)
  {
    assert [0][1..] == [];
  }

  /** A push of a key that is in memory. */
  lemma PushOver(crc: Checksum, f: Flash, k: Text, v: Text, v': Text)
    requires TierInv(crc, OneKey(k, v, f)) && One(k, v') && FlashIdle(Empty(f))
    ensures CanRunTier(crc, OneKey(k, v, f), Push(k, v'))
    ensures RunTier(crc, OneKey(k, v, f), Push(k, v')) == Empty(Insert(f, crc, k, v'))
    ensures TierInv(crc, Empty(Insert(f, crc, k, v')))
  {
    hide TierInv, RunTier, CanRunTier, Insert, Storable;
    SetOver(k, v, v');
    StepKeepsTier(crc, OneKey(k, v, f), OpSet(k, v'));
    EvictAndFlush(crc, f, k, v');
    RunTierFirst(crc, OneKey(k, v, f), OpSet(k, v'), [OpEvictToQueue] + [OpFlush()]);
  }

  lemma SetOver(k: Text, v: Text, v': Text)
    ensures CacheAdd(LruState([k], map[][k := v]), k, v') == LruState([k], map[][k := v'])
  {
    assert Without([k], k) == [] by {
      assert [k][1..] == [];
    }
    assert [k] + [] == [k] && map[][k := v][k := v'] == map[][k := v'];
  }

  // ---------- Closing ----------

  /** Close a file whose writer is at rest, with one buffer partly filled. */
  const CLOSE_ALL: seq<FileOp> := [Seal] + ([Raise] + LAST_ROUND)

  function ClosedUp(recs: seq<Record>): FileState {
    FileState(0, 1000, 1000, true, false, recs, EncodeAll(recs), true, 1, 1, false, 0, Exited, Idle)
  }

  lemma OneSegment(e: seq<byte>)
    requires |e| < 1000
    ensures [] + Segment(e, 1000, 0) == e
  {
  }

  const LAST_ROUND: seq<FileOp> := [Wake] + ([Flush] + ([Leave] + ([Finish] + ([Check] + []))))

  /** The file with eof raised and its writer woken once more. */
  function Sealed(recs: seq<Record>): FileState {
    FileState(0, 1000, 1000, true, false, recs, [], true, 1, 0, false, 1, Waiting, Idle)
  }

  lemma WriteLast(recs: seq<Record>)
    requires 0 < |EncodeAll(recs)| < 1000
    ensures Leads(Sealed(recs), LAST_ROUND, ClosedUp(recs))
  {
    var e := EncodeAll(recs);
    assert NumBufs(|e|, 1000) == 1;
    OneSegment(e);
    hide EncodeAll, NumBufs, Leads, Segment;
    var s := Sealed(recs);
    var s1 := Apply(s, Wake);
    var s2 := Apply(s1, Flush);
    assert s2.disk == e;
    var s3 := Apply(s2, Leave);
    var s4 := Apply(s3, Finish);
    var t := Apply(s4, Check);
    assert t == ClosedUp(recs);
    LeadsNowhere(t);
    LeadsFirst(s4, Check, [], t);
    LeadsFirst(s3, Finish, [Check] + [], t);
    LeadsFirst(s2, Leave, [Finish] + ([Check] + []), t);
    LeadsFirst(s1, Flush, [Leave] + ([Finish] + ([Check] + [])), t);
    LeadsFirst(s, Wake, [Flush] + ([Leave] + ([Finish] + ([Check] + []))), t);
  }

  lemma CloseHolding(recs: seq<Record>)
    requires 0 < |EncodeAll(recs)| < 1000
    ensures Leads(Holding(recs), CLOSE_ALL, ClosedUp(recs))
  {
    hide EncodeAll, NumBufs, Leads, Segment, LAST_ROUND, ClosedUp;
    WriteLast(recs);
    var s := Holding(recs);
    var s1 := Apply(s, Seal);
    assert Apply(s1, Raise) == Sealed(recs);
    LeadsFirst(s1, Raise, LAST_ROUND, ClosedUp(recs));
    LeadsFirst(s, Seal, [Raise] + LAST_ROUND, ClosedUp(recs));
  }

  function LiftTier(ops: seq<FileOp>): seq<TierOp> {
    if ops == [] then [] else [OpFlash(OpFile(0, ops[0]))] + LiftTier(ops[1..])
  }

  /** A run of the only file is a run of the store. */
  lemma {:induction false} RunLiftTier(crc: Checksum, f: Flash, ops: seq<FileOp>)
    requires TierInv(crc, Empty(f)) && 0 in f.files.items && CanRun(f.files.items[0], ops)
    requires forall i :: 0 <= i < |ops| ==> !ops[i].Put?
    ensures CanRunTier(crc, Empty(f), LiftTier(ops))
    ensures RunTier(crc, Empty(f), LiftTier(ops)) == Empty(SetFile(f, 0, Run(f.files.items[0], ops)))
    ensures TierInv(crc, RunTier(crc, Empty(f), LiftTier(ops)))
    decreases |ops|
  {
    hide StoreInv, QueueInv, Apply, Enabled, Contents;
    if ops == [] {
      assert f.files.items[0 := f.files.items[0]] == f.files.items;
    } else {
      var op, s := OpFlash(OpFile(0, ops[0])), f.files.items[0];
      var g := SetFile(f, 0, Apply(s, ops[0]));
      assert StepTier(crc, Empty(f), op) == Empty(g);
      StepKeepsTier(crc, Empty(f), op);
      RunLiftTier(crc, g, ops[1..]);
      RunTierFirst(crc, Empty(f), op, LiftTier(ops[1..]));
      SetTwice(f, 0, Apply(s, ops[0]), Run(s, ops));
    }
  }

  lemma {:induction false} LiftSetsNothing(ops: seq<FileOp>, k: Text, init: Option<Text>)
    ensures LastSet(LiftTier(ops), k, init) == init
  {
    if ops != [] {
      LiftSetsNothing(ops[1..], k, init);
    }
  }

  lemma CloseHasNoPut()
    ensures forall i :: 0 <= i < |CLOSE_ALL| ==> !CLOSE_ALL[i].Put?
  {
  }

  /** A restart over a closed file with two records of one key finds the first one. */
  lemma FirstOfBoth(crc: Checksum, k: Text, v: Text, v': Text, index: map<Text, LBA>, found: seq<Found>)
    requires One(k, v) && One(k, v')
    requires var recs := [] + [MakeRecord(crc, k, v)] + [MakeRecord(crc, k, v')];
      var f := Single(Big(), ClosedUp(recs), index, 36);
      FlashInv(crc, f) && FoundOn(f, found)
    ensures var u := OpenDir(Big(), found); (k in u.index ==> InRange(u, k)) && Lookup(u, crc, k) == Some(v)
  {
    hide FlashInv, Contents, Storable, Lookup, InRange, FoundOn, OpenDir, EncodeAll, Serialize;
    OneSize(crc, k, v);
    OneSize(crc, k, v');
    hide MakeRecord;
    var recs := [] + [MakeRecord(crc, k, v)] + [MakeRecord(crc, k, v')];
    var f := Single(Big(), ClosedUp(recs), index, 36);
    ShowsFirst(crc, f, found, k);
    assert FileLog(f.files.items, 0) == [];
    assert FileLog(f.files.items, 1) == [] + Entries(recs);
    assert ([] + Entries(recs))[0] == (k, v);
  }

  /** Set and flush a key, get it back to memory, set it anew, flush it and close the file: flash holds the new value
      under the key, but after a restart it is the old one. Without the get in between this run is not careful;
      with it, it is, but not plain. */
  lemma OldValueAfterRestart(crc: Checksum, k: Text, v: Text, v': Text, found: seq<Found>)
    requires One(k, v) && One(k, v')
    ensures (StartTierInv(crc, MemLru, Big());
      var t, ops := StartTier(MemLru, Big()), Push(k, v) + (([OpGet(k)] + Push(k, v')) + LiftTier(CLOSE_ALL));
      && CanRunTier(crc, t, ops) && LastSet(ops, k, None) == Some(v')
      && var f := RunTier(crc, t, ops).flash;
      && FlashInv(crc, f) && RunTier(crc, t, ops) == Empty(f) && k in Contents(f) && Contents(f)[k] == v'
      && (FoundOn(f, found) ==>
            var u := OpenDir(Big(), found); (k in u.index ==> InRange(u, k)) && Lookup(u, crc, k) == Some(v)))
  {
    hide FlashInv, QueueInv, Contents, MakeRecord, Insert, Storable, RunTier, CanRunTier, Push, LastSet, StartFlash,
         Lookup, InRange, TierInv, GetReply, Single, Holding, CanStepTier, StepTier, ClosedUp, OpenDir, LiftTier,
         FoundOn, CLOSE_ALL, EncodeAll, Leads, Run, CanRun;
    LastPushedAfterGet(k, v, v');
    StartTierInv(crc, MemLru, Big());
    var f0 := StartFlash(Big());
    var f1, g1, f2, index := PromotedInserts(crc, k, v, v');
    PushEffect(crc, f0, k, v);
    var t1 := Empty(f1);
    GetPromotes(crc, [] + [MakeRecord(crc, k, v)], f1.index, 18, k, v);
    StepKeepsTier(crc, t1, OpGet(k));
    PushOver(crc, g1, k, v, v');
    RunTierFirst(crc, t1, OpGet(k), Push(k, v'));
    var recs := [] + [MakeRecord(crc, k, v)] + [MakeRecord(crc, k, v')];
    var f3 := Single(Big(), ClosedUp(recs), index, 36);
    CloseTwo(crc, k, v, v', index);
    RunTierJoin(crc, t1, [OpGet(k)] + Push(k, v'), LiftTier(CLOSE_ALL));
    RunTierJoin(crc, Empty(f0), Push(k, v), ([OpGet(k)] + Push(k, v')) + LiftTier(CLOSE_ALL));
    if FoundOn(f3, found) {
      FirstOfBoth(crc, k, v, v', index, found);
    }
  }

  /** The closing of the file with both records changes nothing that is shown. */
  lemma CloseTwo(crc: Checksum, k: Text, v: Text, v': Text, index: map<Text, LBA>)
    requires One(k, v) && One(k, v')
    requires var recs := [] + [MakeRecord(crc, k, v)] + [MakeRecord(crc, k, v')];
      TierInv(crc, Empty(Single(Big(), Holding(recs), index, 36)))
    ensures var recs := [] + [MakeRecord(crc, k, v)] + [MakeRecord(crc, k, v')];
      var f, g := Single(Big(), Holding(recs), index, 36), Single(Big(), ClosedUp(recs), index, 36);
      && CanRunTier(crc, Empty(f), LiftTier(CLOSE_ALL)) && RunTier(crc, Empty(f), LiftTier(CLOSE_ALL)) == Empty(g)
      && TierInv(crc, Empty(g)) && FlashInv(crc, g) && Contents(g) == Contents(f)
  {
    var recs := [] + [MakeRecord(crc, k, v)] + [MakeRecord(crc, k, v')];
    TwoEncoded(crc, k, v, v');
    hide StoreInv, QueueInv, Contents, MakeRecord, Storable, RunTier, CanRunTier, LiftTier, CLOSE_ALL, EncodeAll, Leads,
         Run, CanRun, Holding, ClosedUp, Serialize, CanRunFlash, RunFlash, Lift, RunMap, RunDebt;
    var f := Single(Big(), Holding(recs), index, 36);
    CloseHolding(recs);
    SameLead(Holding(recs), CLOSE_ALL, ClosedUp(recs));
    CloseHasNoPut();
    RunLiftTier(crc, f, CLOSE_ALL);
    RunLift(crc, f, 0, CLOSE_ALL, Contents(f));
    RunRefines(crc, f, Lift(0, CLOSE_ALL));
    SetSingle(Big(), Holding(recs), ClosedUp(recs), index, 36);
  }

  lemma TwoEncoded(crc: Checksum, k: Text, v: Text, v': Text)
    requires One(k, v) && One(k, v')
    ensures |EncodeAll([] + [MakeRecord(crc, k, v)] + [MakeRecord(crc, k, v')])| == 36
  {
    OneSize(crc, k, v');
    OneEncoded(crc, k, v);
    EncodeSnoc([] + [MakeRecord(crc, k, v)], MakeRecord(crc, k, v'));
  }

  lemma LastPushedAfterGet(k: Text, v: Text, v': Text)
    ensures LastSet(Push(k, v) + (([OpGet(k)] + Push(k, v')) + LiftTier(CLOSE_ALL)), k, None) == Some(v')
  {
    hide Push, CLOSE_ALL, LiftTier;
    LastSetJoin(Push(k, v), ([OpGet(k)] + Push(k, v')) + LiftTier(CLOSE_ALL), k, None);
    LastSetJoin([OpGet(k)] + Push(k, v'), LiftTier(CLOSE_ALL), k, Some(v));
    LiftSetsNothing(CLOSE_ALL, k, Some(v'));
    LastSetPush(k, v, None);
    LastSetJoin([OpGet(k)], Push(k, v'), k, Some(v));
    LastSetPush(k, v', LastSet([OpGet(k)], k, Some(v)));
  }

  lemma PromotedInserts(crc: Checksum, k: Text, v: Text, v': Text)
    returns (f1: Flash, g1: Flash, f2: Flash, index: map<Text, LBA>)
    requires One(k, v) && One(k, v')
    ensures FlashInv(crc, StartFlash(Big())) && f1 == Insert(StartFlash(Big()), crc, k, v) && FlashInv(crc, f1)
    ensures f1 == Single(Big(), Holding([] + [MakeRecord(crc, k, v)]), f1.index, 18)
    ensures k in f1.index && Contents(f1) == map[][k := v]
    ensures FlashIdle(Empty(StartFlash(Big()))) && FlashIdle(Empty(g1))
    ensures g1 == Single(Big(), Holding([] + [MakeRecord(crc, k, v)]), f1.index - {k}, 18) && FlashInv(crc, g1)
    ensures f2 == Insert(g1, crc, k, v') && FlashInv(crc, f2) && Contents(f2) == map[][k := v']
    ensures f2 == Single(Big(), Holding([] + [MakeRecord(crc, k, v)] + [MakeRecord(crc, k, v')]), index, 36)
  {
    hide FlashInv, EncodeAll, Contents, MakeRecord, IndexInsert, Address, Insert, Storable, StartFlash, SizeExact,
         Holding, Big;
    var r, r' := MakeRecord(crc, k, v), MakeRecord(crc, k, v');
    StartHolding();
    StartInv(crc, Big());
    EncodeNone();
    OneEncoded(crc, k, v);
    OneStorable(k, v);
    OneStorable(k, v');
    PushTwice(crc, [], map[], 0, k, v);
    f1 := Insert(StartFlash(Big()), crc, k, v);
    StartIdle(Big());
    InsertRefines(crc, StartFlash(Big()), k, v);
    ContentsKeys(crc, f1);
    FewerEntries(crc, f1, {k});
    g1 := f1.(index := f1.index - {k});
    assert map[][k := v] - {k} == map[];
    IdleOf(crc, g1);
    PushTwice(crc, [] + [r], g1.index, 18, k, v');
    f2 := Insert(g1, crc, k, v');
    InsertRefines(crc, g1, k, v');
    index := IndexInsert(g1.index, k, Address(0, [] + [r] + [r'], 1));
  }

  // ---------- "+Empty!" ----------

  /** Nothing has been set; or the text of the empty reply has: a get has the same reply. */
  lemma EmptyLooksLikeValue(crc: Checksum, k: Text)
    requires |k| == 1 && Storable(k, [])
    ensures (StartTierInv(crc, MemLru, Big());
      var t, v := StartTier(MemLru, Big()), Visible(None);
      && TierInv(crc, t) && CanStepTier(t, OpSet(k, v))
      && (StepKeepsTier(crc, t, OpSet(k, v)); var u := StepTier(crc, t, OpSet(k, v));
          IndexInRange(crc, t.flash); IndexInRange(crc, u.flash);
          && GetReply(t, crc, k) == None && GetReply(u, crc, k) == Some(v)
          && Reply(GetReply(t, crc, k)) == Reply(GetReply(u, crc, k))))
  {
    hide FlashInv, Lookup, InRange, Bulk, Contents;
    StartTierInv(crc, MemLru, Big());
    EmptyText(k);
    var t, v := StartTier(MemLru, Big()), Visible(None);
    StepKeepsTier(crc, t, OpSet(k, v));
    StartSingle(Big());
    NotIndexed(crc, t.flash, k);
    EmptyReplyIsBulk();
  }

  lemma EmptyText(k: Text)
    requires |k| == 1 && Storable(k, [])
    ensures Storable(k, Visible(None))
  {
  }

  // ---------- Requests ----------

  /** "set k" with an empty value does not come back as it was sent. */
  lemma EmptyValueMisread(k: byte, tail: seq<byte>)
    ensures var args := [[115, 101, 116], [k], []]; Parse(Request(args) + tail) != Parsed(args, Done)
  {
    var args: seq<Text> := [[115, 101, 116], [k], []];
    assert !EmptiesFirst(args) by {
      assert args[1] != [] && args[2] == [];
    }
    ThreeArgs(args[0], args[1], args[2]);
    hide Request, Parse, EmptiesFirst;
    assert args == [args[0], args[1], args[2]];
    RequestRoundTrip(args, tail);
  }

  lemma DecimalShort(n: nat)
    requires n < 10
    ensures |Decimal(n)| == 1
  {
  }

  lemma ThreeArgs(a: Text, b: Text, c: Text)
    requires |a| == 3 && |b| == 1 && |c| == 0
    ensures |Request([a, b, c])| <= 100
  {
    hide Decimal, Bulks;
    DecimalShort(3);
    DecimalShort(1);
    DecimalShort(0);
    assert [a, b, c] == [a] + ([b] + ([c] + []));
    BulksCons(a, [b] + ([c] + []));
    BulksCons(b, [c] + []);
    BulksCons(c, []);
  }

  lemma BulksCons(a: Text, rest: seq<Text>)
    ensures Bulks([a] + rest) == Bulk(a) + Bulks(rest) && Bulks([]) == []
  {
    hide Bulk;
    assert ([a] + rest)[1..] == rest;
  }
}
