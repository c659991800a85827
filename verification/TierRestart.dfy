/** Shutdown and restart of the tiered store. */
module TierRestart {
  import opened Bytes
  import opened CacheRecord
  import opened Lru
  import opened FlashSpec
  import opened FlashRefinement
  import opened FlashRuns
  import opened Recovery
  import opened FirstWins
  import opened Restart
  import opened Forgetting
  import opened TierSpec
  import opened TierRuns
  import opened TierDrain
  import opened NoLoss

  // ---------- What the store does to flash ----------

  /** The operations of the flash cache that a step of the store comes down to. */
  ghost function FlashSteps(crc: Checksum, t: Tier, op: TierOp): seq<FlashOp>
    requires TierInv(crc, t) && CanStepTier(t, op)
  {
    IndexInRange(crc, t.flash);
    match op
    case OpSet(k, v, whole) => if t.mode.OnlyFlash? then [OpInsert(k, v, whole)] else []
    case OpGet(k) =>
      if t.mode.OnlyFlash? then [OpLookup(k)]
      else if k in t.mem.items || Lookup(t.flash, crc, k).None? then []
      else [OpLookup(k)] + [OpDelete(k)]
    case OpEvictToQueue => []
    case OpFlush(whole) => [OpInsert(t.queue[0].0, t.queue[0].1, whole)]
    case OpFlash(step) => [step]
  }

  ghost function FlashTrace(crc: Checksum, t: Tier, ops: seq<TierOp>): seq<FlashOp>
    requires TierInv(crc, t) && CanRunTier(crc, t, ops)
    decreases |ops|
  {
    if ops == [] then []
    else StepKeepsTier(crc, t, ops[0]);
         FlashSteps(crc, t, ops[0]) + FlashTrace(crc, StepTier(crc, t, ops[0]), ops[1..])
  }

  lemma OneFlashStep(crc: Checksum, f: Flash, op: FlashOp)
    requires FlashInv(crc, f) && CanStep(f, op)
    ensures CanRunFlash(crc, f, [op]) && RunFlash(crc, f, [op]) == StepFlash(crc, f, op)
  {
    hide FlashInv, CanStep, StepFlash, Contents;
    StepRefines(crc, f, op);
    assert [op][1..] == [];
  }

  lemma NoFlashStep(crc: Checksum, f: Flash)
    requires FlashInv(crc, f)
    ensures CanRunFlash(crc, f, []) && RunFlash(crc, f, []) == f
  {
  }

  lemma TwoFlashSteps(crc: Checksum, f: Flash, k: Text)
    requires FlashInv(crc, f)
    ensures CanRunFlash(crc, f, [OpLookup(k)] + [OpDelete(k)])
    ensures RunFlash(crc, f, [OpLookup(k)] + [OpDelete(k)]) == DeleteKey(Looked(f, k), k)
  {
    hide FlashInv, Contents, RunFlash, CanRunFlash, Looked, DeleteKey;
    OneFlashStep(crc, f, OpLookup(k));
    RunRefines(crc, f, [OpLookup(k)]);
    OneFlashStep(crc, Looked(f, k), OpDelete(k));
    RunFlashJoin(crc, f, [OpLookup(k)], [OpDelete(k)]);
  }

  lemma StepTrace(crc: Checksum, t: Tier, op: TierOp)
    requires TierInv(crc, t) && CanStepTier(t, op)
    ensures CanRunFlash(crc, t.flash, FlashSteps(crc, t, op))
    ensures RunFlash(crc, t.flash, FlashSteps(crc, t, op)) == StepTier(crc, t, op).flash
  {
    hide QueueInv, StoreInv, InRange, Contents, Lookup, Storable, CanRunFlash, RunFlash, Insert, Looked, DeleteKey;
    IndexInRange(crc, t.flash);
    NoFlashStep(crc, t.flash);
    match op
    case OpSet(k, v, whole) =>
      if t.mode.OnlyFlash? {
        OneFlashStep(crc, t.flash, OpInsert(k, v, whole));
      }
    case OpGet(k) =>
      OneFlashStep(crc, t.flash, OpLookup(k));
      TwoFlashSteps(crc, t.flash, k);
    case OpEvictToQueue =>
    case OpFlush(whole) =>
      QueuedStorable(crc, t);
      OneFlashStep(crc, t.flash, OpInsert(t.queue[0].0, t.queue[0].1, whole));
    case OpFlash(step) => OneFlashStep(crc, t.flash, step);
  }

  /** In every run of the store its flash cache makes a run of its own. */
  lemma {:induction false} RunTrace(crc: Checksum, t: Tier, ops: seq<TierOp>)
    requires TierInv(crc, t) && CanRunTier(crc, t, ops)
    ensures CanRunFlash(crc, t.flash, FlashTrace(crc, t, ops))
    ensures RunFlash(crc, t.flash, FlashTrace(crc, t, ops)) == RunTier(crc, t, ops).flash
    decreases |ops|
  {
    hide FlashInv, QueueInv, CanStepTier, StepTier, Contents, FlashSteps, RunFlash, CanRunFlash, Storable;
    if ops == [] {
      NoFlashStep(crc, t.flash);
    } else {
      var u := StepTier(crc, t, ops[0]);
      StepKeepsTier(crc, t, ops[0]);
      StepTrace(crc, t, ops[0]);
      RunTrace(crc, u, ops[1..]);
      RunRefines(crc, t.flash, FlashSteps(crc, t, ops[0]));
      RunFlashJoin(crc, t.flash, FlashSteps(crc, t, ops[0]), FlashTrace(crc, u, ops[1..]));
    }
  }

  predicate NoFileEviction(ops: seq<TierOp>) {
    forall i :: 0 <= i < |ops| ==> !(ops[i].OpFlash? && ops[i].op.OpEvict?)
  }

  lemma {:induction false} TraceWithout(crc: Checksum, t: Tier, ops: seq<TierOp>)
    requires TierInv(crc, t) && CanRunTier(crc, t, ops) && NoFileEviction(ops)
    ensures NoEviction(FlashTrace(crc, t, ops))
    decreases |ops|
  {
    hide TierInv, CanStepTier, StepTier, Lookup;
    if ops != [] {
      StepKeepsTier(crc, t, ops[0]);
      TraceWithout(crc, StepTier(crc, t, ops[0]), ops[1..]);
      StepWithout(crc, t, ops[0]);
      BothWithout(FlashSteps(crc, t, ops[0]), FlashTrace(crc, StepTier(crc, t, ops[0]), ops[1..]));
    }
  }

  lemma StepWithout(crc: Checksum, t: Tier, op: TierOp)
    requires TierInv(crc, t) && CanStepTier(t, op) && !(op.OpFlash? && op.op.OpEvict?)
    ensures NoEviction(FlashSteps(crc, t, op))
  {
    hide TierInv, Lookup, CanStep;
  }

  lemma BothWithout(a: seq<FlashOp>, b: seq<FlashOp>)
    requires NoEviction(a) && NoEviction(b)
    ensures NoEviction(a + b)
  {
  }

  // ---------- What a restart shows ----------

  /** All that a run flushes, in order (or sets, in the mode without memory). */
  ghost function Flushed(crc: Checksum, t: Tier, ops: seq<TierOp>): seq<(Text, Text)>
    requires TierInv(crc, t) && CanRunTier(crc, t, ops)
  {
    Inserted(FlashTrace(crc, t, ops))
  }

  /** After any run of the store without file evictions, with all of every file on flash: a restart finds the first
      value ever flushed under a key, and nothing just if none was. What was only in memory is gone. */
  lemma RestartShowsFirstFlushed(crc: Checksum, mode: Mode, cfg: Config, ops: seq<TierOp>, found: seq<Found>, k: Text)
    requires cfg.buffered ==> cfg.w > 0
    requires (StartTierInv(crc, mode, cfg); CanRunTier(crc, StartTier(mode, cfg), ops)) && NoFileEviction(ops)
    requires (StartTierInv(crc, mode, cfg); FoundOn(RunTier(crc, StartTier(mode, cfg), ops).flash, found))
    ensures (StartTierInv(crc, mode, cfg); var u := OpenDir(cfg, found);
      && FlashInv(crc, u) && (k in u.index ==> InRange(u, k))
      && Lookup(u, crc, k) == FirstOf(Flushed(crc, StartTier(mode, cfg), ops), k))
  {
    hide QueueInv, StoreInv, Contents, RunTier, CanRunTier, RunFlash, CanRunFlash, FlashTrace, StartFlash, FoundOn,
         OpenDir, Lookup, InRange, FirstOf, Inserted, NoFileEviction, NoEviction, LiveValue, SizeExact;
    StartTierInv(crc, mode, cfg);
    StartInv(crc, cfg);
    var s := StartTier(mode, cfg);
    RunTrace(crc, s, ops);
    TraceWithout(crc, s, ops);
    RestartShowsFirst(crc, cfg, FlashTrace(crc, s, ops), found, k);
  }

  /** The same with file evictions: the first value flushed under the key into a file that is still there, in
      whatever order the directory lists these. */
  lemma AnyRestartShowsFlushed(crc: Checksum, mode: Mode, cfg: Config, ops: seq<TierOp>, dir: seq<(nat, seq<byte>)>,
                               all: seq<seq<Record>>, found: seq<Found>, k: Text)
    requires cfg.buffered ==> cfg.w > 0
    requires (StartTierInv(crc, mode, cfg); CanRunTier(crc, StartTier(mode, cfg), ops))
    requires (StartTierInv(crc, mode, cfg); ListsLive(RunTier(crc, StartTier(mode, cfg), ops).flash, dir, all))
    requires DirMatches(dir, all, found)
    ensures (StartTierInv(crc, mode, cfg); RunTrace(crc, StartTier(mode, cfg), ops); var u := OpenDir(cfg, found);
      var s := StartTier(mode, cfg);
      && FlashInv(crc, u) && (k in u.index ==> InRange(u, k))
      && Lookup(u, crc, k) == FirstOf(InOrder(RunPlaces(crc, s.flash, FlashTrace(crc, s, ops)), dir), k))
  {
    hide QueueInv, StoreInv, Contents, RunTier, CanRunTier, RunFlash, CanRunFlash, FlashTrace, StartFlash, ListsLive,
         OpenDir, Lookup, InRange, FirstOf, InOrder, RunPlaces, SizeExact, DirMatches;
    StartTierInv(crc, mode, cfg);
    StartInv(crc, cfg);
    var s := StartTier(mode, cfg);
    RunTrace(crc, s, ops);
    AnyRestartShows(crc, cfg, FlashTrace(crc, s, ops), dir, all, found, k);
  }

  // ---------- When nothing is forgotten ----------

  /** A shutdown that lost nothing: memory has been flushed and every file closed. */
  ghost predicate ShutDown(t: Tier) {
    t.mem.items == map[] && AllClosed(t.flash)
  }

  /** After a careful run that ends shut down: before the restart get replies with the last value set, or "empty" if
      there is none; afterwards it is the first value flushed. So the key answers alike if and only if these agree. */
  lemma RestartAnswersAlike(crc: Checksum, cfg: Config, ops: seq<TierOp>, found: seq<Found>, k: Text)
    requires (cfg.buffered ==> cfg.w > 0) && Storable(k, [])
    requires (StartTierInv(crc, MemLru, cfg); CarefulRun(crc, StartTier(MemLru, cfg), ops)) && NoFileEviction(ops)
    requires (StartTierInv(crc, MemLru, cfg); StartIntact(cfg); CarefulIsGuarded(crc, StartTier(MemLru, cfg), ops);
      var t := RunTier(crc, StartTier(MemLru, cfg), ops);
      ShutDown(t) && DirMatches(DiskDir(t.flash), Appended(t.flash), found))
    ensures (StartTierInv(crc, MemLru, cfg); StartIntact(cfg); CarefulIsGuarded(crc, StartTier(MemLru, cfg), ops);
      var s, t, u := StartTier(MemLru, cfg), RunTier(crc, StartTier(MemLru, cfg), ops), OpenDir(cfg, found);
      && (k in u.index ==> InRange(u, k))
      && (IndexInRange(crc, t.flash);
          (Lookup(u, crc, k) == GetReply(t, crc, k) <==>
           FirstOf(Flushed(crc, s, ops), k) == LastSet(ops, k, None))))
  {
    hide QueueInv, StoreInv, Contents, RunTier, CanRunTier, FlashTrace, StartFlash, CarefulRun, GuardedRun, DiskDir,
         Appended, DirMatches, OpenDir, Lookup, InRange, FirstOf, Inserted, NoFileEviction, LastSet, DroppedSince,
         AllIntact, AllClosed, GetReply, Storable, Flushed;
    StartTierInv(crc, MemLru, cfg);
    TierStartsIntact(cfg);
    var s := StartTier(MemLru, cfg);
    CarefulIsGuarded(crc, s, ops);
    var t := RunTier(crc, s, ops);
    RunTrace(crc, s, ops);
    RunKeepsTier(crc, s, ops);
    ClosedAreWhole(crc, t.flash);
    GetIsExact(crc, cfg, ops, k);
    NothingDropped(crc, s, ops, k);
    RestartShowsFirstFlushed(crc, MemLru, cfg, ops, found, k);
    NotPending(t.mem, k);
  }

  lemma NotPending(mem: LruState<Text, Text>, k: Text)
    requires mem.items == map[]
    ensures !IsPending(mem, k)
  {
  }

  lemma {:induction false} RunKeepsTier(crc: Checksum, t: Tier, ops: seq<TierOp>)
    requires TierInv(crc, t) && CanRunTier(crc, t, ops)
    ensures TierInv(crc, RunTier(crc, t, ops))
    decreases |ops|
  {
    hide TierInv, CanStepTier, StepTier;
    if ops != [] {
      StepKeepsTier(crc, t, ops[0]);
      RunKeepsTier(crc, StepTier(crc, t, ops[0]), ops[1..]);
    }
  }

  lemma {:induction false} NothingDropped(crc: Checksum, t: Tier, ops: seq<TierOp>, k: Text)
    requires TierInv(crc, t) && CanRunTier(crc, t, ops) && NoFileEviction(ops)
    ensures !DroppedSince(crc, t, ops, k, false)
    decreases |ops|
  {
    hide TierInv, CanStepTier, StepTier;
    if ops != [] {
      StepKeepsTier(crc, t, ops[0]);
      NothingDropped(crc, StepTier(crc, t, ops[0]), ops[1..], k);
    }
  }

  /** No get promotes, and no file is evicted. */
  predicate Plain(t: Tier, op: TierOp) {
    && (op.OpGet? ==> t.mode.OnlyFlash? || op.key in t.mem.items || op.key !in t.flash.index)
    && (op.OpFlash? ==> op.op.OpFile?)
  }

  ghost predicate PlainRun(crc: Checksum, t: Tier, ops: seq<TierOp>)
    requires TierInv(crc, t) && CanRunTier(crc, t, ops)
    decreases |ops|
  {
    ops == [] || (Plain(t, ops[0])
                  && (StepKeepsTier(crc, t, ops[0]); PlainRun(crc, StepTier(crc, t, ops[0]), ops[1..])))
  }

  predicate AllKeeping(ops: seq<FlashOp>) {
    forall i :: 0 <= i < |ops| ==> Keeping(ops[i])
  }

  lemma PlainKeeps(crc: Checksum, t: Tier, op: TierOp)
    requires TierInv(crc, t) && CanStepTier(t, op) && Plain(t, op)
    ensures AllKeeping(FlashSteps(crc, t, op)) && !(op.OpFlash? && op.op.OpEvict?)
  {
    hide QueueInv, StoreInv, CanStep, InRange, Contents;
    IndexInRange(crc, t.flash);
    if op.OpGet? && op.key !in t.flash.index {
      NotIndexed(crc, t.flash, op.key);
    }
    hide Lookup;
  }

  lemma BothKeep(a: seq<FlashOp>, b: seq<FlashOp>)
    requires AllKeeping(a) && AllKeeping(b)
    ensures AllKeeping(a + b)
  {
  }

  /** A plain run deletes and evicts nothing on flash. */
  lemma {:induction false} PlainTrace(crc: Checksum, t: Tier, ops: seq<TierOp>)
    requires TierInv(crc, t) && CanRunTier(crc, t, ops) && PlainRun(crc, t, ops)
    ensures AllKeeping(FlashTrace(crc, t, ops)) && NoFileEviction(ops)
    decreases |ops|
  {
    hide TierInv, CanStepTier, StepTier, FlashSteps, Plain, AllKeeping;
    if ops == [] {
      assert AllKeeping([]) by { NoneKeep(); }
    } else {
      var u := StepTier(crc, t, ops[0]);
      StepKeepsTier(crc, t, ops[0]);
      PlainKeeps(crc, t, ops[0]);
      PlainTrace(crc, u, ops[1..]);
      BothKeep(FlashSteps(crc, t, ops[0]), FlashTrace(crc, u, ops[1..]));
    }
  }

  lemma NoneKeep()
    ensures AllKeeping([])
  {
  }

  /** End to end: after a careful run without promotions and file evictions that ends shut down, a lookup of any key
      after a restart finds the last value that was set, and nothing for a key never set. */
  lemma NothingIsForgotten(crc: Checksum, cfg: Config, ops: seq<TierOp>, found: seq<Found>, k: Text)
    requires cfg.buffered ==> cfg.w > 0
    requires (StartTierInv(crc, MemLru, cfg); CarefulRun(crc, StartTier(MemLru, cfg), ops))
    requires (StartTierInv(crc, MemLru, cfg); StartIntact(cfg); CarefulIsGuarded(crc, StartTier(MemLru, cfg), ops);
      var t := RunTier(crc, StartTier(MemLru, cfg), ops);
      && PlainRun(crc, StartTier(MemLru, cfg), ops)
      && ShutDown(t) && DirMatches(DiskDir(t.flash), Appended(t.flash), found))
    ensures (StartTierInv(crc, MemLru, cfg); StartIntact(cfg); CarefulIsGuarded(crc, StartTier(MemLru, cfg), ops);
      var u := OpenDir(cfg, found);
      && (k in u.index ==> InRange(u, k)) && Lookup(u, crc, k) == LastSet(ops, k, None)
      && FirstOf(Flushed(crc, StartTier(MemLru, cfg), ops), k) == LastSet(ops, k, None))
  {
    hide QueueInv, StoreInv, Contents, RunTier, CanRunTier, FlashTrace, StartFlash, CarefulRun, GuardedRun, DiskDir,
         Appended, DirMatches, OpenDir, Lookup, InRange, FirstOf, Inserted, NoFileEviction, LastSet, DroppedSince,
         AllIntact, AllClosed, PlainRun, RunIdeal, View, AllKeeping, RunFlash, CanRunFlash, SizeExact, DirReady;
    StartTierInv(crc, MemLru, cfg);
    StartInv(crc, cfg);
    TierStartsIntact(cfg);
    var s := StartTier(MemLru, cfg);
    CarefulIsGuarded(crc, s, ops);
    RunIsIdeal(crc, s, ops);
    IdealIsLastSet(crc, map[], s, ops, k, None, false);
    RunTrace(crc, s, ops);
    PlainTrace(crc, s, ops);
    NothingDropped(crc, s, ops, k);
    var t := RunTier(crc, s, ops);
    ClosedAreWhole(crc, t.flash);
    AllAreKeeping(FlashTrace(crc, s, ops));
    RestartRestoresIndex(crc, cfg, FlashTrace(crc, s, ops), found);
    RestartShowsFirstFlushed(crc, MemLru, cfg, ops, found, k);
    FlashOnly(t);
    WholeLookup(crc, t.flash, OpenDir(cfg, found), FlashTrace(crc, s, ops), cfg, found, k);
  }

  lemma AllAreKeeping(ops: seq<FlashOp>)
    requires AllKeeping(ops)
    ensures (forall i :: 0 <= i < |ops| ==> Keeping(ops[i])) && NoEviction(ops)
  {
  }

  /** Over whole files a lookup gives what the contents hold. */
  lemma WholeLookup(crc: Checksum, t: Flash, u: Flash, ops: seq<FlashOp>, cfg: Config, found: seq<Found>, k: Text)
    requires (cfg.buffered ==> cfg.w > 0) && u == OpenDir(cfg, found)
    requires (StartInv(crc, cfg); CanRunFlash(crc, StartFlash(cfg), ops) && t == RunFlash(crc, StartFlash(cfg), ops))
    requires NoEviction(ops) && FoundOn(t, found) && Contents(u) == Contents(t)
    ensures FlashInv(crc, u) && (k in u.index ==> InRange(u, k)) && Lookup(u, crc, k) == At(Contents(t), k)
  {
    hide StoreInv, Contents, RunFlash, CanRunFlash, StartFlash, FoundOn, OpenDir, Lookup, InRange, FirstOf, Inserted,
         LiveValue, SizeExact, NoEviction;
    RestartShowsFirst(crc, cfg, ops, found, k);
  }

  // ---------- Shutdown by evict-all and drain ----------

  /** The flash cache after evictAllCommand and a full drain. */
  ghost function Emptied(crc: Checksum, t: Tier): Flash
    requires TierInv(crc, t) && FlashIdle(t)
  {
    EvictAllEffect(crc, t);
    DrainQueue(crc, EvictAll(crc, t)).flash
  }

  lemma InsertKeeps(crc: Checksum, f: Flash, e: (Text, Text))
    requires FlashInv(crc, f) && Pristine(f) && CurIdle(f) && Storable(e.0, e.1)
    ensures Pristine(InsertKept(crc, f, e)) && InsertKept(crc, f, e).cfg == f.cfg
  {
    hide StoreInv, IndexAll, Insert, Pristine;
    StepPristine(crc, f, OpInsert(e.0, e.1));
    StepKeepsConfig(crc, f, OpInsert(e.0, e.1));
  }

  lemma {:induction false} InsertQueueKeeps(crc: Checksum, f: Flash, queue: seq<(Text, Text)>)
    requires FlashInv(crc, f) && CurIdle(f) && AllStorable(queue) && Pristine(f)
    ensures FlashInv(crc, InsertQueue(crc, f, queue)) && Pristine(InsertQueue(crc, f, queue))
    ensures InsertQueue(crc, f, queue).cfg == f.cfg
    decreases |queue|
  {
    hide StoreInv, Pristine, Storable, InsertKept;
    if queue != [] {
      InsertKeeps(crc, f, queue[0]);
      InsertQueueKeeps(crc, InsertKept(crc, f, queue[0]), queue[1..]);
    }
  }

  lemma EmptiedKeeps(crc: Checksum, t: Tier)
    requires TierInv(crc, t) && FlashIdle(t) && Pristine(t.flash)
    ensures FlashInv(crc, Emptied(crc, t)) && Pristine(Emptied(crc, t)) && Emptied(crc, t).cfg == t.flash.cfg
  {
    hide StoreInv, QueueInv, Pristine, InsertQueue;
    EvictAllEffect(crc, t);
    var v := EvictAll(crc, t);
    DrainEffect(crc, v);
    QueueStorable(crc, v);
    InsertQueueKeeps(crc, v.flash, v.queue);
  }

  predicate OnlyFiles(ops: seq<FlashOp>) {
    forall i :: 0 <= i < |ops| ==> ops[i].OpFile?
  }

  lemma {:induction false} FilesKeepMap(crc: Checksum, m: map<Text, Text>, f: Flash, ops: seq<FlashOp>)
    requires FlashInv(crc, f) && CanRunFlash(crc, f, ops) && OnlyFiles(ops)
    ensures RunMap(crc, m, f, ops) == m
    decreases |ops|
  {
    hide FlashInv, CanStep, Contents, StepFlash;
    if ops != [] {
      StepRefines(crc, f, ops[0]);
      FilesKeepMap(crc, m, StepFlash(crc, f, ops[0]), ops[1..]);
    }
  }

  lemma FilesAreKeeping(ops: seq<FlashOp>)
    requires OnlyFiles(ops)
    ensures forall i :: 0 <= i < |ops| ==> Keeping(ops[i])
  {
  }

  /** Evict all, drain, close and restart: what memory and flash showed together is what flash shows afterwards, if
      until then no key was deleted from the index (by promotion) or evicted with a file, and in the end all of
      every file is on flash. */
  lemma ShutdownRestart(crc: Checksum, t: Tier, closing: seq<FlashOp>, found: seq<Found>)
    requires TierInv(crc, t) && FlashIdle(t) && t.mode.MemLru? && Separate(t) && Pristine(t.flash)
    requires OnlyFiles(closing)
    requires (EmptiedKeeps(crc, t); CanRunFlash(crc, Emptied(crc, t), closing))
    requires (EmptiedKeeps(crc, t); var v := RunFlash(crc, Emptied(crc, t), closing); NoneCut(v) && FoundOn(v, found))
    ensures var u := OpenDir(t.flash.cfg, found); FlashInv(crc, u) && NothingLost(u) && Contents(u) == View(t)
  {
    hide StoreInv, QueueInv, Pristine, Contents, View, Separate, OpenDir, NothingLost, EvictAll, DrainQueue, HoldsAll,
         RunFlash, CanRunFlash, OnlyFiles, NoneCut, DirMatches, DiskDir, Appended, Keeping;
    EmptiedKeeps(crc, t);
    ShutdownKeepsAll(crc, t);
    var e := Emptied(crc, t);
    var v := RunFlash(crc, e, closing);
    FilesAreKeeping(closing);
    RunRefines(crc, e, closing);
    RunPristine(crc, e, closing);
    RunKeepsCfg(crc, e, closing);
    FilesKeepMap(crc, Contents(e), e, closing);
    DrainedHoldsAll(v);
    RestoredFrom(crc, v, DiskDir(v), found);
  }
}
