/** When nothing is lost: a condition on each step that keeps every record readable. */
module NoLoss {
  import opened Bytes
  import opened CacheRecord
  import opened Layout
  import opened FileSpec
  import opened FileRuns
  import opened FileLoss
  import opened Lru
  import opened FlashSpec
  import opened FlashRefinement
  import opened FlashRuns
  import opened TierSpec
  import opened TierRuns

  // ---------- The flash cache ----------

  ghost predicate AllIntact(f: Flash) {
    forall id :: id in f.files.items ==> Intact(f.files.items[id])
  }

  /** An undisturbed append is safe if it fills its file safely; one that has only begun decides nothing. */
  ghost predicate InsertsSafely(crc: Checksum, f: Flash, key: Text, val: Text, whole: bool)
    requires FlashInv(crc, f) && Storable(key, val)
  {
    RolledIsOpen(crc, f);
    OpenHasBuffers(crc, Rolled(f));
    whole ==> FillsSafely(Rolled(f).files.items[Rolled(f).cur], MakeRecord(crc, key, val))
  }

  ghost predicate SafeOp(crc: Checksum, f: Flash, op: FlashOp)
    requires FlashInv(crc, f) && CanStep(f, op)
  {
    match op
    case OpInsert(key, val, whole) => InsertsSafely(crc, f, key, val, whole)
    case OpFile(id, step) =>
      var s := f.files.items[id];
      (step.SetEof? ==> SetsEofSafely(s)) && (step.Seal? ==> SealsSafely(s))
    case _ => true
  }

  lemma FileOkInv(crc: Checksum, f: Flash, id: nat)
    requires FlashInv(crc, f) && id in f.files.items
    ensures FileInv(f.files.items[id])
  {
  }

  lemma IntactNothingLost(crc: Checksum, f: Flash)
    requires FlashInv(crc, f) && AllIntact(f)
    ensures NothingLost(f)
  {
    forall id | id in f.files.items && f.files.items[id].pc.Exited?
      ensures f.files.items[id].disk == f.files.items[id].Stream()
    {
      ExitedIntact(f.files.items[id]);
    }
  }

  lemma ExitedIntact(s: FileState)
    requires FileInv(s) && Intact(s) && s.pc.Exited?
    ensures s.disk == s.Stream()
  {
  }

  lemma InsertIntact(crc: Checksum, f: Flash, key: Text, val: Text, whole: bool)
    requires FlashInv(crc, f) && AllIntact(f) && Storable(key, val) && CurIdle(f)
    ensures AllIntact(Insert(f, crc, key, val, whole)) <==> InsertsSafely(crc, f, key, val, whole)
  {
    hide StoreInv, Contents, Append, FillsSafely, MakeRecord, Rolled, Intact;
    var g := Rolled(f);
    RolledIsOpen(crc, f);
    OpenHasBuffers(crc, g);
    var s, r := g.files.items[g.cur], MakeRecord(crc, key, val);
    FileOkInv(crc, g, g.cur);
    RolledIntact(f);
    if whole {
      AppendIntact(s, r);
    } else {
      StepIntact(s, Put(r));
    }
    SetIntact(g, g.cur, Taken(s, r, whole));
  }

  lemma SetIntact(f: Flash, id: nat, s: FileState)
    requires AllIntact(f) && id in f.files.items
    ensures AllIntact(SetFile(f, id, s)) <==> Intact(s)
  {
    hide Intact;
    assert id in SetFile(f, id, s).files.items && SetFile(f, id, s).files.items[id] == s;
  }

  lemma RolledIntact(f: Flash)
    requires AllIntact(f) && f.cur in f.files.items
    ensures AllIntact(Rolled(f))
  {
  }

  lemma PopIntact(f: Flash)
    requires AllIntact(f)
    ensures AllIntact(EvictOne(f))
  {
    hide Intact, KeySet;
  }

  /** A step leaves every file intact exactly if it meets its condition. */
  lemma FlashStepIntact(crc: Checksum, f: Flash, op: FlashOp)
    requires FlashInv(crc, f) && CanStep(f, op) && AllIntact(f)
    ensures AllIntact(StepFlash(crc, f, op)) <==> SafeOp(crc, f, op)
  {
    hide Contents, Intact, Storable, LruInv, IndexOk, Apply, Enabled, SetsEofSafely, SealsSafely, InsertsSafely;
    match op
    case OpInsert(key, val, whole) => InsertIntact(crc, f, key, val, whole);
    case OpFile(id, step) =>
      FileOkInv(crc, f, id);
      FileStepIntact(f.files.items[id], step);
      SetIntact(f, id, Apply(f.files.items[id], step));
    case OpEvict => PopIntact(f);
    case _ =>
  }

  lemma FileStepIntact(s: FileState, op: FileOp)
    requires FileInv(s) && Intact(s) && Enabled(s, op)
    ensures Intact(Apply(s, op)) <==> (op.SetEof? ==> SetsEofSafely(s)) && (op.Seal? ==> SealsSafely(s))
  {
    if op.SetEof? {
      SetEofIntact(s);
    } else if op.Seal? {
      IntactNotCut(s);
      SealIntact(s);
    } else {
      StepIntact(s, op);
    }
    hide FileInv, Intact;
  }

  /** No file that takes no more records may be spoilt by what is still to come. */
  ghost predicate NoneMaySpoil(f: Flash) {
    forall id :: id in f.files.items && f.files.items[id].buffered && f.files.items[id].eof ==>
                   !MaySpoil(f.files.items[id])
  }

  /** No file of a cache that began with an empty directory is cut. */
  ghost predicate NoneCut(f: Flash) {
    forall id :: id in f.files.items ==> !f.files.items[id].cut
  }

  lemma StepNoneCut(crc: Checksum, f: Flash, op: FlashOp)
    requires FlashInv(crc, f) && CanStep(f, op) && NoneCut(f)
    ensures NoneCut(StepFlash(crc, f, op))
  {
    hide Contents, FileOk, IndexOk, EncodeAll, KeySet;
  }

  lemma IntactMeans(crc: Checksum, f: Flash)
    requires FlashInv(crc, f) && NoneCut(f)
    ensures AllIntact(f) <==> NoneMaySpoil(f)
  {
    hide FlashInv, MaySpoil;
    forall id | id in f.files.items
      ensures Intact(f.files.items[id]) <==>
              (f.files.items[id].buffered && f.files.items[id].eof ==> !MaySpoil(f.files.items[id]))
    {
      FileOkInv(crc, f, id);
      if f.files.items[id].buffered && f.files.items[id].eof {
        IntactIsExact(f.files.items[id]);
      }
    }
  }

  /** The conditions are exact over all that may still happen: while no file is in danger, a step meets its condition
      if and only if after it no file is. */
  lemma SafeOpIsExact(crc: Checksum, f: Flash, op: FlashOp)
    requires FlashInv(crc, f) && CanStep(f, op) && NoneMaySpoil(f) && NoneCut(f)
    ensures SafeOp(crc, f, op) <==> NoneMaySpoil(StepFlash(crc, f, op))
  {
    hide FlashInv, StepFlash, CanStep, SafeOp, NoneMaySpoil, AllIntact, NoneCut, Contents;
    IntactMeans(crc, f);
    FlashStepIntact(crc, f, op);
    StepRefines(crc, f, op);
    StepNoneCut(crc, f, op);
    IntactMeans(crc, StepFlash(crc, f, op));
  }

  lemma IntactNotCut(s: FileState)
    requires Intact(s)
    ensures !s.cut
  {
  }

  ghost predicate SafeFlashRun(crc: Checksum, f: Flash, ops: seq<FlashOp>)
    requires FlashInv(crc, f) && CanRunFlash(crc, f, ops)
    decreases |ops|
  {
    ops == [] || (SafeOp(crc, f, ops[0])
                  && (StepRefines(crc, f, ops[0]); SafeFlashRun(crc, StepFlash(crc, f, ops[0]), ops[1..])))
  }

  lemma {:induction false} RunIntact(crc: Checksum, f: Flash, ops: seq<FlashOp>)
    requires FlashInv(crc, f) && CanRunFlash(crc, f, ops) && AllIntact(f) && SafeFlashRun(crc, f, ops)
    ensures AllIntact(RunFlash(crc, f, ops))
    decreases |ops|
  {
    hide StoreInv, AllIntact, CanStep, StepFlash, SafeOp, Contents;
    if ops != [] {
      StepRefines(crc, f, ops[0]);
      FlashStepIntact(crc, f, ops[0]);
      RunIntact(crc, StepFlash(crc, f, ops[0]), ops[1..]);
    }
  }

  lemma StartIntact(cfg: Config)
    ensures AllIntact(StartFlash(cfg))
  {
  }

  /** The flash cache is a map: if every append that fills a file, and every closing, is safe, then
      in every run, and whatever has been written, closed or evicted meanwhile, lookup answers
      exactly as the insert-if-absent map does. */
  lemma LookupIsExact(crc: Checksum, cfg: Config, ops: seq<FlashOp>, key: Text)
    requires cfg.buffered ==> cfg.w > 0
    requires (StartInv(crc, cfg); CanRunFlash(crc, StartFlash(cfg), ops) && SafeFlashRun(crc, StartFlash(cfg), ops))
    ensures (StartInv(crc, cfg);
      var t, m := RunFlash(crc, StartFlash(cfg), ops), RunMap(crc, map[], StartFlash(cfg), ops);
      && (key in t.index ==> InRange(t, key))
      && Lookup(t, crc, key) == if key in m then Some(m[key]) else None)
  {
    hide Contents, CanRunFlash, RunFlash, RunMap, StoreInv, NothingLost, InRange, Lookup, AllIntact, StartFlash,
         SafeFlashRun, SizeExact;
    StartInv(crc, cfg);
    StartIntact(cfg);
    RunRefines(crc, StartFlash(cfg), ops);
    RunIntact(crc, StartFlash(cfg), ops);
    IntactNothingLost(crc, RunFlash(crc, StartFlash(cfg), ops));
    LookupInEveryRun(crc, cfg, ops, key);
  }

  /** In such a run no writer gets stuck behind the last buffer: until it has exited, with all of the file on
      flash, there is a step to take; or it has been forgotten. */
  lemma WritersGoOn(crc: Checksum, cfg: Config, ops: seq<FlashOp>, id: nat)
    requires cfg.buffered ==> cfg.w > 0
    requires (StartInv(crc, cfg); CanRunFlash(crc, StartFlash(cfg), ops) && SafeFlashRun(crc, StartFlash(cfg), ops))
    ensures (StartInv(crc, cfg);
      var t := RunFlash(crc, StartFlash(cfg), ops);
      id in t.files.items && t.files.items[id].eof && t.files.items[id].buffered ==>
        var s := t.files.items[id];
        || (s.pc.Exited? && s.disk == s.Stream())
        || (exists op :: (WriterOp(op) || PendingOp(op)) && Enabled(s, op))
        || Stalled(s))
  {
    hide Contents, CanRunFlash, RunFlash, StoreInv, StartFlash, SafeFlashRun, SizeExact, Enabled;
    StartInv(crc, cfg);
    StartIntact(cfg);
    RunRefines(crc, StartFlash(cfg), ops);
    RunIntact(crc, StartFlash(cfg), ops);
    var t := RunFlash(crc, StartFlash(cfg), ops);
    if id in t.files.items && t.files.items[id].eof && t.files.items[id].buffered {
      FileOkInv(crc, t, id);
      IntactGoesOn(t.files.items[id]);
    }
  }

  // ---------- The tiered store ----------

  ghost predicate SafeTierOp(crc: Checksum, t: Tier, op: TierOp)
    requires TierInv(crc, t) && CanStepTier(t, op)
  {
    match op
    case OpSet(k, v, whole) => t.mode.OnlyFlash? ==> InsertsSafely(crc, t.flash, k, v, whole)
    case OpFlush(whole) => QueuedStorable(crc, t); InsertsSafely(crc, t.flash, t.queue[0].0, t.queue[0].1, whole)
    case OpFlash(step) => SafeOp(crc, t.flash, step)
    case _ => true
  }

  lemma StepTierIntact(crc: Checksum, t: Tier, op: TierOp)
    requires TierInv(crc, t) && CanStepTier(t, op) && AllIntact(t.flash) && SafeTierOp(crc, t, op)
    ensures AllIntact(StepTier(crc, t, op).flash)
  {
    hide Intact, StoreInv, QueueInv, Contents, Storable, CanStep, InRange, Lookup, InsertsSafely, SafeOp;
    IndexInRange(crc, t.flash);
    match op
    case OpSet(k, v, whole) =>
      if t.mode.OnlyFlash? {
        InsertIntact(crc, t.flash, k, v, whole);
      }
    case OpFlush(whole) =>
      QueuedStorable(crc, t);
      InsertIntact(crc, t.flash, t.queue[0].0, t.queue[0].1, whole);
    case OpFlash(step) => FlashStepIntact(crc, t.flash, step);
    case _ =>
  }

  lemma IntactGetSafe(crc: Checksum, t: Tier, k: Text)
    requires TierInv(crc, t) && AllIntact(t.flash)
    ensures k in t.flash.index ==> t.flash.index[k].cacheId in t.flash.files.items
    ensures GetSafe(t, k)
  {
    hide AllIntact, QueueInv, Retained, StoreInv, NothingLost;
    IndexNamesFiles(crc, t.flash, k);
    IntactNothingLost(crc, t.flash);
    if k in t.flash.index {
      NothingLostRetains(crc, t.flash, k);
    }
  }

  /** Sets only keys that flash does not hold, touches no pending key, and loses no tail. */
  ghost predicate CarefulRun(crc: Checksum, t: Tier, ops: seq<TierOp>)
    requires TierInv(crc, t)
    decreases |ops|
  {
    ops == [] || (CanStepTier(t, ops[0]) && (ops[0].OpSet? ==> ops[0].key !in t.flash.index)
                  && SafeTierOp(crc, t, ops[0])
                  && (StepKeepsTier(crc, t, ops[0]); CarefulRun(crc, StepTier(crc, t, ops[0]), ops[1..])))
  }

  lemma {:induction false} CarefulIsGuarded(crc: Checksum, t: Tier, ops: seq<TierOp>)
    requires TierInv(crc, t) && t.mode.MemLru? && AllIntact(t.flash) && CarefulRun(crc, t, ops)
    ensures GuardedRun(crc, t, ops) && CanRunTier(crc, t, ops)
    ensures TierInv(crc, RunTier(crc, t, ops)) && AllIntact(RunTier(crc, t, ops).flash)
    decreases |ops|
  {
    if ops != [] {
      if ops[0].OpGet? {
        IntactGetSafe(crc, t, ops[0].key);
      }
      StepKeepsTier(crc, t, ops[0]);
      StepKeepsMode(crc, t, ops[0]);
      StepTierIntact(crc, t, ops[0]);
      hide TierInv, AllIntact, CanStepTier, StepTier, SafeTierOp, GetSafe;
      CarefulIsGuarded(crc, StepTier(crc, t, ops[0]), ops[1..]);
    }
  }

  lemma StepKeepsMode(crc: Checksum, t: Tier, op: TierOp)
    requires TierInv(crc, t) && CanStepTier(t, op)
    ensures StepTier(crc, t, op).mode == t.mode
  {
    hide QueueInv, StoreInv, CanStep, InRange, Lookup;
    IndexInRange(crc, t.flash);
  }

  /** After any careful run a get of a key that is not pending replies with the last value set, or
      "empty" if there is none or a file eviction has dropped it since. */
  lemma GetIsExact(crc: Checksum, cfg: Config, ops: seq<TierOp>, k: Text)
    requires cfg.buffered ==> cfg.w > 0
    requires (StartTierInv(crc, MemLru, cfg); CarefulRun(crc, StartTier(MemLru, cfg), ops))
    ensures (StartTierInv(crc, MemLru, cfg); StartIntact(cfg); CarefulIsGuarded(crc, StartTier(MemLru, cfg), ops);
      var t := RunTier(crc, StartTier(MemLru, cfg), ops);
      Storable(k, []) && !IsPending(t.mem, k) ==>
        (IndexInRange(crc, t.flash);
         GetReply(t, crc, k) ==
           if DroppedSince(crc, StartTier(MemLru, cfg), ops, k, false) then None else LastSet(ops, k, None)))
  {
    hide QueueInv, StoreInv, RunTier, CanRunTier, GuardedRun, CarefulRun, DroppedSince, LastSet, StartTier, View,
         AllIntact, GetSafe, Lookup, InRange;
    var s := StartTier(MemLru, cfg);
    StartTierInv(crc, MemLru, cfg);
    TierStartsIntact(cfg);
    CarefulIsGuarded(crc, s, ops);
    GetReturnsLastSet(crc, cfg, ops, k);
    IntactGetSafe(crc, RunTier(crc, s, ops), k);
    TierStaysLru(crc, s, ops);
  }

  lemma TierStartsIntact(cfg: Config)
    ensures StartTier(MemLru, cfg).mode == MemLru && AllIntact(StartTier(MemLru, cfg).flash)
  {
    StartIntact(cfg);
    hide AllIntact, StartFlash;
  }

  lemma {:induction false} TierStaysLru(crc: Checksum, t: Tier, ops: seq<TierOp>)
    requires TierInv(crc, t) && CanRunTier(crc, t, ops)
    ensures RunTier(crc, t, ops).mode == t.mode
    decreases |ops|
  {
    hide TierInv, CanStepTier, StepTier;
    if ops != [] {
      StepKeepsTier(crc, t, ops[0]);
      StepKeepsMode(crc, t, ops[0]);
      TierStaysLru(crc, StepTier(crc, t, ops[0]), ops[1..]);
    }
  }
}
