/** What a client of the tiered store can rely on in every run. */
module TierRuns {
  import opened Bytes
  import opened CacheRecord
  import opened Layout
  import opened FileSpec
  import opened FileReads
  import opened Lru
  import opened FlashSpec
  import opened FlashRefinement
  import opened FlashRuns
  import opened TierSpec

  // ---------- The invariant of all runs ----------

  lemma CacheAddQueue(mem: LruState<Text, Text>, queue: seq<(Text, Text)>, k: Text, v: Text)
    requires QueueInv(mem, queue) && !IsPending(mem, k)
    ensures QueueInv(CacheAdd(mem, k, v), queue)
    ensures CacheAdd(mem, k, v).items == mem.items[k := v]
  {
    WithoutNoDup(mem.order, k);
    var m := CacheAdd(mem, k, v);
    assert forall x :: x in m.order <==> x in mem.order || x == k;
    assert forall x :: IsPending(m, x) <==> IsPending(mem, x);
  }

  lemma TouchQueue(mem: LruState<Text, Text>, queue: seq<(Text, Text)>, k: Text)
    requires QueueInv(mem, queue)
    ensures QueueInv(LruTouch(mem, k), queue) && LruTouch(mem, k).items == mem.items
  {
    WithoutNoDup(mem.order, k);
    var m := LruTouch(mem, k);
    assert forall x :: x in m.order <==> x in mem.order;
    assert forall x :: IsPending(m, x) <==> IsPending(mem, x);
  }

  lemma EvictQueue(mem: LruState<Text, Text>, queue: seq<(Text, Text)>)
    requires QueueInv(mem, queue) && mem.order != []
    ensures Oldest(mem) in mem.items
    ensures QueueInv(LruEvict(mem), queue + [(Oldest(mem), mem.items[Oldest(mem)])])
  {
    var k, m := Oldest(mem), LruEvict(mem);
    var q := queue + [(k, mem.items[k])];
    assert forall x :: x in mem.order ==> x in m.order || x == k;
    assert k !in m.order;
    assert forall x :: IsPending(m, x) <==> IsPending(mem, x) || x == k;
    assert forall i :: 0 <= i < |queue| ==> IsPending(mem, queue[i].0) && q[i] == queue[i];
    assert q[|queue|].0 == k;
  }

  lemma FlushQueue(mem: LruState<Text, Text>, queue: seq<(Text, Text)>)
    requires QueueInv(mem, queue) && queue != []
    ensures QueueInv(LruErase(mem, queue[0].0), queue[1..])
    ensures queue[0].0 in mem.items && mem.items[queue[0].0] == queue[0].1
  {
    var k, rest := queue[0].0, queue[1..];
    var m := LruErase(mem, k);
    assert IsPending(mem, k);
    assert forall x :: IsPending(m, x) <==> IsPending(mem, x) && x != k;
    assert forall i :: 0 <= i < |rest| ==> rest[i] == queue[i + 1];
    forall x | IsPending(m, x)
      ensures exists i :: 0 <= i < |rest| && rest[i].0 == x
    {
      var i :| 0 <= i < |queue| && queue[i].0 == x;
      assert rest[i - 1].0 == x;
    }
  }

  /** A value that can still be fetched from flash may be stored again under its key. */
  lemma ShownStorable(crc: Checksum, f: Flash, k: Text)
    requires FlashInv(crc, f) && k in f.index
    ensures k in Contents(f) && InRange(f, k)
    ensures Retained(f, k) ==> Storable(k, Contents(f)[k])
  {
    hide InRange, Shown, LruInv, EncodeAll, WriterInv, BufferInv, RecordsSound, Offset;
    IndexInRange(crc, f);
    var i := EntryShown(crc, f, k);
    SoundRecord(crc, f.files.items[f.index[k].cacheId], i);
  }

  /** What get finds on flash. */
  lemma FlashReply(crc: Checksum, t: Tier, k: Text)
    requires TierInv(crc, t) && !(t.mode.MemLru? && k in t.mem.items)
    ensures k in t.flash.index ==> InRange(t.flash, k)
    ensures GetReply(t, crc, k) ==
              if k !in Contents(t.flash) then None
              else if Retained(t.flash, k) then Some(Contents(t.flash)[k])
              else Some([])
    ensures GetReply(t, crc, k).Some? && Storable(k, []) ==> Storable(k, GetReply(t, crc, k).value)
  {
    hide QueueInv, StoreInv, InRange, Retained, Contents, Lookup, Storable;
    LookupRefines(crc, t.flash, k);
    IndexInRange(crc, t.flash);
    if k in t.flash.index {
      ShownStorable(crc, t.flash, k);
    }
  }

  lemma PromoteFlash(crc: Checksum, f: Flash, k: Text)
    requires FlashInv(crc, f)
    ensures var g := DeleteKey(Looked(f, k), k);
      FlashInv(crc, g) && Contents(g) == Contents(f) - {k} && g.index == f.index - {k}
  {
    hide StoreInv, Contents;
    LookedKeeps(crc, f, k);
    FewerEntries(crc, Looked(f, k), {k});
  }

  lemma StepKeepsTier(crc: Checksum, t: Tier, op: TierOp)
    requires TierInv(crc, t) && CanStepTier(t, op)
    ensures TierInv(crc, StepTier(crc, t, op))
  {
    hide QueueInv, StoreInv, InRange, Retained, Contents, Lookup, Storable, CanStep;
    IndexInRange(crc, t.flash);
    match op
    case OpSet(k, v, whole) =>
      if t.mode.OnlyFlash? {
        InsertRefines(crc, t.flash, k, v, whole);
      } else {
        CacheAddQueue(t.mem, t.queue, k, v);
      }
    case OpGet(k) =>
      if t.mode.MemLru? && k in t.mem.items {
        TouchQueue(t.mem, t.queue, k);
      } else {
        FlashReply(crc, t, k);
        LookedKeeps(crc, t.flash, k);
        PromoteFlash(crc, t.flash, k);
        CacheAddQueue(t.mem, t.queue, k, if GetReply(t, crc, k).Some? then GetReply(t, crc, k).value else []);
      }
    case OpEvictToQueue => EvictQueue(t.mem, t.queue);
    case OpFlush(whole) =>
      FlushQueue(t.mem, t.queue);
      QueuedStorable(crc, t);
      InsertRefines(crc, t.flash, t.queue[0].0, t.queue[0].1, whole);
    case OpFlash(step) => StepRefines(crc, t.flash, step);
  }

  lemma QueuedStorable(crc: Checksum, t: Tier)
    requires TierInv(crc, t) && t.queue != []
    ensures FlashInv(crc, t.flash) && Storable(t.queue[0].0, t.queue[0].1)
  {
    FlushQueue(t.mem, t.queue);
  }

  // ---------- One step, exactly ----------

  lemma SetEffect(crc: Checksum, t: Tier, k: Text, v: Text, whole: bool)
    requires TierInv(crc, t) && CanStepTier(t, OpSet(k, v, whole))
    ensures View(SetCommand(t, crc, k, v, whole)) ==
              if t.mode.OnlyFlash? && k in View(t) then View(t) else View(t)[k := v]
  {
    hide StoreInv, QueueInv, Contents, Storable, Insert, LruInsert, LruTouch;
    if t.mode.OnlyFlash? {
      InsertRefines(crc, t.flash, k, v, whole);
    } else {
      CacheAddQueue(t.mem, t.queue, k, v);
    }
  }

  /** The value that get will reply with can still be fetched. */
  predicate GetSafe(t: Tier, k: Text)
    requires k in t.flash.index ==> t.flash.index[k].cacheId in t.flash.files.items
  {
    (t.mode.MemLru? && k in t.mem.items) || k !in t.flash.index || Retained(t.flash, k)
  }

  lemma IndexNamesFiles(crc: Checksum, f: Flash, k: Text)
    requires FlashInv(crc, f)
    ensures k in f.index ==> f.index[k].cacheId in f.files.items
  {
  }

  /** get replies with the value shown, from memory or flash, and moving it to memory changes nothing. */
  lemma GetEffect(crc: Checksum, t: Tier, k: Text)
    requires TierInv(crc, t) && !IsPending(t.mem, k)
    ensures k in t.flash.index ==> InRange(t.flash, k)
    ensures GetSafe(t, k) ==>
              && GetReply(t, crc, k) == (if k in View(t) then Some(View(t)[k]) else None)
              && View(GetCommand(t, crc, k)) == View(t)
  {
    hide StoreInv, QueueInv, Contents, Storable, Retained, InRange, Lookup;
    IndexInRange(crc, t.flash);
    if t.mode.MemLru? && k in t.mem.items {
      TouchQueue(t.mem, t.queue, k);
    } else {
      FlashReply(crc, t, k);
      LookedKeeps(crc, t.flash, k);
      PromoteFlash(crc, t.flash, k);
      CacheAddQueue(t.mem, t.queue, k, if GetReply(t, crc, k).Some? then GetReply(t, crc, k).value else []);
    }
  }

  /** A flush leaves the store as it was exactly when the key has no entry on flash, or one with the
      same value; otherwise the older value on flash comes back. */
  lemma FlushEffect(crc: Checksum, t: Tier, whole: bool)
    requires TierInv(crc, t) && t.queue != [] && FlashIdle(t)
    ensures Storable(t.queue[0].0, t.queue[0].1)
    ensures var (k, v) := t.queue[0];
      && View(FlushOne(t, crc, whole)) == View(t)[k := if k in Contents(t.flash) then Contents(t.flash)[k] else v]
      && (View(FlushOne(t, crc, whole)) == View(t) <==> k in Contents(t.flash) ==> Contents(t.flash)[k] == v)
  {
    hide StoreInv, QueueInv, Contents, Storable;
    QueuedStorable(crc, t);
    FlushQueue(t.mem, t.queue);
    InsertRefines(crc, t.flash, t.queue[0].0, t.queue[0].1, whole);
    var (k, v) := t.queue[0];
    assert View(t)[k] == v;
    assert View(FlushOne(t, crc, whole))[k] == if k in Contents(t.flash) then Contents(t.flash)[k] else v;
  }

  /** What a step of flash does to the store: evictions drop keys that are not in memory. */
  lemma FlashEffect(crc: Checksum, t: Tier, step: FlashOp)
    requires TierInv(crc, t) && CanStepTier(t, OpFlash(step))
    ensures View(t.(flash := StepFlash(crc, t.flash, step))) ==
              if step.OpEvict? then View(t) - (PoppedKeys(t.flash) - t.mem.items.Keys) else View(t)
  {
    hide StoreInv, QueueInv, Contents, Storable, CanStep;
    StepRefines(crc, t.flash, step);
  }

  // ---------- Runs that set a key only while flash does not hold it ----------

  ghost predicate Guarded(crc: Checksum, t: Tier, op: TierOp)
    requires TierInv(crc, t)
  {
    && t.mode.MemLru? && CanStepTier(t, op)
    && (op.OpSet? ==> op.key !in t.flash.index)
    && (op.OpGet? ==> (IndexNamesFiles(crc, t.flash, op.key); GetSafe(t, op.key)))
  }

  /** No key is both in memory and on flash. */
  ghost predicate Separate(t: Tier) {
    t.mem.items.Keys !! t.flash.index.Keys
  }

  /** The keys whose index entry an operation drops with an evicted file. */
  function DroppedKeys(t: Tier, op: TierOp): set<Text> {
    if op.OpFlash? && op.op.OpEvict? then PoppedKeys(t.flash) * t.flash.index.Keys else {}
  }

  /** The ideal store: the last value set, until a file eviction drops it. */
  function StepIdeal(m: map<Text, Text>, t: Tier, op: TierOp): map<Text, Text> {
    if op.OpSet? then m[op.key := op.val] else m - DroppedKeys(t, op)
  }

  lemma ContentsKeys(crc: Checksum, f: Flash)
    requires FlashInv(crc, f)
    ensures Contents(f).Keys == f.index.Keys
  {
    IndexInRange(crc, f);
  }

  lemma StepSeparate(crc: Checksum, t: Tier, op: TierOp)
    requires TierInv(crc, t) && Separate(t) && Guarded(crc, t, op)
    ensures Separate(StepTier(crc, t, op))
  {
    hide StoreInv, QueueInv, Contents, Storable, CanStep, Retained, InRange, Lookup;
    IndexInRange(crc, t.flash);
    StepKeepsTier(crc, t, op);
    ContentsKeys(crc, t.flash);
    ContentsKeys(crc, StepTier(crc, t, op).flash);
    match op
    case OpSet(k, v, _) => CacheAddQueue(t.mem, t.queue, k, v);
    case OpGet(k) =>
      FlashOfGet(crc, t, k);
    case OpEvictToQueue =>
    case OpFlush(whole) =>
      FlushEffect(crc, t, whole);
      InsertRefines(crc, t.flash, t.queue[0].0, t.queue[0].1, whole);
    case OpFlash(step) => StepRefines(crc, t.flash, step);
  }

  /** A get moves at most its own key, from flash to memory. */
  lemma FlashOfGet(crc: Checksum, t: Tier, k: Text)
    requires TierInv(crc, t) && !IsPending(t.mem, k) && t.mode.MemLru?
    ensures k in t.flash.index ==> InRange(t.flash, k)
    ensures var u := GetCommand(t, crc, k);
      || (u.mem.items.Keys == t.mem.items.Keys && u.flash.index == t.flash.index)
      || (u.mem.items.Keys == t.mem.items.Keys + {k} && u.flash.index == t.flash.index - {k})
  {
    hide StoreInv, QueueInv, Contents, Storable, CanStep, Retained, InRange, Lookup;
    IndexInRange(crc, t.flash);
    if k in t.mem.items {
      TouchQueue(t.mem, t.queue, k);
    } else {
      FlashReply(crc, t, k);
      PromoteFlash(crc, t.flash, k);
      CacheAddQueue(t.mem, t.queue, k, if GetReply(t, crc, k).Some? then GetReply(t, crc, k).value else []);
    }
  }

  /** Every guarded step does to the store what it does to the ideal one. */
  lemma StepIsIdeal(crc: Checksum, t: Tier, op: TierOp)
    requires TierInv(crc, t) && Separate(t) && Guarded(crc, t, op)
    ensures View(StepTier(crc, t, op)) == StepIdeal(View(t), t, op)
  {
    hide StoreInv, QueueInv, Contents, Storable, CanStep, Retained, InRange, Lookup;
    IndexInRange(crc, t.flash);
    ContentsKeys(crc, t.flash);
    match op
    case OpSet(k, v, whole) => SetEffect(crc, t, k, v, whole);
    case OpGet(k) =>
      IndexNamesFiles(crc, t.flash, k);
      GetEffect(crc, t, k);
    case OpEvictToQueue => EvictQueue(t.mem, t.queue);
    case OpFlush(whole) =>
      FlushQueue(t.mem, t.queue);
      FlushEffect(crc, t, whole);
    case OpFlash(step) => FlashEffect(crc, t, step);
  }

  ghost predicate GuardedRun(crc: Checksum, t: Tier, ops: seq<TierOp>)
    requires TierInv(crc, t)
    decreases |ops|
  {
    ops == [] || (Guarded(crc, t, ops[0])
                  && (StepKeepsTier(crc, t, ops[0]); GuardedRun(crc, StepTier(crc, t, ops[0]), ops[1..])))
  }

  ghost predicate CanRunTier(crc: Checksum, t: Tier, ops: seq<TierOp>)
    requires TierInv(crc, t)
    decreases |ops|
  {
    ops == [] || (CanStepTier(t, ops[0])
                  && (StepKeepsTier(crc, t, ops[0]); CanRunTier(crc, StepTier(crc, t, ops[0]), ops[1..])))
  }

  ghost function RunTier(crc: Checksum, t: Tier, ops: seq<TierOp>): Tier
    requires TierInv(crc, t) && CanRunTier(crc, t, ops)
    decreases |ops|
  {
    if ops == [] then t else StepKeepsTier(crc, t, ops[0]); RunTier(crc, StepTier(crc, t, ops[0]), ops[1..])
  }

  ghost function RunIdeal(crc: Checksum, m: map<Text, Text>, t: Tier, ops: seq<TierOp>): map<Text, Text>
    requires TierInv(crc, t) && CanRunTier(crc, t, ops)
    decreases |ops|
  {
    if ops == [] then m
    else StepKeepsTier(crc, t, ops[0]); RunIdeal(crc, StepIdeal(m, t, ops[0]), StepTier(crc, t, ops[0]), ops[1..])
  }

  /** In every guarded run the store shows the ideal map, and no key is both in memory and on flash. */
  lemma {:induction false} RunIsIdeal(crc: Checksum, t: Tier, ops: seq<TierOp>)
    requires TierInv(crc, t) && Separate(t) && GuardedRun(crc, t, ops)
    ensures CanRunTier(crc, t, ops)
    ensures TierInv(crc, RunTier(crc, t, ops)) && Separate(RunTier(crc, t, ops))
    ensures View(RunTier(crc, t, ops)) == RunIdeal(crc, View(t), t, ops)
    decreases |ops|
  {
    hide TierInv, Separate, View, StepTier, StepIdeal, CanStepTier;
    if ops != [] {
      StepKeepsTier(crc, t, ops[0]);
      StepSeparate(crc, t, ops[0]);
      StepIsIdeal(crc, t, ops[0]);
      RunIsIdeal(crc, StepTier(crc, t, ops[0]), ops[1..]);
    }
  }

  // ---------- What get replies, in terms of the commands sent ----------

  /** The value of the last set of k in a run, or init if there is none. */
  function LastSet(ops: seq<TierOp>, k: Text, init: Option<Text>): Option<Text> {
    if ops == [] then init
    else LastSet(ops[1..], k, if ops[0].OpSet? && ops[0].key == k then Some(ops[0].val) else init)
  }

  /** A file eviction dropped the entry of k and no set has come since. */
  ghost predicate DroppedSince(crc: Checksum, t: Tier, ops: seq<TierOp>, k: Text, was: bool)
    requires TierInv(crc, t) && CanRunTier(crc, t, ops)
    decreases |ops|
  {
    if ops == [] then was
    else
      var now := if ops[0].OpSet? && ops[0].key == k then false else was || k in DroppedKeys(t, ops[0]);
      StepKeepsTier(crc, t, ops[0]);
      DroppedSince(crc, StepTier(crc, t, ops[0]), ops[1..], k, now)
  }

  /** The ideal map holds exactly the last value set, unless a file eviction has dropped it since. */
  lemma {:induction false} IdealIsLastSet(crc: Checksum, m: map<Text, Text>, t: Tier, ops: seq<TierOp>, k: Text,
                                          init: Option<Text>, was: bool)
    requires TierInv(crc, t) && CanRunTier(crc, t, ops)
    requires if init.Some? && !was then k in m && m[k] == init.value else k !in m
    ensures var m', last := RunIdeal(crc, m, t, ops), LastSet(ops, k, init);
      if last.Some? && !DroppedSince(crc, t, ops, k, was) then k in m' && m'[k] == last.value else k !in m'
    decreases |ops|
  {
    hide TierInv, StepTier, CanStepTier, PoppedKeys;
    if ops != [] {
      StepKeepsTier(crc, t, ops[0]);
      var set0 := ops[0].OpSet? && ops[0].key == k;
      var next := if set0 then Some(ops[0].val) else init;
      var now := if set0 then false else was || k in DroppedKeys(t, ops[0]);
      IdealIsLastSet(crc, StepIdeal(m, t, ops[0]), StepTier(crc, t, ops[0]), ops[1..], k, next, now);
    }
  }

  lemma StartTierInv(crc: Checksum, mode: Mode, cfg: Config)
    requires cfg.buffered ==> cfg.w > 0
    ensures TierInv(crc, StartTier(mode, cfg)) && Separate(StartTier(mode, cfg)) && View(StartTier(mode, cfg)) == map[]
  {
    hide StoreInv, Contents, SizeExact;
    StartInv(crc, cfg);
  }

  /** After any guarded run, get replies with the last value set, or "empty" if there is none or a file
      eviction has dropped it since. */
  lemma GetReturnsLastSet(crc: Checksum, cfg: Config, ops: seq<TierOp>, k: Text)
    requires cfg.buffered ==> cfg.w > 0
    requires (StartTierInv(crc, MemLru, cfg); GuardedRun(crc, StartTier(MemLru, cfg), ops))
    ensures (StartTierInv(crc, MemLru, cfg); RunIsIdeal(crc, StartTier(MemLru, cfg), ops);
      var t := RunTier(crc, StartTier(MemLru, cfg), ops);
      TierInv(crc, t) && Separate(t) && (Guarded(crc, t, OpGet(k)) ==>
        (IndexInRange(crc, t.flash);
         GetReply(t, crc, k) ==
           if DroppedSince(crc, StartTier(MemLru, cfg), ops, k, false) then None else LastSet(ops, k, None))))
  {
    hide QueueInv, StoreInv, RunTier, RunIdeal, CanRunTier, GuardedRun, DroppedSince, LastSet, StartTier, View;
    StartTierInv(crc, MemLru, cfg);
    var s := StartTier(MemLru, cfg);
    RunIsIdeal(crc, s, ops);
    IdealIsLastSet(crc, map[], s, ops, k, None, false);
    var t := RunTier(crc, s, ops);
    if Guarded(crc, t, OpGet(k)) {
      IndexInRange(crc, t.flash);
      GetEffect(crc, t, k);
    }
  }

  // ---------- Any run: replies are honest ----------

  predicate WasSet(ops: seq<TierOp>, k: Text, v: Text) {
    exists i :: 0 <= i < |ops| && ops[i].OpSet? && ops[i].key == k && ops[i].val == v
  }

  /** A value that may come back under k: it was set under k, or it is the empty one that a get of k
      has made of a lost record. */
  predicate Fair(past: seq<TierOp>, lost: set<Text>, k: Text, v: Text) {
    WasSet(past, k, v) || (v == [] && k in lost)
  }

  /** Every value the store shows, or holds anywhere, is fair. */
  ghost predicate Honest(t: Tier, past: seq<TierOp>, lost: set<Text>) {
    && (forall k :: k in t.mem.items ==> Fair(past, lost, k, t.mem.items[k]))
    && (forall k :: k in Contents(t.flash) ==> Fair(past, lost, k, Contents(t.flash)[k]))
  }

  /** The keys whose lost record a step asks for. */
  ghost function StepLost(crc: Checksum, t: Tier, op: TierOp): set<Text>
    requires TierInv(crc, t)
  {
    if op.OpGet? && (IndexNamesFiles(crc, t.flash, op.key); !GetSafe(t, op.key)) then {op.key} else {}
  }

  lemma FairMonotone(past: seq<TierOp>, op: TierOp, lost: set<Text>, more: set<Text>, k: Text, v: Text)
    requires Fair(past, lost, k, v)
    ensures Fair(past + [op], lost + more, k, v)
  {
    if WasSet(past, k, v) {
      var i :| 0 <= i < |past| && past[i].OpSet? && past[i].key == k && past[i].val == v;
      assert (past + [op])[i] == past[i];
    }
  }

  lemma StepHonest(crc: Checksum, t: Tier, past: seq<TierOp>, lost: set<Text>, op: TierOp)
    requires TierInv(crc, t) && Honest(t, past, lost) && CanStepTier(t, op)
    ensures Honest(StepTier(crc, t, op), past + [op], lost + StepLost(crc, t, op))
  {
    hide StoreInv, QueueInv, Contents, Storable, CanStep, Retained, InRange, Lookup, Fair;
    var more := StepLost(crc, t, op);
    IndexInRange(crc, t.flash);
    forall k, v | Fair(past, lost, k, v)
      ensures Fair(past + [op], lost + more, k, v)
    {
      FairMonotone(past, op, lost, more, k, v);
    }
    match op
    case OpSet(k, v, whole) =>
      SetIsFair(past, lost + more, op);
      if t.mode.OnlyFlash? {
        InsertRefines(crc, t.flash, k, v, whole);
      } else {
        CacheAddQueue(t.mem, t.queue, k, v);
      }
    case OpGet(k) =>
      LookedKeeps(crc, t.flash, k);
      if t.mode.MemLru? && k in t.mem.items {
        TouchQueue(t.mem, t.queue, k);
      } else {
        ReplyIsFair(crc, t, past, lost, k);
        PromoteFlash(crc, t.flash, k);
        CacheAddQueue(t.mem, t.queue, k, if GetReply(t, crc, k).Some? then GetReply(t, crc, k).value else []);
      }
    case OpEvictToQueue =>
    case OpFlush(whole) =>
      QueuedStorable(crc, t);
      FlushQueue(t.mem, t.queue);
      InsertRefines(crc, t.flash, t.queue[0].0, t.queue[0].1, whole);
    case OpFlash(step) => StepRefines(crc, t.flash, step);
  }

  lemma SetIsFair(past: seq<TierOp>, lost: set<Text>, op: TierOp)
    requires op.OpSet?
    ensures Fair(past + [op], lost, op.key, op.val)
  {
    assert (past + [op])[|past|] == op;
  }

  /** A reply is fair, if an unsafe get of the key is counted. */
  lemma ReplyIsFair(crc: Checksum, t: Tier, past: seq<TierOp>, lost: set<Text>, k: Text)
    requires TierInv(crc, t) && Honest(t, past, lost)
    ensures k in t.flash.index ==> InRange(t.flash, k)
    ensures GetReply(t, crc, k).Some? ==> Fair(past, lost + StepLost(crc, t, OpGet(k)), k, GetReply(t, crc, k).value)
    ensures GetReply(t, crc, k).Some? ==>
              Fair(past + [OpGet(k)], lost + StepLost(crc, t, OpGet(k)), k, GetReply(t, crc, k).value)
  {
    hide StoreInv, QueueInv, Contents, Storable, Retained, InRange, Lookup, WasSet;
    IndexInRange(crc, t.flash);
    ContentsKeys(crc, t.flash);
    if !(t.mode.MemLru? && k in t.mem.items) {
      FlashReply(crc, t, k);
    }
    if GetReply(t, crc, k).Some? {
      FairMonotone(past, OpGet(k), lost + StepLost(crc, t, OpGet(k)), {}, k, GetReply(t, crc, k).value);
      assert lost + StepLost(crc, t, OpGet(k)) + {} == lost + StepLost(crc, t, OpGet(k));
    }
  }

  /** The keys whose lost record a run asks for. */
  ghost function RunLost(crc: Checksum, t: Tier, ops: seq<TierOp>): set<Text>
    requires TierInv(crc, t) && CanRunTier(crc, t, ops)
    decreases |ops|
  {
    if ops == [] then {}
    else StepKeepsTier(crc, t, ops[0]); StepLost(crc, t, ops[0]) + RunLost(crc, StepTier(crc, t, ops[0]), ops[1..])
  }

  lemma {:induction false} RunHonest(crc: Checksum, t: Tier, past: seq<TierOp>, lost: set<Text>, ops: seq<TierOp>)
    requires TierInv(crc, t) && Honest(t, past, lost) && CanRunTier(crc, t, ops)
    ensures TierInv(crc, RunTier(crc, t, ops))
    ensures Honest(RunTier(crc, t, ops), past + ops, lost + RunLost(crc, t, ops))
    decreases |ops|
  {
    hide TierInv, Honest, StepTier, CanStepTier, StepLost;
    if ops == [] {
      assert past + ops == past && lost + RunLost(crc, t, ops) == lost;
    } else {
      var more := StepLost(crc, t, ops[0]);
      StepKeepsTier(crc, t, ops[0]);
      StepHonest(crc, t, past, lost, ops[0]);
      RunHonest(crc, StepTier(crc, t, ops[0]), past + [ops[0]], lost + more, ops[1..]);
      assert past + [ops[0]] + ops[1..] == past + ops;
      assert lost + more + RunLost(crc, StepTier(crc, t, ops[0]), ops[1..]) == lost + RunLost(crc, t, ops);
    }
  }

  /** In every run, in both modes, and with keys set again while flash still holds an older value: a value
      replied was set earlier under that very key; or it is empty, and this get or an earlier one of that
      key asked for a record that was lost when its file was closed. */
  lemma RepliesAreHonest(crc: Checksum, mode: Mode, cfg: Config, ops: seq<TierOp>, k: Text)
    requires cfg.buffered ==> cfg.w > 0
    requires (StartTierInv(crc, mode, cfg); CanRunTier(crc, StartTier(mode, cfg), ops))
    ensures (StartTierInv(crc, mode, cfg); StartHonest(crc, mode, cfg);
      RunHonest(crc, StartTier(mode, cfg), [], {}, ops);
      var t := RunTier(crc, StartTier(mode, cfg), ops);
      IndexInRange(crc, t.flash);
      var r := GetReply(t, crc, k);
      r.Some? ==> WasSet(ops, k, r.value)
                  || (r.value == [] && (k in RunLost(crc, StartTier(mode, cfg), ops) || !GetSafe(t, k))))
  {
    hide QueueInv, StoreInv, RunTier, CanRunTier, RunLost, StartTier, WasSet, Contents, Retained, Lookup, Honest;
    var s := StartTier(mode, cfg);
    StartTierInv(crc, mode, cfg);
    StartHonest(crc, mode, cfg);
    RunHonest(crc, s, [], {}, ops);
    assert [] + ops == ops && {} + RunLost(crc, s, ops) == RunLost(crc, s, ops);
    ReplyIsFair(crc, RunTier(crc, s, ops), ops, RunLost(crc, s, ops), k);
    IndexNamesFiles(crc, RunTier(crc, s, ops).flash, k);
  }

  lemma StartHonest(crc: Checksum, mode: Mode, cfg: Config)
    requires cfg.buffered ==> cfg.w > 0
    ensures Honest(StartTier(mode, cfg), [], {})
  {
    hide StoreInv, Contents, SizeExact;
    StartInv(crc, cfg);
  }
}
