/** Evictions take what was used longest ago: a file on flash, an entry in memory. */
module Recency {
  import opened Bytes
  import opened CacheRecord
  import opened Layout
  import opened FileSpec
  import opened Lru
  import opened FlashSpec
  import opened FlashRefinement
  import opened FlashRuns
  import opened TierSpec
  import opened TierRuns

  // ---------- Files on flash ----------

  /** A use of a file: created, asked for by a lookup, or evicted. */
  type Use = LruOp<nat, bool>

  /** The uses of files in the loop of Evict. */
  function EvictUses(f: Flash, size: nat): seq<Use>
    decreases |f.files.order|
  {
    if size + f.size <= f.cfg.cacheSize || f.files.order == [] || Oldest(f.files) !in f.files.items then []
    else [DropOldest] + EvictUses(EvictOne(f), size)
  }

  ghost function StepUses(crc: Checksum, f: Flash, op: FlashOp): seq<Use>
    requires FlashInv(crc, f)
  {
    match op
    case OpInsert(_, _, _) => if f.files.items[f.cur].eof then [AddKey(f.nextId, true)] else []
    case OpLookup(key) => if key in f.index then [TouchKey(f.index[key].cacheId)] else []
    case OpEvict => [DropOldest]
    case _ => []
  }

  ghost function RunUses(crc: Checksum, f: Flash, ops: seq<FlashOp>): seq<Use>
    requires FlashInv(crc, f) && CanRunFlash(crc, f, ops)
    decreases |ops|
  {
    if ops == [] then []
    else StepRefines(crc, f, ops[0]); StepUses(crc, f, ops[0]) + RunUses(crc, StepFlash(crc, f, ops[0]), ops[1..])
  }

  /** The recency list of files is the one that these uses lead to. */
  ghost predicate Reflects(f: Flash, uses: seq<Use>) {
    f.files.order == RunLru(uses).order && f.files.items.Keys == RunLru(uses).items.Keys
  }

  lemma RunLruSnoc(uses: seq<Use>, use: Use)
    ensures RunLru(uses + [use]) == Step(RunLru(uses), use)
  {
    assert (uses + [use])[..|uses|] == uses;
  }

  lemma DropReflects(c: LruState<nat, FileState>, uses: seq<Use>)
    requires c.order != [] && c.order == RunLru(uses).order && c.items.Keys == RunLru(uses).items.Keys
    ensures var d, e := LruErase(LruEvict(c), Oldest(c)), RunLru(uses + [DropOldest]);
      d.order == e.order && d.items.Keys == e.items.Keys
  {
    RunLruSnoc(uses, DropOldest);
    hide RunLru;
  }

  lemma PopReflects(crc: Checksum, f: Flash, uses: seq<Use>)
    requires FlashInv(crc, f) && f.files.order != [] && Oldest(f.files) != f.cur && Reflects(f, uses)
    ensures Reflects(EvictOne(f), uses + [DropOldest])
  {
    hide StoreInv, KeySet, Contents, RunLru;
    EvictOneRefines(crc, f);
    DropReflects(f.files, uses);
  }

  lemma {:induction false} EvictReflects(crc: Checksum, f: Flash, size: nat, uses: seq<Use>)
    requires FlashInv(crc, f) && VictimsOk(f, size) && Reflects(f, uses)
    ensures Reflects(Evict(f, size), uses + EvictUses(f, size))
    decreases |f.files.order|
  {
    hide StoreInv, KeySet, Contents, RunLru, Reflects;
    if size + f.size > f.cfg.cacheSize && f.files.order != [] {
      EvictOneRefines(crc, f);
      PopReflects(crc, f, uses);
      EvictReflects(crc, EvictOne(f), size, uses + [DropOldest]);
      assert uses + [DropOldest] + EvictUses(EvictOne(f), size) == uses + EvictUses(f, size);
    } else {
      assert uses + EvictUses(f, size) == uses;
    }
  }

  lemma InsertReflects(crc: Checksum, f: Flash, key: Text, val: Text, whole: bool, uses: seq<Use>)
    requires FlashInv(crc, f) && Storable(key, val) && Reflects(f, uses)
    ensures Reflects(Insert(f, crc, key, val, whole),
                     uses + if f.files.items[f.cur].eof then [AddKey(f.nextId, true)] else [])
  {
    hide StoreInv, Contents, RunLru, Taken, Serialize, IndexInsert;
    assert uses + [] == uses;
    NewCacheFileKeeps(crc, f);
    RunLruSnoc(uses, AddKey(f.nextId, true));
  }

  lemma StepReflects(crc: Checksum, f: Flash, op: FlashOp, uses: seq<Use>)
    requires FlashInv(crc, f) && CanStep(f, op) && Reflects(f, uses)
    ensures Reflects(StepFlash(crc, f, op), uses + StepUses(crc, f, op))
  {
    hide FileOk, IndexOk, Contents, RunLru, Insert, EvictOne, Storable;
    assert uses + [] == uses;
    match op
    case OpInsert(key, val, whole) => InsertReflects(crc, f, key, val, whole, uses);
    case OpLookup(key) =>
      if key in f.index {
        RunLruSnoc(uses, TouchKey(f.index[key].cacheId));
      }
    case OpDelete(_) =>
    case OpFile(_, _) =>
    case OpEvict => PopReflects(crc, f, uses);
  }

  lemma {:induction false} RunReflects(crc: Checksum, f: Flash, ops: seq<FlashOp>, uses: seq<Use>)
    requires FlashInv(crc, f) && CanRunFlash(crc, f, ops) && Reflects(f, uses)
    ensures Reflects(RunFlash(crc, f, ops), uses + RunUses(crc, f, ops))
    decreases |ops|
  {
    hide StoreInv, Reflects, CanStep, StepFlash, StepUses, Contents;
    if ops == [] {
      assert uses + RunUses(crc, f, ops) == uses;
    } else {
      var step := StepUses(crc, f, ops[0]);
      StepRefines(crc, f, ops[0]);
      StepReflects(crc, f, ops[0], uses);
      RunReflects(crc, StepFlash(crc, f, ops[0]), ops[1..], uses + step);
      assert uses + step + RunUses(crc, StepFlash(crc, f, ops[0]), ops[1..]) == uses + RunUses(crc, f, ops);
    }
  }

  /** In every run the files on the list are the live ones, and the next victim was created or
      last asked for before every other file was. */
  lemma VictimIsLeastRecent(crc: Checksum, cfg: Config, ops: seq<FlashOp>, id: nat)
    requires cfg.buffered ==> cfg.w > 0
    requires (StartInv(crc, cfg); CanRunFlash(crc, StartFlash(cfg), ops))
    ensures (StartInv(crc, cfg);
      var t := RunFlash(crc, StartFlash(cfg), ops);
      var uses := [AddKey(0, true)] + RunUses(crc, StartFlash(cfg), ops);
      && (id in t.files.items <==> id in t.files.order)
      && (id in t.files.items && id != Oldest(t.files) ==>
            LastTouch(uses, Oldest(t.files)) < LastTouch(uses, id)))
  {
    hide RunFlash, CanRunFlash, RunUses, LastTouch, StoreInv, ByRecency, StartFlash, RunLru, Contents, NoDup,
         SizeExact;
    StartInv(crc, cfg);
    StartReflects(cfg);
    var f, first := StartFlash(cfg), [AddKey(0, true)];
    RunReflects(crc, f, ops, first);
    ListIsRecencyOrder(first + RunUses(crc, f, ops));
  }

  lemma StartReflects(cfg: Config)
    ensures Reflects(StartFlash(cfg), [AddKey(0, true)])
  {
    var first: seq<Use> := [AddKey(0, true)];
    assert first[..0] == [];
    assert RunLru(first) == Step(RunLru(first[..0]), first[0]);
  }

  // ---------- Entries in memory ----------

  /** A use of a memory entry: inserted, overwritten or found, or evicted to the queue. */
  type MemUse = LruOp<Text, bool>

  function Used(mem: LruState<Text, Text>, k: Text): MemUse {
    if k in mem.items then TouchKey(k) else AddKey(k, true)
  }

  ghost function TierUses(crc: Checksum, t: Tier, op: TierOp): seq<MemUse>
    requires TierInv(crc, t)
  {
    IndexInRange(crc, t.flash);
    match op
    case OpSet(k, _, _) => if t.mode.MemLru? then [Used(t.mem, k)] else []
    case OpGet(k) => if t.mode.MemLru? && GetReply(t, crc, k).Some? then [Used(t.mem, k)] else []
    case OpEvictToQueue => [DropOldest]
    case _ => []
  }

  ghost function RunTierUses(crc: Checksum, t: Tier, ops: seq<TierOp>): seq<MemUse>
    requires TierInv(crc, t) && CanRunTier(crc, t, ops)
    decreases |ops|
  {
    if ops == [] then []
    else StepKeepsTier(crc, t, ops[0]);
         TierUses(crc, t, ops[0]) + RunTierUses(crc, StepTier(crc, t, ops[0]), ops[1..])
  }

  ghost predicate MemReflects(mem: LruState<Text, Text>, uses: seq<MemUse>) {
    mem.order == RunLru(uses).order && forall k :: k in RunLru(uses).items <==> k in mem.order
  }

  lemma MemUseSnoc(uses: seq<MemUse>, use: MemUse)
    ensures RunLru(uses + [use]) == Step(RunLru(uses), use)
  {
    assert (uses + [use])[..|uses|] == uses;
  }

  lemma CacheAddReflects(mem: LruState<Text, Text>, queue: seq<(Text, Text)>, k: Text, v: Text, uses: seq<MemUse>)
    requires QueueInv(mem, queue) && !IsPending(mem, k) && MemReflects(mem, uses)
    ensures MemReflects(CacheAdd(mem, k, v), uses + [Used(mem, k)])
    ensures k in mem.items ==> MemReflects(LruTouch(mem, k), uses + [Used(mem, k)])
  {
    MemUseSnoc(uses, Used(mem, k));
    hide RunLru;
  }

  lemma EvictMemReflects(mem: LruState<Text, Text>, uses: seq<MemUse>)
    requires LruInv(mem) && mem.order != [] && MemReflects(mem, uses)
    ensures MemReflects(LruEvict(mem), uses + [DropOldest])
  {
    MemUseSnoc(uses, DropOldest);
    hide RunLru;
    assert forall k :: k in mem.order <==> k in LruEvict(mem).order || k == Oldest(mem);
  }

  lemma StepMemReflects(crc: Checksum, t: Tier, op: TierOp, uses: seq<MemUse>)
    requires TierInv(crc, t) && CanStepTier(t, op) && MemReflects(t.mem, uses)
    ensures MemReflects(StepTier(crc, t, op).mem, uses + TierUses(crc, t, op))
  {
    hide StoreInv, Contents, RunLru, CacheAdd, LruTouch, LruEvict, CanStep, InRange, Lookup, Storable, MemReflects;
    assert uses + [] == uses;
    IndexInRange(crc, t.flash);
    match op
    case OpSet(k, v, _) => CacheAddReflects(t.mem, t.queue, k, v, uses);
    case OpGet(k) =>
      CacheAddReflects(t.mem, t.queue, k, if GetReply(t, crc, k).Some? then GetReply(t, crc, k).value else [], uses);
    case OpEvictToQueue => EvictMemReflects(t.mem, uses);
    case OpFlush(_) => EraseReflects(t.mem, t.queue[0].0, uses);
    case OpFlash(_) =>
  }

  /** Erasing from the map leaves the list alone. */
  lemma EraseReflects(mem: LruState<Text, Text>, k: Text, uses: seq<MemUse>)
    requires MemReflects(mem, uses)
    ensures MemReflects(LruErase(mem, k), uses)
  {
  }

  lemma {:induction false} RunMemReflects(crc: Checksum, t: Tier, ops: seq<TierOp>, uses: seq<MemUse>)
    requires TierInv(crc, t) && CanRunTier(crc, t, ops) && MemReflects(t.mem, uses)
    ensures TierInv(crc, RunTier(crc, t, ops))
    ensures MemReflects(RunTier(crc, t, ops).mem, uses + RunTierUses(crc, t, ops))
    decreases |ops|
  {
    hide TierInv, MemReflects, CanStepTier, StepTier, TierUses;
    if ops == [] {
      assert uses + RunTierUses(crc, t, ops) == uses;
    } else {
      var step := TierUses(crc, t, ops[0]);
      StepKeepsTier(crc, t, ops[0]);
      StepMemReflects(crc, t, ops[0], uses);
      RunMemReflects(crc, StepTier(crc, t, ops[0]), ops[1..], uses + step);
      assert uses + step + RunTierUses(crc, StepTier(crc, t, ops[0]), ops[1..]) == uses + RunTierUses(crc, t, ops);
    }
  }

  /** In every run the entry that memory pressure sends to the queue was set, found or promoted
      before every other entry still in memory was. */
  lemma QueuedIsLeastRecent(crc: Checksum, mode: Mode, cfg: Config, ops: seq<TierOp>, k: Text)
    requires cfg.buffered ==> cfg.w > 0
    requires (StartTierInv(crc, mode, cfg); CanRunTier(crc, StartTier(mode, cfg), ops))
    ensures (StartTierInv(crc, mode, cfg);
      var t := RunTier(crc, StartTier(mode, cfg), ops);
      var uses := RunTierUses(crc, StartTier(mode, cfg), ops);
      k in t.mem.order && k != Oldest(t.mem) ==> LastTouch(uses, Oldest(t.mem)) < LastTouch(uses, k))
  {
    hide RunTier, CanRunTier, RunTierUses, LastTouch, TierInv, MemReflects, LruInv, RunLru;
    StartTierInv(crc, mode, cfg);
    var s := StartTier(mode, cfg);
    NoUses(s.mem);
    RunMemReflects(crc, s, ops, []);
    assert [] + RunTierUses(crc, s, ops) == RunTierUses(crc, s, ops);
    MemOldest(RunTier(crc, s, ops).mem, RunTierUses(crc, s, ops), k);
  }

  lemma NoUses(mem: LruState<Text, Text>)
    requires mem.order == []
    ensures MemReflects(mem, [])
  {
  }

  lemma MemOldest(mem: LruState<Text, Text>, uses: seq<MemUse>, k: Text)
    requires MemReflects(mem, uses)
    ensures k in mem.order && k != Oldest(mem) ==> LastTouch(uses, Oldest(mem)) < LastTouch(uses, k)
  {
    hide RunLru, LastTouch, ByRecency, LruInv;
    ListIsRecencyOrder(uses);
  }
}
