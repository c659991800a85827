/** Memory over flash: the commands set and get, eviction from memory to a queue, and the
    background flush of the queue to flash. */
module TierSpec {
  import opened Bytes
  import opened CacheRecord
  import opened Lru
  import opened FlashSpec
  import opened FlashRefinement
  import opened FlashRuns

  datatype Mode = OnlyFlash | MemLru

  datatype Tier = Tier(
    mode: Mode,
    mem: LruState<Text, Text>,   // memLRU: key to value
    queue: seq<(Text, Text)>,    // memQueue: entries evicted from memory, not yet on flash
    flash: Flash)

  /** Evicted from the recency list, still in its map, waiting in the queue. */
  predicate IsPending(mem: LruState<Text, Text>, k: Text) {
    k in mem.items && k !in mem.order
  }

  // ---------- Steps ----------

  /** cacheAdd in LRU mode: overwrite the value that is there, or insert. */
  function CacheAdd(c: LruState<Text, Text>, k: Text, v: Text): LruState<Text, Text> {
    if k in c.items then LruTouch(c, k).(items := c.items[k := v]) else LruInsert(c, k, v)
  }

  function SetCommand(t: Tier, crc: Checksum, k: Text, v: Text, whole: bool := true): Tier
    requires FlashInv(crc, t.flash) && Storable(k, v)
  {
    match t.mode
    case OnlyFlash => t.(flash := Insert(t.flash, crc, k, v, whole))
    case MemLru => t.(mem := CacheAdd(t.mem, k, v))
  }

  /** The reply of get; None is the reply "+Empty!". */
  function GetReply(t: Tier, crc: Checksum, k: Text): Option<Text>
    requires k in t.flash.index ==> InRange(t.flash, k)
  {
    if t.mode.MemLru? && k in t.mem.items then Some(t.mem.items[k]) else Lookup(t.flash, crc, k)
  }

  /** The state after get: a value found on flash moves to memory. */
  function GetCommand(t: Tier, crc: Checksum, k: Text): Tier
    requires k in t.flash.index ==> InRange(t.flash, k)
  {
    match t.mode
    case OnlyFlash => t.(flash := Looked(t.flash, k))
    case MemLru =>
      if k in t.mem.items then t.(mem := LruTouch(t.mem, k))
      else match Lookup(t.flash, crc, k)
        case None => t
        case Some(v) => t.(mem := CacheAdd(t.mem, k, v), flash := DeleteKey(Looked(t.flash, k), k))
  }

  /** memUsedCheck under memory pressure: the least recent entry goes to the queue. */
  function EvictToQueue(t: Tier): Tier
    requires t.mem.order != [] && Oldest(t.mem) in t.mem.items
  {
    var k := Oldest(t.mem);
    t.(mem := LruEvict(t.mem), queue := t.queue + [(k, t.mem.items[k])])
  }

  /** One turn of the background worker: the head of the queue goes to flash and leaves memory. */
  function FlushOne(t: Tier, crc: Checksum, whole: bool := true): Tier
    requires FlashInv(crc, t.flash) && t.queue != [] && Storable(t.queue[0].0, t.queue[0].1)
  {
    t.(flash := Insert(t.flash, crc, t.queue[0].0, t.queue[0].1, whole),
       mem := LruErase(t.mem, t.queue[0].0),
       queue := t.queue[1..])
  }

  // ---------- Invariant ----------

  /** The map of the LRU is the disjoint union of the listed keys and the queued keys. */
  ghost predicate QueueInv(mem: LruState<Text, Text>, queue: seq<(Text, Text)>) {
    && LruInv(mem)
    && (forall i :: 0 <= i < |queue| ==> IsPending(mem, queue[i].0) && mem.items[queue[i].0] == queue[i].1)
    && (forall i, j :: 0 <= i < j < |queue| ==> queue[i].0 != queue[j].0)
    && (forall k :: IsPending(mem, k) ==> exists i :: 0 <= i < |queue| && queue[i].0 == k)
  }

  ghost predicate TierInv(crc: Checksum, t: Tier) {
    && FlashInv(crc, t.flash) && QueueInv(t.mem, t.queue)
    && (forall k :: k in t.mem.items ==> Storable(k, t.mem.items[k]))
    && (t.mode.OnlyFlash? ==> t.mem == LruState([], map[]))
  }

  function StartTier(mode: Mode, cfg: Config): Tier {
    Tier(mode, LruState([], map[]), [], StartFlash(cfg))
  }

  // ---------- What the store shows ----------

  /** The value of every key: memory first, then flash. */
  function View(t: Tier): map<Text, Text> {
    Contents(t.flash) + t.mem.items
  }

  // ---------- Operations as steps ----------

  /** Where a set or a flush inserts into flash, its append may be all done, or only begun; its rest is then a
      matter of OpFlash, like the steps of the writers. */
  datatype TierOp =
    | OpSet(key: Text, val: Text, whole: bool := true)
    | OpGet(key: Text)
    | OpEvictToQueue
    | OpFlush(whole: bool := true)
    | OpFlash(op: FlashOp)

  /** Nothing is being inserted into flash. */
  predicate FlashIdle(t: Tier) {
    t.flash.cur in t.flash.files.items && CurIdle(t.flash)
  }

  /** Clients do not touch pending keys; flash itself moves only by its files and evictions. */
  ghost predicate CanStepTier(t: Tier, op: TierOp) {
    match op
    case OpSet(k, v, _) => Storable(k, v) && !IsPending(t.mem, k) && (t.mode.OnlyFlash? ==> FlashIdle(t))
    case OpGet(k) => Storable(k, []) && !IsPending(t.mem, k)
    case OpEvictToQueue => t.mem.order != []
    case OpFlush(_) => t.queue != [] && FlashIdle(t)
    case OpFlash(step) => (step.OpFile? || step.OpEvict?) && CanStep(t.flash, step)
  }

  ghost function StepTier(crc: Checksum, t: Tier, op: TierOp): Tier
    requires TierInv(crc, t) && CanStepTier(t, op)
  {
    IndexInRange(crc, t.flash);
    match op
    case OpSet(k, v, whole) => SetCommand(t, crc, k, v, whole)
    case OpGet(k) => GetCommand(t, crc, k)
    case OpEvictToQueue => EvictToQueue(t)
    case OpFlush(whole) => FlushOne(t, crc, whole)
    case OpFlash(step) => t.(flash := StepFlash(crc, t.flash, step))
  }
}
