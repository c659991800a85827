/** evictAllCommand and the drain of the queue. */
module TierDrain {
  import opened Bytes
  import opened CacheRecord
  import opened Lru
  import opened FlashSpec
  import opened FlashRefinement
  import opened TierSpec
  import opened TierRuns

  /** The loop of evictAllCommand: every listed entry goes to the queue, least recent first. */
  ghost function EvictAll(crc: Checksum, t: Tier): Tier
    requires TierInv(crc, t)
    decreases |t.mem.order|
  {
    if t.mem.order == [] then t
    else StepKeepsTier(crc, t, OpEvictToQueue); EvictAll(crc, EvictToQueue(t))
  }

  /** The background worker until the queue is empty. */
  ghost function DrainQueue(crc: Checksum, t: Tier): Tier
    requires TierInv(crc, t) && FlashIdle(t)
    decreases |t.queue|
  {
    if t.queue == [] then t
    else
      FlushKeepsIdle(crc, t);
      DrainQueue(crc, FlushOne(t, crc))
  }

  lemma FlushKeepsIdle(crc: Checksum, t: Tier)
    requires TierInv(crc, t) && t.queue != [] && FlashIdle(t)
    ensures FlashInv(crc, t.flash) && Storable(t.queue[0].0, t.queue[0].1)
    ensures StepTier(crc, t, OpFlush()) == FlushOne(t, crc)
    ensures TierInv(crc, FlushOne(t, crc)) && FlashIdle(FlushOne(t, crc))
  {
    hide StoreInv, QueueInv, Storable, Contents, Insert;
    QueuedStorable(crc, t);
    StepKeepsTier(crc, t, OpFlush());
    InsertRefines(crc, t.flash, t.queue[0].0, t.queue[0].1);
  }

  /** The entries of a recency list, least recent first. */
  function Backwards(order: seq<Text>, items: map<Text, Text>): seq<(Text, Text)>
    requires forall k :: k in order ==> k in items
  {
    if order == [] then []
    else [(order[|order| - 1], items[order[|order| - 1]])] + Backwards(order[..|order| - 1], items)
  }

  lemma {:induction false} EvictAllEffect(crc: Checksum, t: Tier)
    requires TierInv(crc, t)
    ensures var u := EvictAll(crc, t);
      && TierInv(crc, u) && u.mode == t.mode && u.flash == t.flash
      && u.mem == LruState([], t.mem.items)
      && (forall k :: k in t.mem.order ==> k in t.mem.items)
      && u.queue == t.queue + Backwards(t.mem.order, t.mem.items)
    decreases |t.mem.order|
  {
    hide TierInv;
    OrderMapped(crc, t);
    if t.mem.order != [] {
      StepKeepsTier(crc, t, OpEvictToQueue);
      EvictAllEffect(crc, EvictToQueue(t));
    }
  }

  lemma OrderMapped(crc: Checksum, t: Tier)
    requires TierInv(crc, t)
    ensures forall k :: k in t.mem.order ==> k in t.mem.items
  {
  }

  ghost function InsertKept(crc: Checksum, f: Flash, e: (Text, Text)): (g: Flash)
    requires FlashInv(crc, f) && CurIdle(f) && Storable(e.0, e.1)
    ensures FlashInv(crc, g) && CurIdle(g)
  {
    InsertRefines(crc, f, e.0, e.1);
    Insert(f, crc, e.0, e.1)
  }

  ghost predicate AllStorable(queue: seq<(Text, Text)>) {
    forall i :: 0 <= i < |queue| ==> Storable(queue[i].0, queue[i].1)
  }

  /** Insert the queued entries, first in first. */
  ghost function InsertQueue(crc: Checksum, f: Flash, queue: seq<(Text, Text)>): Flash
    requires FlashInv(crc, f) && CurIdle(f) && AllStorable(queue)
    decreases |queue|
  {
    if queue == [] then f else InsertQueue(crc, InsertKept(crc, f, queue[0]), queue[1..])
  }

  lemma QueueStorable(crc: Checksum, t: Tier)
    requires TierInv(crc, t)
    ensures AllStorable(t.queue)
  {
    forall i | 0 <= i < |t.queue|
      ensures Storable(t.queue[i].0, t.queue[i].1)
    {
      assert IsPending(t.mem, t.queue[i].0);
    }
  }

  /** Draining flushes every queued entry once, in order, and takes exactly those keys out of memory. */
  lemma {:induction false} DrainEffect(crc: Checksum, t: Tier)
    requires TierInv(crc, t) && FlashIdle(t)
    ensures (QueueStorable(crc, t);
      var u := DrainQueue(crc, t);
      && TierInv(crc, u) && u.mode == t.mode && u.queue == [] && u.mem.order == t.mem.order
      && u.flash == InsertQueue(crc, t.flash, t.queue)
      && (forall k :: k in u.mem.items <==> k in t.mem.items && !IsPending(t.mem, k))
      && (forall k :: IsPending(t.mem, k) || k in t.flash.index ==> k in u.flash.index))
    decreases |t.queue|
  {
    hide TierInv, Insert, Storable, StoreInv, QueueInv;
    QueueStorable(crc, t);
    PendingIsQueued(crc, t);
    if t.queue != [] {
      FlushKeepsIdle(crc, t);
      var v := FlushOne(t, crc);
      QueueStorable(crc, v);
      HeadInserted(crc, t);
      DrainEffect(crc, v);
      assert forall k :: IsPending(t.mem, k) ==> IsPending(v.mem, k) || k == t.queue[0].0;
    }
  }

  lemma PendingIsQueued(crc: Checksum, t: Tier)
    requires TierInv(crc, t)
    ensures t.queue == [] ==> forall k :: !IsPending(t.mem, k)
    ensures t.queue != [] ==> IsPending(t.mem, t.queue[0].0)
  {
  }

  lemma HeadInserted(crc: Checksum, t: Tier)
    requires TierInv(crc, t) && FlashIdle(t) && t.queue != [] && Storable(t.queue[0].0, t.queue[0].1)
    ensures var g := Insert(t.flash, crc, t.queue[0].0, t.queue[0].1);
      g.index.Keys == t.flash.index.Keys + {t.queue[0].0}
  {
    hide StoreInv, QueueInv, Storable, Contents;
    InsertRefines(crc, t.flash, t.queue[0].0, t.queue[0].1);
    ContentsKeys(crc, t.flash);
    ContentsKeys(crc, Insert(t.flash, crc, t.queue[0].0, t.queue[0].1));
  }

  /** evictAllCommand followed by a full drain empties memory; every key that was in memory is then
      on flash, if nothing else runs meanwhile. */
  lemma EvictAllThenDrain(crc: Checksum, t: Tier)
    requires TierInv(crc, t) && FlashIdle(t)
    ensures (EvictAllEffect(crc, t);
      var u := DrainQueue(crc, EvictAll(crc, t));
      && TierInv(crc, u) && u.mem == LruState([], map[]) && u.queue == []
      && (forall k :: k in t.mem.items ==> k in u.flash.index))
  {
    EvictAllEffect(crc, t);
    var v := EvictAll(crc, t);
    DrainEffect(crc, v);
    hide TierInv;
    var u := DrainQueue(crc, v);
    assert forall k :: k in t.mem.items ==> IsPending(v.mem, k);
    assert u.mem.items == map[];
  }

  /** A drain changes nothing a client sees, provided no key is both in memory and on flash. */
  lemma {:induction false} DrainKeepsView(crc: Checksum, t: Tier)
    requires TierInv(crc, t) && FlashIdle(t) && t.mode.MemLru? && Separate(t)
    ensures View(DrainQueue(crc, t)) == View(t) && Separate(DrainQueue(crc, t))
    decreases |t.queue|
  {
    hide QueueInv, StoreInv, View, Separate, Insert, Storable;
    if t.queue != [] {
      FlushKeepsIdle(crc, t);
      StepSeparate(crc, t, OpFlush());
      StepIsIdeal(crc, t, OpFlush());
      assert View(t) - {} == View(t);
      DrainKeepsView(crc, FlushOne(t, crc));
    }
  }

  /** So shutting down loses nothing: after evictAllCommand and a full drain, flash alone shows what
      memory and flash showed together. */
  lemma ShutdownKeepsAll(crc: Checksum, t: Tier)
    requires TierInv(crc, t) && FlashIdle(t) && t.mode.MemLru? && Separate(t)
    ensures (EvictAllEffect(crc, t); Contents(DrainQueue(crc, EvictAll(crc, t)).flash) == View(t))
  {
    hide TierInv, View, Separate, DrainQueue, EvictAll, Backwards, Contents;
    EvictAllEffect(crc, t);
    EvictAllThenDrain(crc, t);
    var v := EvictAll(crc, t);
    ViewSame(t, v);
    DrainKeepsView(crc, v);
    FlashOnly(DrainQueue(crc, v));
  }

  lemma ViewSame(t: Tier, v: Tier)
    requires v.flash == t.flash && v.mem.items == t.mem.items
    ensures View(v) == View(t) && (Separate(v) <==> Separate(t))
  {
  }

  lemma FlashOnly(t: Tier)
    requires t.mem.items == map[]
    ensures View(t) == Contents(t.flash)
  {
    hide Contents;
  }
}
