/** The commands on the database objects: the memory LRU, the queue and the flash cache. */
module KvDb {
  import opened Bytes
  import opened CacheRecord
  import opened Lru
  import opened FlashSpec
  import opened FlashRefinement
  import FlashCache
  import opened TierSpec
  import opened TierRuns
  import opened TierDrain

  datatype Location = Mem | Flushing

  class KvObject {
    const ptr: Text
    var location: Location

    /** createObject. */
    constructor (ptr: Text)
      ensures this.ptr == ptr && location == Mem
    {
      this.ptr := ptr;
      location := Mem;
    }
  }

  class HashEntry {
    const key: Text
    var val: KvObject

    constructor (key: Text, val: KvObject)
      ensures this.key == key && this.val == val
    {
      this.key, this.val := key, val;
    }
  }

  /** Entries by key: each holds its value, in an object of its own, marked by where it is. */
  ghost predicate EntriesOk(entries: map<Text, HashEntry>, vals: map<Text, Text>, order: seq<Text>, region: set<object>)
    reads region
  {
    && entries.Keys == vals.Keys
    && (forall k :: k in entries ==> (
          && entries[k] in region && entries[k].val in region && entries[k].key == k
          && entries[k].val.ptr == vals[k]
          && entries[k].val.location == if k in order then Mem else Flushing))
    && (forall i, j :: i in entries && j in entries && i != j ==>
          entries[i] != entries[j] && entries[i].val != entries[j].val)
  }

  /** The queue holds the entries of these keys and values. */
  ghost predicate QueueOk(queue: seq<HashEntry>, entries: map<Text, HashEntry>, vals: seq<(Text, Text)>) {
    && |queue| == |vals|
    && forall i :: 0 <= i < |queue| ==> vals[i].0 in entries && queue[i] == entries[vals[i].0]
  }

  lemma QueuePush(queue: seq<HashEntry>, entries: map<Text, HashEntry>, vals: seq<(Text, Text)>, k: Text, v: Text)
    requires QueueOk(queue, entries, vals) && k in entries
    ensures QueueOk(queue + [entries[k]], entries, vals + [(k, v)])
  {
  }

  lemma EntryFacts(entries: map<Text, HashEntry>, vals: map<Text, Text>, order: seq<Text>, region: set<object>, k: Text)
    requires EntriesOk(entries, vals, order, region) && k in entries
    ensures k in vals && entries[k] in region && entries[k].val in region && entries[k].key == k
    ensures entries[k].val.ptr == vals[k]
    ensures entries[k].val.location == if k in order then Mem else Flushing
  {
  }

  /** Only which keys are listed matters, not their order. */
  lemma EntriesReorder(entries: map<Text, HashEntry>, vals: map<Text, Text>, a: seq<Text>, b: seq<Text>,
                       region: set<object>)
    requires EntriesOk(entries, vals, a, region) && forall k :: k in a <==> k in b
    ensures EntriesOk(entries, vals, b, region)
  {
  }

  lemma EntriesAdd(entries: map<Text, HashEntry>, vals: map<Text, Text>, order: seq<Text>, region: set<object>,
                   k: Text, he: HashEntry)
    requires EntriesOk(entries, vals, order, region) && k !in entries
    requires he !in region && he.val !in region && he.key == k && he.val.location == Mem
    ensures EntriesOk(entries[k := he], vals[k := he.val.ptr], [k] + order, region + {he, he.val})
  {
  }

  lemma EntriesErase(entries: map<Text, HashEntry>, vals: map<Text, Text>, order: seq<Text>, region: set<object>,
                     k: Text)
    requires EntriesOk(entries, vals, order, region)
    ensures EntriesOk(entries - {k}, vals - {k}, order, region)
  {
  }

  /** he->val = val for the entry of a listed key. */
  method Overwrite(he: HashEntry, val: KvObject, ghost entries: map<Text, HashEntry>, ghost vals: map<Text, Text>,
                   ghost order: seq<Text>, ghost region: set<object>, ghost k: Text)
    requires EntriesOk(entries, vals, order, region) && k in entries && he == entries[k] && k in order
    requires val !in region && val.location == Mem
    modifies he`val
    ensures EntriesOk(entries, vals[k := val.ptr], order, region + {val})
  {
    he.val := val;
  }

  /** The entry just taken off the list is marked as being flushed. */
  method MarkFlushing(he: HashEntry, ghost entries: map<Text, HashEntry>, ghost vals: map<Text, Text>,
                      ghost order: seq<Text>, ghost rest: seq<Text>, ghost region: set<object>, ghost k: Text)
    requires EntriesOk(entries, vals, order, region) && k in entries && he == entries[k]
    requires k in order && k !in rest && forall x :: x in order ==> x in rest || x == k
    requires forall x :: x in rest ==> x in order
    modifies he.val
    ensures EntriesOk(entries, vals, rest, region)
  {
    he.val.location := Flushing;
  }

  class KvDb {
    const mode: Mode
    const memLRU: LruCache<Text, HashEntry>
    const flashCache: FlashCache.FlashCache
    var memQueue: seq<HashEntry>

    ghost var vals: map<Text, Text>
    ghost var queued: seq<(Text, Text)>
    ghost var region: set<object>

    ghost function Abs(): Tier
      reads this, memLRU, flashCache, flashCache.metadata, flashCache.metadata.fileIndex
    {
      Tier(mode, LruState(memLRU.Abs().order, vals), queued, flashCache.Abs())
    }

    /** The objects of the flash cache. */
    ghost function FlashObjects(): set<object>
      reads flashCache
    {
      {flashCache, flashCache.metadata, flashCache.metadata.fileIndex} + flashCache.region
    }

    ghost predicate MemOk()
      reads this, memLRU, region
    {
      && memLRU.Valid() && EntriesOk(memLRU.Abs().items, vals, memLRU.Abs().order, region)
      && QueueOk(memQueue, memLRU.Abs().items, queued)
      && this !in region && memLRU !in region
    }

    ghost predicate Wired()
      reads this, memLRU, region, FlashObjects()
    {
      && MemOk() && flashCache.Valid()
      && this !in region && memLRU !in region
      && this !in FlashObjects() && memLRU !in FlashObjects() && region !! FlashObjects()
    }

    ghost predicate Valid()
      reads this, memLRU, region, FlashObjects()
    {
      Wired() && TierInv(flashCache.crc, Abs())
    }

    /** initServer: an empty memory over an opened flash cache. */
    constructor (mode: Mode, flashCache: FlashCache.FlashCache)
      requires flashCache.Valid()
      ensures Valid() && fresh(region) && this.flashCache == flashCache
      ensures Abs() == Tier(mode, LruState([], map[]), [], flashCache.Abs())
    {
      hide FlashCache.FlashCache.Valid, FlashInv, TierInv, EntriesOk, Linked;
      flashCache.ValidInv();
      EmptyMemory(flashCache.crc, mode, flashCache.Abs());
      this.mode, this.flashCache := mode, flashCache;
      memLRU := new LruCache();
      memQueue, vals, queued, region := [], map[], [], {};
      new;
      assert Abs() == Tier(mode, LruState([], map[]), [], flashCache.Abs());
    }

    /** The loop of evictAllCommand: as many turns as the list has entries. The wait behind it ends at
        once, since it watches the list and not the map. */
    method EvictAllCommand()
      requires Valid()
      modifies this`memQueue, this`queued, memLRU, region
      ensures Valid() && Abs() == EvictAll(flashCache.crc, old(Abs()))
    {
      hide Wired, TierInv, TierSpec.EvictToQueue;
      var poolSize := memLRU.Size();
      SizeIsLength();
      var i := 0;
      while i < poolSize
        invariant i <= poolSize && Valid() && region == old(region) && |Abs().mem.order| == poolSize - i
        invariant EvictAll(flashCache.crc, Abs()) == EvictAll(flashCache.crc, old(Abs()))
      {
        ghost var t := Abs();
        EvictOneMore(flashCache.crc, t);
        EvictToQueue();
        i := i + 1;
      }
    }

    lemma SizeIsLength()
      ensures |memLRU.Abs().order| == |memLRU.list|
    {
    }

    ghost function MemAbs(): LruState<Text, Text>
      reads this, memLRU
    {
      LruState(memLRU.Abs().order, vals)
    }

    /** LRUCacheEvict, and the entry to the queue. */
    method EvictEntry()
      requires MemOk() && QueueInv(MemAbs(), queued) && MemAbs().order != []
      modifies this`memQueue, this`queued, memLRU, region
      ensures MemOk()
      ensures Oldest(old(MemAbs())) in old(MemAbs()).items && MemAbs() == LruEvict(old(MemAbs()))
      ensures queued == old(queued) + [(Oldest(old(MemAbs())), old(MemAbs()).items[Oldest(old(MemAbs()))])]
    {
      ghost var mem := MemAbs();
      ghost var k := Oldest(mem);
      OldestFacts(mem);
      assert memLRU.list != [] && k == Oldest(memLRU.Abs());
      hide EntriesOk, LruInv, Linked, Oldest, QueueOk, QueueInv, LruCache.Valid, LruCache.Abs;
      ghost var entries := memLRU.Abs().items;
      EntryFacts(entries, vals, mem.order, region, k);
      var he := memLRU.Evict();
      Enqueue(he, entries, mem.order, k);
    }

    /** QueueEnqueue of an entry that was in memory. */
    method Enqueue(he: HashEntry, ghost entries: map<Text, HashEntry>, ghost order: seq<Text>, ghost k: Text)
      requires memLRU.Valid() && memLRU.Abs().items == entries && this !in region && memLRU !in region
      requires EntriesOk(entries, vals, order, region) && QueueOk(memQueue, entries, queued)
      requires k in entries && he == entries[k] && k in order && k !in memLRU.Abs().order
      requires forall x :: x in order <==> x in memLRU.Abs().order || x == k
      modifies this`memQueue, this`queued, region
      ensures MemOk() && vals == old(vals) && memLRU.Abs() == old(memLRU.Abs())
      ensures k in vals && queued == old(queued) + [(k, vals[k])]
    {
      hide EntriesOk, LruInv, Linked, QueueOk, QueueInv, LruCache.Valid, LruCache.Abs;
      EntryFacts(entries, vals, order, region, k);
      if he.val.location == Mem {
        MarkFlushing(he, entries, vals, order, memLRU.Abs().order, region, k);
        QueuePush(memQueue, entries, queued, k, vals[k]);
        memQueue := memQueue + [he];
        queued := queued + [(k, vals[k])];
      }
    }

    /** memUsedCheck when memory is short and the list is not empty; also one turn of evictAllCommand. */
    method EvictToQueue()
      requires Valid() && Abs().mem.order != []
      modifies this`memQueue, this`queued, memLRU, region
      ensures Valid() && region == old(region)
      ensures Oldest(old(Abs()).mem) in old(Abs()).mem.items && Abs() == TierSpec.EvictToQueue(old(Abs()))
    {
      hide EntriesOk, FlashCache.FlashCache.Valid, LruInv, QueueInv, Linked, StoreInv, FlashInv, MemOk, Oldest;
      ghost var t := Abs();
      StepKeepsTier(flashCache.crc, t, OpEvictToQueue);
      EvictEntry();
    }

    /** A key that is not pending has a live iterator. */
    lemma NotPending(key: Text)
      requires MemOk() && !IsPending(MemAbs(), key)
      ensures memLRU.Alive(key) && memLRU.Abs().items.Keys == vals.Keys
      ensures key in vals <==> key in memLRU.Abs().order
    {
      memLRU.ValidAbs();
    }

    /** The branch of cacheAdd for a new key. */
    method AddEntry(key: Text, val: KvObject)
      requires MemOk() && key !in memLRU.Abs().items && val !in region && val.location == Mem
      modifies this`vals, this`region, memLRU
      ensures MemOk() && fresh(region - old(region) - {val})
      ensures memLRU.Abs().order == [key] + old(memLRU.Abs().order) && vals == old(vals)[key := val.ptr]
    {
      hide EntriesOk, Linked;
      ghost var c := memLRU.Abs();
      var entry := new HashEntry(key, val);
      EntriesAdd(c.items, vals, c.order, region, key, entry);
      memLRU.Insert(key, entry);
      vals, region := vals[key := val.ptr], region + {entry, val};
    }

    /** The branch of cacheAdd for a key that is there: it has just become the most recent. */
    method OverwriteEntry(key: Text, he: HashEntry, val: KvObject)
      requires MemOk() && key in memLRU.Abs().order && key in memLRU.Abs().items && he == memLRU.Abs().items[key]
      requires val !in region && val.location == Mem && forall i :: 0 <= i < |queued| ==> queued[i].0 != key
      modifies this`vals, this`region, region
      ensures MemOk() && region == old(region) + {val} && vals == old(vals)[key := val.ptr]
      ensures memLRU.Abs() == old(memLRU.Abs())
    {
      hide EntriesOk, Linked;
      ghost var c := memLRU.Abs();
      EntryFacts(c.items, vals, c.order, region, key);
      Overwrite(he, val, c.items, vals, c.order, region, key);
      vals, region := vals[key := val.ptr], region + {val};
    }

    /** LRUCacheGet, for a key that is not pending. */
    method GetEntry(key: Text) returns (he: Option<HashEntry>)
      requires MemOk() && !IsPending(MemAbs(), key) && NoDup(MemAbs().order)
      modifies memLRU
      ensures MemOk() && MemAbs() == LruTouch(old(MemAbs()), key)
      ensures memLRU.Abs().items == old(memLRU.Abs().items)
      ensures he.Some? <==> key in old(MemAbs()).items
      ensures he.Some? ==> key in memLRU.Abs().order && key in memLRU.Abs().items && he.value == memLRU.Abs().items[key]
                           && he.value.val.ptr == vals[key]
    {
      NotPending(key);
      hide EntriesOk, Linked;
      ghost var c := memLRU.Abs();
      he := memLRU.Get(key);
      assert forall k :: k in c.order <==> k in memLRU.Abs().order;
      EntriesReorder(c.items, vals, c.order, memLRU.Abs().order, region);
      if he.Some? {
        EntryFacts(c.items, vals, memLRU.Abs().order, region, key);
      }
    }

    /** cacheAdd in LRU mode. */
    method CacheAdd(key: Text, val: KvObject)
      requires MemOk() && QueueInv(MemAbs(), queued) && !IsPending(MemAbs(), key)
      requires val !in region && val.location == Mem
      modifies this`vals, this`region, memLRU, region
      ensures MemOk() && fresh(region - old(region) - {val})
      ensures MemAbs() == TierSpec.CacheAdd(old(MemAbs()), key, val.ptr)
    {
      hide EntriesOk, Linked, QueueInv, MemOk, TierSpec.CacheAdd, LruTouch;
      QueuedArePending(MemAbs(), queued, key);
      CacheAddCases(MemAbs(), key, val.ptr);
      ghost var mem := MemAbs();
      var he := GetEntry(key);
      match he {
        case None =>
          MapKeys();
          AddEntry(key, val);
        case Some(e) => OverwriteEntry(key, e, val);
      }
    }

    lemma MapKeys()
      requires MemOk()
      ensures memLRU.Abs().items.Keys == vals.Keys
    {
    }

    /** Memory works; flash is not touched. */
    lemma MemParts()
      requires Valid()
      ensures MemOk() && QueueInv(MemAbs(), queued) && FlashInv(flashCache.crc, flashCache.Abs()) && FlashIdle(Abs())
    {
      hide FlashCache.FlashCache.Valid, MemOk, QueueInv, StoreInv;
      flashCache.NowIdle();
    }

    /** setCommand in LRU mode. */
    method SetInMemory(key: Text, val: Text)
      requires Valid() && mode.MemLru? && Storable(key, val) && !IsPending(MemAbs(), key)
      modifies this`vals, this`region, memLRU, region
      ensures Valid() && fresh(region - old(region))
      ensures Abs() == old(Abs()).(mem := TierSpec.CacheAdd(old(Abs()).mem, key, val))
    {
      hide MemOk, TierInv, FlashCache.FlashCache.Valid, FlashInv, QueueInv, Linked, TierSpec.CacheAdd, Storable;
      MemParts();
      SetKeeps(flashCache.crc, Abs(), key, val);
      var o := new KvObject(val);
      CacheAdd(key, o);
    }

    /** flashCacheInsert. */
    method FlashInsert(key: Text, val: Text)
      requires Wired() && Storable(key, val) && FlashInv(flashCache.crc, flashCache.Abs())
      requires FlashCache.FlashFits(flashCache.Abs(), key, val)
      modifies FlashObjects()
      ensures Wired() && fresh(FlashObjects() - old(FlashObjects()))
      ensures flashCache.Abs() == Insert(old(flashCache.Abs()), flashCache.crc, key, val)
    {
      hide MemOk, FlashCache.FlashCache.Valid, FlashInv, Storable;
      flashCache.Insert(key, val);
    }

    method SetCommand(key: Text, val: Text)
      requires Valid() && Storable(key, val) && !IsPending(MemAbs(), key)
      requires mode.OnlyFlash? ==> FlashCache.FlashFits(flashCache.Abs(), key, val)
      modifies this`vals, this`region, memLRU, region, FlashObjects()
      ensures Valid() && fresh(region - old(region)) && fresh(FlashObjects() - old(FlashObjects()))
      ensures FlashInv(flashCache.crc, old(Abs()).flash)
      ensures Abs() == TierSpec.SetCommand(old(Abs()), flashCache.crc, key, val)
    {
      hide MemOk, FlashCache.FlashCache.Valid, QueueInv, TierSpec.CacheAdd, Storable, StoreInv, Insert;
      if mode.OnlyFlash? {
        MemParts();
        InsertRefines(flashCache.crc, flashCache.Abs(), key, val);
        FlashInsert(key, val);
      } else {
        SetInMemory(key, val);
      }
    }

    /** flashCacheLookup. */
    method FlashLookup(key: Text) returns (r: Option<Text>)
      requires Wired() && FlashInv(flashCache.crc, flashCache.Abs())
      modifies flashCache.metadata.fileIndex
      ensures Wired() && flashCache.Abs() == Looked(old(flashCache.Abs()), key)
      ensures (LookupRefines(flashCache.crc, old(flashCache.Abs()), key);
        r == Lookup(old(flashCache.Abs()), flashCache.crc, key))
    {
      hide MemOk, FlashCache.FlashCache.Valid, FlashInv, Lookup, InRange;
      r := flashCache.Lookup(key);
    }

    /** The end of getCommand: keep a value found on flash in memory, and forget it on flash. */
    method Promote(key: Text, val: Text)
      requires Wired() && QueueInv(MemAbs(), queued) && !IsPending(MemAbs(), key)
      modifies this`vals, this`region, memLRU, region, flashCache.metadata
      ensures Wired() && fresh(region - old(region))
      ensures Abs() == old(Abs()).(mem := TierSpec.CacheAdd(old(Abs()).mem, key, val),
                                   flash := DeleteKey(old(Abs()).flash, key))
    {
      hide MemOk, FlashCache.FlashCache.Valid, QueueInv, TierSpec.CacheAdd;
      WiredMem();
      var o := new KvObject(val);
      CacheAdd(key, o);
      flashCache.DeleteMetaData(key);
    }

    lemma WiredMem()
      requires Wired()
      ensures MemOk() && flashCache.Valid()
    {
    }

    /** The reply of getCommand; None is "+Empty!". */
    method GetCommand(key: Text) returns (r: Option<Text>)
      requires Valid() && Storable(key, []) && !IsPending(MemAbs(), key)
      modifies this`vals, this`region, memLRU, region, flashCache.metadata, flashCache.metadata.fileIndex
      ensures Valid() && fresh(region - old(region))
      ensures (GetKeeps(flashCache.crc, old(Abs()), key);
        && Abs() == TierSpec.GetCommand(old(Abs()), flashCache.crc, key)
        && r == GetReply(old(Abs()), flashCache.crc, key))
    {
      hide MemOk, FlashCache.FlashCache.Valid, QueueInv, TierSpec.CacheAdd, StoreInv, Lookup, InRange, TierInv,
           FlashInv;
      ghost var t := Abs();
      MemParts();
      GetKeeps(flashCache.crc, t, key);
      if mode.OnlyFlash? {
        r := FlashLookup(key);
        return;
      }
      MemLists();
      NoneMeansAbsent(flashCache.crc, t.flash, key);
      var he := GetEntry(key);
      match he {
        case Some(e) => r := Some(e.val.ptr);
        case None =>
          assert MemAbs() == t.mem;
          r := FlashLookup(key);
          match r {
            case Some(v) => Promote(key, v);
            case None =>
          }
      }
    }

    lemma MemLists()
      requires MemOk() && QueueInv(MemAbs(), queued)
      ensures NoDup(MemAbs().order) && forall k :: k in MemAbs().order ==> k in MemAbs().items
    {
    }

    /** QueueDequeue. */
    method Dequeue() returns (he: HashEntry)
      requires MemOk() && memQueue != []
      modifies this`memQueue, this`queued
      ensures old(queued) != [] && old(queued)[0].0 in vals
      ensures he.key == old(queued)[0].0 && he.val.ptr == vals[he.key]
      ensures MemOk() && queued == old(queued)[1..]
    {
      hide EntriesOk, Linked;
      EntryFacts(memLRU.Abs().items, vals, memLRU.Abs().order, region, queued[0].0);
      he := memQueue[0];
      memQueue, queued := memQueue[1..], queued[1..];
    }

    /** LRUCacheErase, of a key that is neither listed nor queued any more. */
    method EraseEntry(key: Text)
      requires MemOk() && key !in MemAbs().order && forall i :: 0 <= i < |queued| ==> queued[i].0 != key
      modifies this`vals, memLRU
      ensures MemOk() && MemAbs() == LruErase(old(MemAbs()), key)
    {
      hide EntriesOk, Linked;
      EntriesErase(memLRU.Abs().items, vals, memLRU.Abs().order, region, key);
      memLRU.Erase(key);
      vals := vals - {key};
    }

    /** The background worker: the head of the queue goes to flash and leaves the map. */
    method FlushOne()
      requires Valid() && queued != []
      requires FlashCache.FlashFits(flashCache.Abs(), queued[0].0, queued[0].1)
      modifies this`memQueue, this`queued, this`vals, memLRU, FlashObjects()
      ensures Valid() && fresh(FlashObjects() - old(FlashObjects()))
      ensures (QueueHead(flashCache.crc, old(Abs())); Abs() == TierSpec.FlushOne(old(Abs()), flashCache.crc))
    {
      hide FlashCache.FlashCache.Valid, StoreInv, TierInv, FlashInv, MemOk, QueueInv, Insert, Storable;
      ghost var t := Abs();
      MemParts();
      QueueHead(flashCache.crc, t);
      FlushKeeps(flashCache.crc, t);
      QueueLength();
      var he := Dequeue();
      FlashInsert(he.key, he.val.ptr);
      EraseEntry(he.key);
    }

    lemma QueueLength()
      requires MemOk()
      ensures |memQueue| == |queued|
    {
    }
  }

  lemma NoneMeansAbsent(crc: Checksum, f: Flash, key: Text)
    requires key in f.index ==> InRange(f, key)
    ensures Lookup(f, crc, key).None? ==> Looked(f, key) == f
  {
  }

  lemma GetKeeps(crc: Checksum, t: Tier, key: Text)
    requires TierInv(crc, t) && Storable(key, []) && !IsPending(t.mem, key)
    ensures key in t.flash.index ==> InRange(t.flash, key)
    ensures TierInv(crc, GetCommand(t, crc, key))
  {
    IndexInRange(crc, t.flash);
    StepKeepsTier(crc, t, OpGet(key));
    hide TierInv;
  }

  lemma QueueHead(crc: Checksum, t: Tier)
    requires TierInv(crc, t) && t.queue != []
    ensures FlashInv(crc, t.flash) && Storable(t.queue[0].0, t.queue[0].1)
    ensures IsPending(t.mem, t.queue[0].0) && t.mem.items[t.queue[0].0] == t.queue[0].1
    ensures forall i :: 0 < i < |t.queue| ==> t.queue[i].0 != t.queue[0].0
  {
    hide StoreInv, Storable;
    QueuedStorable(crc, t);
    assert t.queue[0].0 in t.mem.items;
  }

  lemma FlushKeeps(crc: Checksum, t: Tier)
    requires TierInv(crc, t) && t.queue != [] && FlashIdle(t)
    requires FlashInv(crc, t.flash) && Storable(t.queue[0].0, t.queue[0].1)
    ensures TierInv(crc, FlushOne(t, crc))
  {
    hide TierInv, FlashInv, Insert, Storable;
    StepKeepsTier(crc, t, OpFlush());
  }

  lemma SetKeeps(crc: Checksum, t: Tier, key: Text, val: Text)
    requires TierInv(crc, t) && t.mode.MemLru? && Storable(key, val) && !IsPending(t.mem, key)
    ensures TierInv(crc, t.(mem := CacheAdd(t.mem, key, val)))
  {
    StepKeepsTier(crc, t, OpSet(key, val));
    hide TierInv;
  }

  lemma EvictOneMore(crc: Checksum, t: Tier)
    requires TierInv(crc, t) && t.mem.order != []
    ensures Oldest(t.mem) in t.mem.items && TierInv(crc, EvictToQueue(t))
    ensures EvictAll(crc, t) == EvictAll(crc, EvictToQueue(t))
    ensures |EvictToQueue(t).mem.order| == |t.mem.order| - 1
  {
    StepKeepsTier(crc, t, OpEvictToQueue);
    hide TierInv;
  }

  lemma CacheAddCases(mem: LruState<Text, Text>, key: Text, v: Text)
    requires key in mem.items <==> key in mem.order
    ensures key !in mem.items ==> LruTouch(mem, key) == mem
                                  && CacheAdd(mem, key, v) == LruState([key] + mem.order, mem.items[key := v])
    ensures key in mem.items ==> LruTouch(mem, key).items == mem.items
                                 && CacheAdd(mem, key, v)
                                    == LruState(LruTouch(mem, key).order, mem.items[key := v])
  {
  }

  lemma QueuedArePending(mem: LruState<Text, Text>, queue: seq<(Text, Text)>, key: Text)
    requires QueueInv(mem, queue) && !IsPending(mem, key)
    ensures NoDup(mem.order) && forall i :: 0 <= i < |queue| ==> queue[i].0 != key
    ensures key in mem.items <==> key in mem.order
  {
  }

  lemma EmptyMemory(crc: Checksum, mode: Mode, f: Flash)
    requires FlashInv(crc, f)
    ensures TierInv(crc, Tier(mode, LruState([], map[]), [], f))
    ensures EntriesOk(map[], map[], [], {})
  {
  }

  lemma OldestFacts(mem: LruState<Text, Text>)
    requires LruInv(mem) && mem.order != []
    ensures Oldest(mem) in mem.order && Oldest(mem) !in LruEvict(mem).order
    ensures forall x :: x in mem.order <==> x in LruEvict(mem).order || x == Oldest(mem)
  {
  }
}
