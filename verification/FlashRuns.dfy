/** What every run of the flash cache keeps: the contents, the size account, and room made by eviction. */
module FlashRuns {
  import opened Bytes
  import opened CacheRecord
  import opened Layout
  import opened FileSpec
  import opened FileReads
  import opened Lru
  import opened FlashSpec
  import opened FlashRefinement

  // ---------- The size account ----------

  /** The bytes that size_ counts for a file: all that was appended to it, or what was found of it. */
  function Charge(s: FileState): nat {
    if s.cut then |s.disk| else |s.Stream()|
  }

  function Total(order: seq<nat>, items: map<nat, FileState>): nat
    requires forall id :: id in order ==> id in items
  {
    if order == [] then 0 else Charge(items[order[0]]) + Total(order[1..], items)
  }

  /** size_ is the sum for the indexed files, and `debt` more. */
  ghost predicate SizeIs(f: Flash, debt: int) {
    && (forall id :: id in f.files.order ==> id in f.files.items)
    && f.size == Total(f.files.order, f.files.items) + debt
  }

  ghost predicate SizeExact(f: Flash) {
    SizeIs(f, 0)
  }

  /** What eviction of a file does not give back. */
  function Lost(s: FileState): int {
    Charge(s) - |s.disk|
  }

  /** That is nothing exactly when all of the file that is counted is on flash. */
  lemma LostNothing(s: FileState)
    requires FileInv(s)
    ensures Lost(s) >= 0 && (!s.cut ==> (Lost(s) == 0 <==> s.disk == s.Stream())) && (s.cut ==> Lost(s) == 0)
  {
    DiskIsPrefix(s);
  }

  lemma {:induction false} TotalWithout(order: seq<nat>, items: map<nat, FileState>, v: nat)
    requires NoDup(order) && v in order && forall id :: id in order ==> id in items
    ensures Total(order, items) == Charge(items[v]) + Total(Without(order, v), items)
  {
    if order[0] == v {
      assert v !in order[1..];
      WithoutAbsent(order[1..], v);
      assert Without(order, v) == order[1..];
    } else {
      assert NoDup(order[1..]);
      TotalWithout(order[1..], items, v);
      var rest := Without(order[1..], v);
      assert Without(order, v) == [order[0]] + rest && ([order[0]] + rest)[1..] == rest;
    }
  }

  /** Total looks only at the listed files, and only at what is counted for them. */
  lemma {:induction false} TotalSame(order: seq<nat>, a: map<nat, FileState>, b: map<nat, FileState>)
    requires forall id :: id in order ==> id in a && id in b && Charge(a[id]) == Charge(b[id])
    ensures Total(order, a) == Total(order, b)
  {
    if order != [] {
      TotalSame(order[1..], a, b);
    }
  }

  /** One file grows, the others stay. */
  lemma TotalGrows(order: seq<nat>, a: map<nat, FileState>, v: nat, t: FileState)
    requires NoDup(order) && v in order && forall id :: id in order ==> id in a
    ensures Total(order, a[v := t]) == Total(order, a) - Charge(a[v]) + Charge(t)
  {
    hide EncodeAll;
    TotalWithout(order, a, v);
    TotalWithout(order, a[v := t], v);
    TotalSame(Without(order, v), a, a[v := t]);
  }

  lemma TotalTouch(order: seq<nat>, items: map<nat, FileState>, v: nat)
    requires NoDup(order) && v in order && forall id :: id in order ==> id in items
    ensures Total([v] + Without(order, v), items) == Total(order, items)
  {
    TotalWithout(order, items, v);
    assert ([v] + Without(order, v))[1..] == Without(order, v);
  }

  lemma {:induction false} TotalEvict(order: seq<nat>, items: map<nat, FileState>)
    requires NoDup(order) && order != [] && forall id :: id in order ==> id in items
    ensures var v, rest := order[|order| - 1], order[..|order| - 1];
      Total(order, items) == Charge(items[v]) + Total(rest, items - {v})
  {
    var v, rest := order[|order| - 1], order[..|order| - 1];
    TotalWithout(order, items, v);
    WithoutAt(order, |order| - 1);
    assert Without(order, v) == rest;
    TotalSame(rest, items, items - {v});
  }

  /** An eviction adds to the debt what the victim had lost: those bytes stay counted for ever. */
  lemma EvictOneSize(crc: Checksum, f: Flash, debt: int)
    requires FlashInv(crc, f) && f.files.order != [] && SizeIs(f, debt)
    ensures Oldest(f.files) in f.files.items
    ensures SizeIs(EvictOne(f), debt + Lost(f.files.items[Oldest(f.files)]))
  {
    hide EncodeAll, Total, LruInv, KeySet, FileInv;
    assert NoDup(f.files.order) by { LruNoDup(f.files); }
    TotalEvict(f.files.order, f.files.items);
    assert forall id :: id in EvictOne(f).files.order ==> id in f.files.order && id != Oldest(f.files);
  }

  lemma InsertSize(crc: Checksum, f: Flash, key: Text, val: Text, whole: bool, debt: int)
    requires FlashInv(crc, f) && Storable(key, val) && SizeIs(f, debt)
    ensures SizeIs(Insert(f, crc, key, val, whole), debt)
  {
    RolledSize(crc, f, debt);
    RolledIsOpen(crc, f);
    OpenHasBuffers(crc, Rolled(f));
    InsertRecordSize(crc, Rolled(f), MakeRecord(crc, key, val), whole, debt);
    hide StoreInv, SizeIs, InsertRecord, Rolled;
  }

  lemma InsertRecordSize(crc: Checksum, f: Flash, r: Record, whole: bool, debt: int)
    requires FlashInv(crc, f) && SizeIs(f, debt) && !f.files.items[f.cur].eof
    requires f.files.items[f.cur].buffered ==> f.files.items[f.cur].w > 0
    ensures SizeIs(InsertRecord(f, r, whole), debt)
  {
    hide EncodeAll, FileOk, IndexOk, LruInv, Serialize;
    var s := f.files.items[f.cur];
    CurIsWhole(crc, f);
    EncodeSnoc(s.recs, r);
    assert Taken(s, r, whole).recs == s.recs + [r];
    assert (s.recs + [r])[|s.recs|] == r;
    hide Taken;
    assert NoDup(f.files.order) by { LruNoDup(f.files); }
    TotalGrows(f.files.order, f.files.items, f.cur, Taken(s, r, whole));
  }

  lemma CurIsWhole(crc: Checksum, f: Flash)
    requires FlashInv(crc, f) && !f.files.items[f.cur].eof
    ensures !f.files.items[f.cur].cut
  {
    OpenIsWhole(f.files.items[f.cur]);
  }

  lemma LruNoDup(c: LruState<nat, FileState>)
    requires LruInv(c)
    ensures NoDup(c.order)
  {
  }

  lemma RolledSize(crc: Checksum, f: Flash, debt: int)
    requires FlashInv(crc, f) && SizeIs(f, debt)
    ensures SizeIs(Rolled(f), debt)
  {
    hide FileOk, LruInv, IndexOk;
    NewCacheFileFiles(crc, f);
    if f.files.items[f.cur].eof {
      var g := NewCacheFile(f);
      assert g.files.order[1..] == f.files.order;
      TotalSame(f.files.order, f.files.items, g.files.items);
      assert g.files.items[f.nextId].Stream() == [];
    }
  }

  lemma LookedSize(crc: Checksum, f: Flash, key: Text, debt: int)
    requires FlashInv(crc, f) && SizeIs(f, debt)
    ensures SizeIs(Looked(f, key), debt)
  {
    hide StoreInv, SizeIs;
    if key in f.index {
      IndexedIsListed(crc, f, key);
      TouchedSize(f, f.index[key].cacheId, debt);
    }
  }

  lemma TouchedSize(f: Flash, id: nat, debt: int)
    requires SizeIs(f, debt) && NoDup(f.files.order) && id in f.files.order
    ensures SizeIs(f.(files := LruTouch(f.files, id)), debt)
  {
    hide Total, NoDup;
    TotalTouch(f.files.order, f.files.items, id);
  }

  lemma IndexedIsListed(crc: Checksum, f: Flash, key: Text)
    requires FlashInv(crc, f) && key in f.index
    ensures NoDup(f.files.order) && f.index[key].cacheId in f.files.order
  {
    hide FileOk, Issued;
  }

  lemma FileStepSize(crc: Checksum, f: Flash, id: nat, op: FileOp, debt: int)
    requires FlashInv(crc, f) && SizeIs(f, debt) && id in f.files.items && Enabled(f.files.items[id], op) && !op.Put?
    ensures SizeIs(FileStep(f, id, op), debt)
  {
    hide FileOk, IndexOk, EncodeAll, Charge, Apply, Enabled, Total;
    StepKeepsCharge(crc, f, id, op);
    assert NoDup(f.files.order) by { LruNoDup(f.files); }
    TotalGrows(f.files.order, f.files.items, id, Apply(f.files.items[id], op));
  }

  /** What is counted for a file does not change once a record is in. */
  lemma StepKeepsCharge(crc: Checksum, f: Flash, id: nat, op: FileOp)
    requires FlashInv(crc, f) && id in f.files.items && Enabled(f.files.items[id], op) && !op.Put?
    ensures Charge(Apply(f.files.items[id], op)) == Charge(f.files.items[id]) && id in f.files.order
  {
    hide IndexOk, EncodeAll, Segment, LruInv, BufferInv, WriterInv, SizeInv, RecordsSound, CutOff;
    var s := f.files.items[id];
    assert s.cut ==> s.pc.Exited?;
  }

  // ---------- Which file a record goes to ----------

  lemma AppendFills(s: FileState, r: Record)
    requires s.buffered ==> s.w > 0
    requires !s.buffered ==> s.disk == s.Stream()
    ensures var t := Append(s, r);
      && (t.eof <==> |t.Stream()| >= s.maxSize) && t.recs == s.recs + [r]
      && t.maxSize == s.maxSize && t.w == s.w && t.buffered == s.buffered && t.id == s.id
  {
    EncodeSnoc(s.recs, r);
    hide EncodeAll, Serialize;
  }

  /** A full file is replaced by a new one of the configured sizes, under the next id; one that is not full takes the
      record. Either way the file is full afterwards exactly when it has reached the configured size. */
  lemma InsertRolls(crc: Checksum, f: Flash, key: Text, val: Text)
    requires FlashInv(crc, f) && Storable(key, val)
    ensures var g, s := Insert(f, crc, key, val), f.files.items[f.cur];
      && g.cur == (if s.eof then f.nextId else f.cur) && g.cur in g.files.items
      && g.nextId == (if s.eof then f.nextId + 1 else f.nextId)
      && g.files.items.Keys == f.files.items.Keys + {g.cur}
      && (forall id :: id in f.files.items && id != g.cur ==> g.files.items[id] == f.files.items[id])
      && var t := g.files.items[g.cur];
         && t.recs == (if s.eof then [] else s.recs) + [MakeRecord(crc, key, val)]
         && t.id == g.cur && t.maxSize == f.cfg.fileSize && t.w == f.cfg.w && t.buffered == f.cfg.buffered
         && (t.eof <==> |t.Stream()| >= f.cfg.fileSize)
  {
    hide NulFree, MakeRecord, EncodeAll, Serialize, Append, LruInv, IndexOk, Contents, RecordsSound, BufferInv, SizeInv,
         WriterInv;
    RolledIsOpen(crc, f);
    OpenHasBuffers(crc, Rolled(f));
    AppendFills(Rolled(f).files.items[Rolled(f).cur], MakeRecord(crc, key, val));
  }

  // ---------- The eviction loop ----------

  /** The least recent file may be popped: it is not being appended to, and its writer has exited. Whether all of it is
      on flash does not matter. (Delete would join a running writer while it holds the lock that this writer takes
      to make room for its own buffers.) */
  ghost predicate VictimOk(f: Flash) {
    && f.files.order != [] && Oldest(f.files) in f.files.items && Oldest(f.files) != f.cur
    && f.files.items[Oldest(f.files)].pc.Exited?
  }

  /** The same for all files that the loop pops. */
  ghost predicate VictimsOk(f: Flash, size: nat)
    decreases |f.files.order|
  {
    || size + f.size <= f.cfg.cacheSize
    || f.files.order == []
    || (VictimOk(f) && VictimsOk(EvictOne(f), size))
  }

  /** The keys of the file that is popped, and what it had lost. */
  function PoppedKeys(f: Flash): set<Text> {
    if f.files.order == [] || Oldest(f.files) !in f.files.items then {} else KeySet(f.files.items[Oldest(f.files)])
  }

  function PopDebt(f: Flash): int {
    if f.files.order == [] || Oldest(f.files) !in f.files.items then 0 else Lost(f.files.items[Oldest(f.files)])
  }

  /** What the files that the loop pops had lost. */
  function EvictDebt(f: Flash, size: nat): int
    decreases |f.files.order|
  {
    if size + f.size <= f.cfg.cacheSize || f.files.order == [] || Oldest(f.files) !in f.files.items then 0
    else Lost(f.files.items[Oldest(f.files)]) + EvictDebt(EvictOne(f), size)
  }

  /** The keys of the files that the loop pops. */
  function EvictedKeys(f: Flash, size: nat): set<Text>
    decreases |f.files.order|
  {
    if size + f.size <= f.cfg.cacheSize || f.files.order == [] || Oldest(f.files) !in f.files.items then {}
    else KeySet(f.files.items[Oldest(f.files)]) + EvictedKeys(EvictOne(f), size)
  }

  /** Eviction removes from the contents exactly the keys of the files it pops. */
  lemma {:induction false} EvictRefines(crc: Checksum, f: Flash, size: nat)
    requires FlashInv(crc, f) && VictimsOk(f, size)
    ensures FlashInv(crc, Evict(f, size))
    ensures Contents(Evict(f, size)) == Contents(f) - EvictedKeys(f, size)
    ensures Evict(f, size).nextId == f.nextId && Evict(f, size).cfg == f.cfg && Evict(f, size).cur == f.cur
    decreases |f.files.order|
  {
    hide Contents, KeySet, FileOk;
    if size + f.size > f.cfg.cacheSize && f.files.order != [] {
      EvictOneRefines(crc, f);
      EvictRefines(crc, EvictOne(f), size);
      assert Contents(f) - KeySet(f.files.items[Oldest(f.files)]) - EvictedKeys(EvictOne(f), size)
          == Contents(f) - (KeySet(f.files.items[Oldest(f.files)]) + EvictedKeys(EvictOne(f), size));
    }
  }

  /** The loop makes the room asked for and never pops an empty list; it keeps the most recent
      files, in their order. */
  lemma {:induction false} EvictMakesRoom(crc: Checksum, f: Flash, size: nat)
    requires FlashInv(crc, f) && VictimsOk(f, size)
    ensures size + Evict(f, size).size <= f.cfg.cacheSize
    ensures Evict(f, size).files.order != [] && Evict(f, size).files.order <= f.files.order
    ensures forall id :: id in Evict(f, size).files.order ==>
              id in f.files.items && id in Evict(f, size).files.items
              && Evict(f, size).files.items[id] == f.files.items[id]
    ensures size + f.size > f.cfg.cacheSize ==> |Evict(f, size).files.order| < |f.files.order|
    decreases |f.files.order|
  {
    hide KeySet, Contents, FileOk, IndexOk;
    CurListed(crc, f);
    if size + f.size > f.cfg.cacheSize {
      EvictOneRefines(crc, f);
      EvictMakesRoom(crc, EvictOne(f), size);
    }
  }

  lemma CurListed(crc: Checksum, f: Flash)
    requires FlashInv(crc, f)
    ensures f.cur in f.files.order && forall id :: id in f.files.order ==> id in f.files.items
  {
  }

  /** The debt grows by what the popped files had lost. */
  lemma {:induction false} EvictSize(crc: Checksum, f: Flash, size: nat, debt: int)
    requires FlashInv(crc, f) && VictimsOk(f, size) && SizeIs(f, debt)
    ensures SizeIs(Evict(f, size), debt + EvictDebt(f, size)) && EvictDebt(f, size) >= 0
    decreases |f.files.order|
  {
    hide KeySet, StoreInv, Contents, LruInv, SizeIs, Lost;
    if size + f.size > f.cfg.cacheSize && f.files.order != [] {
      EvictOneSize(crc, f, debt);
      EvictOneRefines(crc, f);
      VictimLost(crc, f);
      EvictSize(crc, EvictOne(f), size, debt + Lost(f.files.items[Oldest(f.files)]));
    }
  }

  lemma VictimLost(crc: Checksum, f: Flash)
    requires FlashInv(crc, f) && f.files.order != []
    ensures Oldest(f.files) in f.files.items && Lost(f.files.items[Oldest(f.files)]) >= 0
  {
    LostNothing(f.files.items[Oldest(f.files)]);
  }

  /** The bytes on flash of the listed files, which is what eviction can give back. */
  function OnFlash(order: seq<nat>, items: map<nat, FileState>): nat {
    if order == [] then 0
    else
      (if order[|order| - 1] in items then |items[order[|order| - 1]].disk| else 0)
      + OnFlash(order[..|order| - 1], items)
  }

  lemma {:induction false} OnFlashSame(order: seq<nat>, a: map<nat, FileState>, b: map<nat, FileState>)
    requires forall id :: id in order ==> id in a && id in b && a[id] == b[id]
    ensures OnFlash(order, a) == OnFlash(order, b)
  {
    if order != [] {
      OnFlashSame(order[..|order| - 1], a, b);
    }
  }

  /** Left to itself the loop goes on to an empty list exactly when even all the bytes on flash are not
      enough room. */
  lemma {:induction false} EvictRunsDry(f: Flash, size: nat)
    requires LruInv(f.files)
    ensures size + Evict(f, size).size > f.cfg.cacheSize
            <==> size + f.size - OnFlash(f.files.order, f.files.items) > f.cfg.cacheSize
    ensures size + Evict(f, size).size > f.cfg.cacheSize ==> Evict(f, size).files.order == []
    decreases |f.files.order|
  {
    hide KeySet;
    if size + f.size > f.cfg.cacheSize && f.files.order != [] {
      var v, rest := Oldest(f.files), f.files.order[..|f.files.order| - 1];
      UseKeepsListed(f.files);
      OnFlashSame(rest, f.files.items, f.files.items - {v});
      EvictRunsDry(EvictOne(f), size);
    }
  }

  lemma UseKeepsListed(c: LruState<nat, FileState>)
    requires LruInv(c) && c.order != []
    ensures LruInv(LruErase(LruEvict(c), Oldest(c))) && Oldest(c) in c.items
    ensures forall id :: id in c.order[..|c.order| - 1] ==> id != Oldest(c) && id in c.items
  {
  }

  /** That sum, in terms of the account. */
  lemma {:induction false} NotOnFlash(order: seq<nat>, items: map<nat, FileState>)
    requires NoDup(order) && forall id :: id in order ==> id in items
    ensures Total(order, items) - OnFlash(order, items) == TotalLost(order, items)
  {
    if order != [] {
      var v, rest := order[|order| - 1], order[..|order| - 1];
      NotOnFlash(rest, items);
      TotalEvict(order, items);
      TotalSame(rest, items, items - {v});
    }
  }

  function TotalLost(order: seq<nat>, items: map<nat, FileState>): int
    requires forall id :: id in order ==> id in items
  {
    if order == [] then 0 else Lost(items[order[|order| - 1]]) + TotalLost(order[..|order| - 1], items)
  }

  /** In terms of the account: exactly when the request, the debt, and what the files have lost exceed the cache. */
  lemma EvictPopsEmpty(crc: Checksum, f: Flash, size: nat, debt: int)
    requires FlashInv(crc, f) && SizeIs(f, debt)
    ensures size + Evict(f, size).size > f.cfg.cacheSize
            <==> size + debt + TotalLost(f.files.order, f.files.items) > f.cfg.cacheSize
    ensures size + Evict(f, size).size > f.cfg.cacheSize ==> Evict(f, size).files.order == []
  {
    hide Evict, Total, TotalLost, OnFlash, IndexOk, FileOk;
    EvictRunsDry(f, size);
    NotOnFlash(f.files.order, f.files.items);
  }

  // ---------- Runs ----------

  /** OpInsert is an insert with its append all done, or only begun; OpFile is any step of any file's writer,
      of an append begun, or of the closing of a file; OpEvict is one turn of the loop that a writer goes
      through before each buffer, from taking the lock on (another turn may have made room since the loop
      tested for it). */
  datatype FlashOp =
    | OpInsert(key: Text, val: Text, whole: bool := true)
    | OpLookup(key: Text)
    | OpDelete(key: Text)
    | OpFile(id: nat, op: FileOp)
    | OpEvict

  ghost predicate CanStep(f: Flash, op: FlashOp) {
    match op
    case OpInsert(key, val, _) => Storable(key, val) && f.cur in f.files.items && CurIdle(f)
    case OpLookup(key) => true
    case OpDelete(key) => true
    case OpFile(id, step) => id in f.files.items && Enabled(f.files.items[id], step) && !step.Put?
    case OpEvict => VictimOk(f)
  }

  ghost function StepFlash(crc: Checksum, f: Flash, op: FlashOp): Flash
    requires FlashInv(crc, f) && CanStep(f, op)
  {
    match op
    case OpInsert(key, val, whole) => Insert(f, crc, key, val, whole)
    case OpLookup(key) => Looked(f, key)
    case OpDelete(key) => DeleteKey(f, key)
    case OpFile(id, step) => FileStep(f, id, step)
    case OpEvict => EvictOne(f)
  }

  /** The same operation on the abstract map. */
  ghost function StepMap(m: map<Text, Text>, f: Flash, op: FlashOp): map<Text, Text> {
    match op
    case OpInsert(key, val, _) => if key in m then m else m[key := val]
    case OpDelete(key) => m - {key}
    case OpEvict => m - PoppedKeys(f)
    case _ => m
  }

  /** Every operation acts on the contents as it does on the map, and keeps the invariant. */
  lemma StepRefines(crc: Checksum, f: Flash, op: FlashOp)
    requires FlashInv(crc, f) && CanStep(f, op)
    ensures FlashInv(crc, StepFlash(crc, f, op))
    ensures Contents(StepFlash(crc, f, op)) == StepMap(Contents(f), f, op)
  {
    hide Contents, FileOk, IndexOk;
    match op
    case OpInsert(key, val, whole) => InsertRefines(crc, f, key, val, whole);
    case OpLookup(key) => LookedKeeps(crc, f, key);
    case OpDelete(key) => FewerEntries(crc, f, {key});
    case OpFile(id, step) => FileStepRefines(crc, f, id, step);
    case OpEvict => EvictOneRefines(crc, f);
  }

  /** The debt that a step adds. */
  function StepDebt(f: Flash, op: FlashOp): int {
    if op.OpEvict? then PopDebt(f) else 0
  }

  lemma StepSize(crc: Checksum, f: Flash, op: FlashOp, debt: int)
    requires FlashInv(crc, f) && CanStep(f, op) && SizeIs(f, debt)
    ensures SizeIs(StepFlash(crc, f, op), debt + StepDebt(f, op)) && StepDebt(f, op) >= 0
  {
    hide Contents, FileOk, IndexOk, Total;
    match op
    case OpInsert(key, val, whole) =>
      InsertRefines(crc, f, key, val, whole);
      InsertSize(crc, f, key, val, whole, debt);
    case OpLookup(key) => LookedSize(crc, f, key, debt);
    case OpDelete(key) =>
    case OpFile(id, step) => FileStepSize(crc, f, id, step, debt);
    case OpEvict =>
      EvictOneSize(crc, f, debt);
      VictimLost(crc, f);
  }

  ghost predicate CanRunFlash(crc: Checksum, f: Flash, ops: seq<FlashOp>)
    requires FlashInv(crc, f)
    decreases |ops|
  {
    ops == [] || (CanStep(f, ops[0])
                  && (StepRefines(crc, f, ops[0]); CanRunFlash(crc, StepFlash(crc, f, ops[0]), ops[1..])))
  }

  ghost function RunFlash(crc: Checksum, f: Flash, ops: seq<FlashOp>): Flash
    requires FlashInv(crc, f) && CanRunFlash(crc, f, ops)
    decreases |ops|
  {
    if ops == [] then f else StepRefines(crc, f, ops[0]); RunFlash(crc, StepFlash(crc, f, ops[0]), ops[1..])
  }

  /** The loop, undisturbed, is a run of its turns. */
  lemma {:induction false} EvictIsTurns(crc: Checksum, f: Flash, size: nat) returns (turns: seq<FlashOp>)
    requires FlashInv(crc, f) && VictimsOk(f, size)
    ensures forall i :: 0 <= i < |turns| ==> turns[i].OpEvict?
    ensures CanRunFlash(crc, f, turns) && RunFlash(crc, f, turns) == Evict(f, size)
    decreases |f.files.order|
  {
    hide StoreInv, EvictOne, Contents;
    CurListed(crc, f);
    if size + f.size <= f.cfg.cacheSize {
      turns := [];
    } else {
      StepRefines(crc, f, OpEvict);
      PopShortens(f);
      var rest := EvictIsTurns(crc, EvictOne(f), size);
      turns := [OpEvict] + rest;
      assert turns[1..] == rest;
    }
  }

  lemma PopShortens(f: Flash)
    requires VictimOk(f)
    ensures |EvictOne(f).files.order| < |f.files.order|
  {
  }

  ghost function RunMap(crc: Checksum, m: map<Text, Text>, f: Flash, ops: seq<FlashOp>): map<Text, Text>
    requires FlashInv(crc, f) && CanRunFlash(crc, f, ops)
    decreases |ops|
  {
    if ops == [] then m
    else StepRefines(crc, f, ops[0]); RunMap(crc, StepMap(m, f, ops[0]), StepFlash(crc, f, ops[0]), ops[1..])
  }

  /** In every run the cache shows what the abstract map holds: values are first-wins until
      erased, whatever rolls over, is flushed, closed or evicted in between. */
  lemma {:induction false} RunRefines(crc: Checksum, f: Flash, ops: seq<FlashOp>)
    requires FlashInv(crc, f) && CanRunFlash(crc, f, ops)
    ensures FlashInv(crc, RunFlash(crc, f, ops))
    ensures Contents(RunFlash(crc, f, ops)) == RunMap(crc, Contents(f), f, ops)
    decreases |ops|
  {
    hide Contents, StoreInv, CanStep, StepFlash;
    if ops != [] {
      StepRefines(crc, f, ops[0]);
      RunRefines(crc, StepFlash(crc, f, ops[0]), ops[1..]);
    }
  }

  lemma {:induction false} RunFlashJoin(crc: Checksum, f: Flash, a: seq<FlashOp>, b: seq<FlashOp>)
    requires FlashInv(crc, f) && CanRunFlash(crc, f, a)
    requires (RunRefines(crc, f, a); CanRunFlash(crc, RunFlash(crc, f, a), b))
    ensures CanRunFlash(crc, f, a + b)
    ensures (RunRefines(crc, f, a); RunFlash(crc, f, a + b) == RunFlash(crc, RunFlash(crc, f, a), b))
    decreases |a|
  {
    hide StoreInv, CanStep, StepFlash, Contents;
    RunRefines(crc, f, a);
    if a == [] {
      assert a + b == b;
    } else {
      StepRefines(crc, f, a[0]);
      RunFlashJoin(crc, StepFlash(crc, f, a[0]), a[1..], b);
      RunRefines(crc, StepFlash(crc, f, a[0]), a[1..]);
      assert (a + b)[0] == a[0] && (a + b)[1..] == a[1..] + b;
    }
  }

  /** The cache as Open leaves it for an empty directory. */
  function StartFlash(cfg: Config): Flash {
    NewCacheFile(EmptyFlash(cfg))
  }

  lemma StartInv(crc: Checksum, cfg: Config)
    requires cfg.buffered ==> cfg.w > 0
    ensures FlashInv(crc, StartFlash(cfg)) && SizeExact(StartFlash(cfg)) && Contents(StartFlash(cfg)) == map[]
  {
    hide FileOk;
    FreshFileOk(crc, cfg, 0);
    var f := StartFlash(cfg);
    assert f.files.order == [0] && f.files.order[1..] == [];
    assert f.files.items[0].Stream() == [] && Total(f.files.order[1..], f.files.items) == 0;
    assert Total(f.files.order, f.files.items) == 0;
    assert FlashInv(crc, f);
    IndexInRange(crc, f);
    assert Contents(f).Keys == {};
  }

  /** From an empty directory on, Lookup answers as the abstract map does, as long as no file
      lost its tail when it was closed. */
  lemma LookupInEveryRun(crc: Checksum, cfg: Config, ops: seq<FlashOp>, key: Text)
    requires cfg.buffered ==> cfg.w > 0
    requires (StartInv(crc, cfg); CanRunFlash(crc, StartFlash(cfg), ops))
    ensures (StartInv(crc, cfg);
      var t, m := RunFlash(crc, StartFlash(cfg), ops), RunMap(crc, map[], StartFlash(cfg), ops);
      && (key in t.index ==> InRange(t, key))
      && (NothingLost(t) ==> Lookup(t, crc, key) == if key in m then Some(m[key]) else None))
  {
    hide Contents, CanRunFlash, RunFlash, RunMap, StoreInv, NothingLost, InRange, Lookup, Retained;
    StartInv(crc, cfg);
    var t := RunFlash(crc, StartFlash(cfg), ops);
    RunRefines(crc, StartFlash(cfg), ops);
    LookupRefines(crc, t, key);
    IndexInRange(crc, t);
    if NothingLost(t) && key in t.index {
      NothingLostRetains(crc, t, key);
    }
  }

  ghost function RunDebt(crc: Checksum, f: Flash, ops: seq<FlashOp>): int
    requires FlashInv(crc, f) && CanRunFlash(crc, f, ops)
    decreases |ops|
  {
    if ops == [] then 0
    else StepRefines(crc, f, ops[0]); StepDebt(f, ops[0]) + RunDebt(crc, StepFlash(crc, f, ops[0]), ops[1..])
  }

  /** In every run the account is off by exactly what the evicted files had lost. */
  lemma {:induction false} RunSize(crc: Checksum, f: Flash, ops: seq<FlashOp>, debt: int)
    requires FlashInv(crc, f) && CanRunFlash(crc, f, ops) && SizeIs(f, debt)
    ensures SizeIs(RunFlash(crc, f, ops), debt + RunDebt(crc, f, ops)) && RunDebt(crc, f, ops) >= 0
    decreases |ops|
  {
    hide StoreInv, SizeIs, CanStep, Contents, StepFlash, StepDebt;
    if ops != [] {
      StepRefines(crc, f, ops[0]);
      StepSize(crc, f, ops[0], debt);
      RunSize(crc, StepFlash(crc, f, ops[0]), ops[1..], debt + StepDebt(f, ops[0]));
    }
  }

  /** File ids are never used again: the next one exceeds every id that was ever indexed. */
  lemma StepKeepsConfig(crc: Checksum, f: Flash, op: FlashOp)
    requires FlashInv(crc, f) && CanStep(f, op)
    ensures var g := StepFlash(crc, f, op);
      && g.cfg == f.cfg && f.nextId <= g.nextId
      && (forall id :: id in g.files.items ==> id in f.files.items || f.nextId <= id < g.nextId)
  {
    hide Contents, FileOk, IndexOk;
    match op
    case _ =>
  }
}
