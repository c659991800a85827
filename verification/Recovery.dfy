/** Start-up: the index rebuilt by scanning the files of the directory. */
module Recovery {
  import opened Bytes
  import opened CacheRecord
  import opened Layout
  import opened FileSpec
  import opened Lru
  import opened Scan
  import opened FlashSpec
  import opened FlashRefinement
  import opened FlashRuns

  /** A file of the directory: its id, its bytes, and the records that the scan makes of them. */
  datatype Found = Found(id: nat, recs: seq<Record>, bytes: seq<byte>)

  ghost predicate FoundOk(crc: Checksum, e: Found) {
    && RecordsSound(crc, e.recs, |e.bytes| < |EncodeAll(e.recs)|)
    && if |e.bytes| < |EncodeAll(e.recs)| then CutOff(e.recs, e.bytes) else e.bytes == EncodeAll(e.recs)
  }

  /** One turn of the loop of Open. */
  function OpenOne(f: Flash, e: Found): Flash {
    f.(size := f.size + |e.bytes|,
       index := IndexRecords(f.index, e.id, e.recs, |e.recs|),
       files := LruInsert(f.files, e.id, ReopenedFile(e.id, f.cfg.buffered, e.recs, e.bytes)),
       nextId := if e.id >= f.nextId then e.id + 1 else f.nextId)
  }

  function OpenFiles(f: Flash, dir: seq<Found>): Flash {
    if dir == [] then f else OpenOne(OpenFiles(f, dir[..|dir| - 1]), dir[|dir| - 1])
  }

  /** Open: all files found, then a new one to write. */
  function OpenDir(cfg: Config, dir: seq<Found>): Flash {
    NewCacheFile(OpenFiles(EmptyFlash(cfg), dir))
  }

  function Ids(dir: seq<Found>): (ids: seq<nat>)
    ensures |ids| == |dir| && forall i :: 0 <= i < |dir| ==> ids[i] == dir[i].id
  {
    seq(|dir|, i requires 0 <= i < |dir| => dir[i].id)
  }

  ghost predicate DirOk(crc: Checksum, dir: seq<Found>) {
    && (forall i, j :: 0 <= i < j < |dir| ==> dir[i].id != dir[j].id)
    && (forall i :: 0 <= i < |dir| ==> FoundOk(crc, dir[i]))
  }

  // ---------- From bytes ----------

  /** A directory: different ids, and in each file some first bytes of good records. */
  ghost predicate DirReady(crc: Checksum, dir: seq<(nat, seq<byte>)>, all: seq<seq<Record>>) {
    && |dir| == |all|
    && (forall i, j :: 0 <= i < j < |dir| ==> dir[i].0 != dir[j].0)
    && (forall i :: 0 <= i < |dir| ==>
          && RecordsOk(crc, all[i]) && dir[i].1 <= EncodeAll(all[i]) && SizesFit(all[i], dir[i].1)
          && |dir[i].1| < TWO_TO_THE_32)
  }

  /** What Open may find in it. Only the record at a cut is not settled by the bytes. */
  ghost predicate DirMatches(dir: seq<(nat, seq<byte>)>, all: seq<seq<Record>>, found: seq<Found>) {
    && |dir| == |all| == |found|
    && (forall i :: 0 <= i < |dir| ==>
          found[i].id == dir[i].0 && found[i].bytes == dir[i].1 && Scanned(all[i], dir[i].1, found[i].recs))
  }

  lemma MatchesOk(crc: Checksum, dir: seq<(nat, seq<byte>)>, all: seq<seq<Record>>, found: seq<Found>)
    requires DirReady(crc, dir, all) && DirMatches(dir, all, found)
    ensures DirOk(crc, found)
  {
    hide EncodeAll, RecordsSound, CutOff, Scanned, RecordsOk, SizesFit;
    forall i | 0 <= i < |found|
      ensures FoundOk(crc, found[i])
    {
      ScannedSound(crc, all[i], dir[i].1, found[i].recs);
    }
    assert forall i :: 0 <= i < |found| ==> found[i].id == dir[i].0;
  }

  // ---------- Safety for any order of the directory ----------

  /** Every entry made by the scan is at the address of a record with that key. */
  lemma {:induction false} IndexRecordsOk(items: map<nat, FileState>, index: map<Text, LBA>, id: nat, n: nat)
    requires IndexOk(items, index) && id in items && items[id].id == id && n <= |items[id].recs|
    ensures IndexOk(items, IndexRecords(index, id, items[id].recs, n))
    decreases n
  {
    hide Issued, Address, IndexOk;
    if n > 0 {
      IndexRecordsOk(items, index, id, n - 1);
      OneMoreOk(items, IndexRecords(index, id, items[id].recs, n - 1), id, n - 1);
    }
  }

  lemma OneMoreOk(items: map<nat, FileState>, index: map<Text, LBA>, id: nat, i: nat)
    requires IndexOk(items, index) && id in items && items[id].id == id && i < |items[id].recs|
    ensures IndexOk(items, IndexInsert(index, items[id].recs[i].key, Address(id, items[id].recs, i)))
  {
    IssuedWitness(items[id], i);
    hide Issued, Offset;
  }

  lemma ReopenedOk(crc: Checksum, cfg: Config, e: Found)
    requires FoundOk(crc, e)
    ensures FileOk(crc, cfg, e.id, ReopenedFile(e.id, cfg.buffered, e.recs, e.bytes))
    ensures Charge(ReopenedFile(e.id, cfg.buffered, e.recs, e.bytes)) == |e.bytes|
  {
    hide RecordsSound, CutOff, EncodeAll;
  }

  lemma OpenOneKeeps(crc: Checksum, f: Flash, e: Found)
    requires StoreInv(crc, f) && SizeExact(f) && e.id !in f.files.items && FoundOk(crc, e)
    ensures StoreInv(crc, OpenOne(f, e)) && SizeExact(OpenOne(f, e))
    ensures NothingLost(f) && e.bytes == EncodeAll(e.recs) ==> NothingLost(OpenOne(f, e))
  {
    hide FileOk, LruInv, EncodeAll, Issued, RecordsOk, IndexRecords, FoundOk, Charge;
    var s := ReopenedFile(e.id, f.cfg.buffered, e.recs, e.bytes);
    var g := OpenOne(f, e);
    ReopenedOk(crc, f.cfg, e);
    UseKeepsInv(f.files, AddKey(e.id, s));
    assert s.recs == e.recs && s.id == e.id;
    IndexRecordsOk(g.files.items, f.index, e.id, |e.recs|);
    assert g.files.order[1..] == f.files.order;
    TotalSame(f.files.order, f.files.items, g.files.items);
  }

  /** Whatever order the directory is read in, and wherever its files end, start-up leaves an index that
      names only live files at record boundaries, and an exact account. */
  lemma {:induction false} OpenFilesSafe(crc: Checksum, cfg: Config, dir: seq<Found>)
    requires (cfg.buffered ==> cfg.w > 0) && DirOk(crc, dir)
    ensures var f := OpenFiles(EmptyFlash(cfg), dir);
      && StoreInv(crc, f) && SizeExact(f) && f.cfg == cfg
      && ((forall i :: 0 <= i < |dir| ==> dir[i].bytes == EncodeAll(dir[i].recs)) ==> NothingLost(f))
      && (forall i :: 0 <= i < |dir| ==> dir[i].id in f.files.items)
      && (forall id :: id in f.files.items ==> id in Ids(dir))
    decreases |dir|
  {
    hide StoreInv, SizeExact, NothingLost, FoundOk, EncodeAll;
    if dir == [] {
      EmptySafe(crc, cfg);
    } else {
      var front, last := dir[..|dir| - 1], dir[|dir| - 1];
      assert forall i :: 0 <= i < |front| ==> front[i] == dir[i];
      OpenFilesSafe(crc, cfg, front);
      var f := OpenFiles(EmptyFlash(cfg), front);
      assert last.id !in f.files.items by {
        assert forall i :: 0 <= i < |front| ==> Ids(front)[i] == dir[i].id;
      }
      OpenOneKeeps(crc, f, last);
      assert Ids(dir) == Ids(front) + [last.id];
    }
  }

  lemma EmptySafe(crc: Checksum, cfg: Config)
    requires cfg.buffered ==> cfg.w > 0
    ensures var f := EmptyFlash(cfg); StoreInv(crc, f) && SizeExact(f) && NothingLost(f)
  {
  }

  lemma OpenDirSafe(crc: Checksum, cfg: Config, dir: seq<Found>)
    requires (cfg.buffered ==> cfg.w > 0) && DirOk(crc, dir)
    ensures FlashInv(crc, OpenDir(cfg, dir)) && SizeExact(OpenDir(cfg, dir))
    ensures (forall i :: 0 <= i < |dir| ==> dir[i].bytes == EncodeAll(dir[i].recs)) ==> NothingLost(OpenDir(cfg, dir))
    ensures forall i :: 0 <= i < |dir| ==> dir[i].id < OpenDir(cfg, dir).cur
  {
    hide FilesOk, IndexOk, Contents, EncodeAll, FoundOk, Total;
    var f := OpenFiles(EmptyFlash(cfg), dir);
    OpenFilesSafe(crc, cfg, dir);
    NewCacheFileKeeps(crc, f);
    NewFileSize(crc, f);
    IdsBelow(crc, f);
    var g := OpenDir(cfg, dir);
    assert forall id :: id in g.files.items && id != f.nextId ==>
                          id in f.files.items && g.files.items[id] == f.files.items[id];
    assert forall i :: 0 <= i < |dir| ==> dir[i].id in f.files.items;
  }

  lemma NewFileSize(crc: Checksum, f: Flash)
    requires StoreInv(crc, f) && SizeExact(f)
    ensures SizeExact(NewCacheFile(f))
  {
    hide FileOk, LruInv, IndexOk;
    NewCacheFileFiles(crc, f);
    var g := NewCacheFile(f);
    assert g.files.order[1..] == f.files.order;
    TotalSame(f.files.order, f.files.items, g.files.items);
    assert g.files.items[f.nextId].Stream() == [];
  }

  lemma IdsBelow(crc: Checksum, f: Flash)
    requires StoreInv(crc, f)
    ensures forall id :: id in f.files.items ==> id < f.nextId
  {
  }

  // ---------- What is known after a restart ----------

  lemma {:induction false} IndexRecordsKeys(index: map<Text, LBA>, id: nat, recs: seq<Record>, n: nat)
    requires n <= |recs|
    ensures forall k :: k in IndexRecords(index, id, recs, n) <==>
              k in index || exists j :: 0 <= j < n && recs[j].key == k
    decreases n
  {
    hide Address;
    if n > 0 {
      IndexRecordsKeys(index, id, recs, n - 1);
    }
  }

  ghost predicate InFile(e: Found, k: Text) {
    exists j :: 0 <= j < |e.recs| && e.recs[j].key == k
  }

  /** A restart knows a key exactly if some file holds a record of it, or the beginning of one. */
  lemma {:induction false} OpenFilesKeys(cfg: Config, dir: seq<Found>, k: Text)
    ensures k in OpenFiles(EmptyFlash(cfg), dir).index <==> exists i :: 0 <= i < |dir| && InFile(dir[i], k)
    decreases |dir|
  {
    hide IndexRecords, EncodeAll;
    if dir != [] {
      var front, last := dir[..|dir| - 1], dir[|dir| - 1];
      OpenFilesKeys(cfg, front, k);
      IndexRecordsKeys(OpenFiles(EmptyFlash(cfg), front).index, last.id, last.recs, |last.recs|);
      assert InFile(last, k) <==> exists j :: 0 <= j < |last.recs| && last.recs[j].key == k;
      hide InFile;
      if i :| 0 <= i < |front| && InFile(front[i], k) {
        assert InFile(dir[i], k);
      }
      assert forall i :: 0 <= i < |front| ==> front[i] == dir[i];
    }
  }

  lemma RestartKnows(cfg: Config, found: seq<Found>, k: Text)
    ensures k in OpenDir(cfg, found).index <==> exists i :: 0 <= i < |found| && InFile(found[i], k)
  {
    OpenFilesKeys(cfg, found, k);
    hide OpenFiles, InFile;
  }

  // ---------- Exactness: a restart restores the index ----------

  /** The index of all records of files [0, n), first record of a key wins. */
  function IndexAll(items: map<nat, FileState>, n: nat): map<Text, LBA> {
    if n == 0 then map[]
    else if n - 1 in items then
      IndexRecords(IndexAll(items, n - 1), n - 1, items[n - 1].recs, |items[n - 1].recs|)
    else IndexAll(items, n - 1)
  }

  lemma {:induction false} IndexAllSame(a: map<nat, FileState>, b: map<nat, FileState>, n: nat)
    requires forall id :: 0 <= id < n ==> (id in a <==> id in b) && (id in a ==> a[id].recs == b[id].recs)
    ensures IndexAll(a, n) == IndexAll(b, n)
  {
    if n > 0 {
      IndexAllSame(a, b, n - 1);
    }
  }

  /** No file was evicted yet, and the last one is being written. */
  ghost predicate Unbroken(f: Flash) {
    && f.nextId > 0 && f.cur == f.nextId - 1
    && (forall id :: 0 <= id < f.nextId ==> id in f.files.items)
  }

  /** Nothing was deleted either: the index is that of all records. */
  ghost predicate Pristine(f: Flash) {
    Unbroken(f) && f.index == IndexAll(f.files.items, f.nextId)
  }

  lemma RolledPristine(crc: Checksum, f: Flash)
    requires FlashInv(crc, f) && Pristine(f)
    ensures Pristine(Rolled(f))
  {
    hide StoreInv, EncodeAll, IndexAll;
    NewCacheFileKeeps(crc, f);
    if f.files.items[f.cur].eof {
      var g := NewCacheFile(f);
      IndexAllSame(f.files.items, g.files.items, f.nextId);
      EmptyLast(g.files.items, f.nextId);
    }
  }

  /** A last file without records adds nothing to the index. */
  lemma EmptyLast(items: map<nat, FileState>, n: nat)
    requires n in items && items[n].recs == []
    ensures IndexAll(items, n + 1) == IndexAll(items, n)
  {
  }

  lemma InsertRecordPristine(f: Flash, r: Record, whole: bool)
    requires Pristine(f) && f.cur in f.files.items
    requires f.files.items[f.cur].buffered ==> f.files.items[f.cur].w > 0
    ensures Pristine(InsertRecord(f, r, whole))
  {
    hide Address, EncodeAll, Taken, IndexInsert, Serialize;
    var s := f.files.items[f.cur];
    var g := InsertRecord(f, r, whole);
    TakenRecs(s, r, whole);
    IndexAllSame(f.files.items, g.files.items, f.cur);
    IndexRecordsPrefix(IndexAll(f.files.items, f.cur), f.cur, s.recs, r, |s.recs|);
    assert (s.recs + [r])[|s.recs|] == r;
  }

  lemma TakenRecs(s: FileState, r: Record, whole: bool)
    requires s.buffered ==> s.w > 0
    ensures Taken(s, r, whole).recs == s.recs + [r]
  {
    hide EncodeAll;
  }

  predicate Keeping(op: FlashOp) {
    op.OpInsert? || op.OpLookup? || op.OpFile?
  }

  lemma InsertPristine(crc: Checksum, f: Flash, key: Text, val: Text, whole: bool)
    requires FlashInv(crc, f) && Pristine(f) && Storable(key, val) && CurIdle(f)
    ensures Pristine(Insert(f, crc, key, val, whole))
  {
    RolledIsOpen(crc, f);
    RolledPristine(crc, f);
    OpenHasBuffers(crc, Rolled(f));
    InsertRecordPristine(Rolled(f), MakeRecord(crc, key, val), whole);
    hide StoreInv, Pristine, Serialize, InsertRecord, Rolled, Contents;
  }

  lemma FileStepPristine(f: Flash, id: nat, op: FileOp)
    requires id in f.files.items && Enabled(f.files.items[id], op) && !op.Put? && Pristine(f)
    ensures Pristine(FileStep(f, id, op))
  {
    hide EncodeAll, IndexAll;
    var g := FileStep(f, id, op);
    IndexAllSame(f.files.items, g.files.items, f.nextId);
  }

  lemma StepPristine(crc: Checksum, f: Flash, op: FlashOp)
    requires FlashInv(crc, f) && CanStep(f, op) && Pristine(f) && Keeping(op)
    ensures Pristine(StepFlash(crc, f, op))
  {
    hide StoreInv, IndexAll, Insert, FileStep, EncodeAll, Contents;
    match op
    case OpInsert(key, val, whole) => InsertPristine(crc, f, key, val, whole);
    case OpLookup(key) =>
    case OpFile(id, step) => FileStepPristine(f, id, step);
  }

  lemma {:induction false} RunPristine(crc: Checksum, f: Flash, ops: seq<FlashOp>)
    requires FlashInv(crc, f) && CanRunFlash(crc, f, ops) && Pristine(f)
    requires forall i :: 0 <= i < |ops| ==> Keeping(ops[i])
    ensures Pristine(RunFlash(crc, f, ops))
    decreases |ops|
  {
    hide FlashInv, Pristine, CanStep, Contents;
    if ops != [] {
      StepRefines(crc, f, ops[0]);
      StepPristine(crc, f, ops[0]);
      RunPristine(crc, StepFlash(crc, f, ops[0]), ops[1..]);
    }
  }

  /** The files of f in order of id, with all that was appended to them. */
  ghost function DirOf(f: Flash, n: nat): (dir: seq<Found>)
    requires forall id :: 0 <= id < n ==> id in f.files.items
    ensures |dir| == n
    ensures forall id :: 0 <= id < n ==> dir[id] == Found(id, f.files.items[id].recs, f.files.items[id].Stream())
  {
    seq(n, id requires 0 <= id < n => Found(id, f.files.items[id].recs, f.files.items[id].Stream()))
  }

  lemma DirOfSnoc(f: Flash, n: nat)
    requires n > 0 && forall id :: 0 <= id < n ==> id in f.files.items
    ensures DirOf(f, n)[..n - 1] == DirOf(f, n - 1)
    ensures DirOf(f, n)[n - 1] == Found(n - 1, f.files.items[n - 1].recs, f.files.items[n - 1].Stream())
  {
    hide EncodeAll;
  }

  /** Scanning the files in order rebuilds the index of all their records. */
  lemma {:induction false} OpenFilesIndex(f: Flash, n: nat)
    requires forall id :: 0 <= id < n ==> id in f.files.items
    ensures OpenFiles(EmptyFlash(f.cfg), DirOf(f, n)).index == IndexAll(f.files.items, n)
    decreases n
  {
    hide DirOf, IndexRecords, EncodeAll;
    if n > 0 {
      DirOfSnoc(f, n);
      OpenFilesIndex(f, n - 1);
    }
  }

  lemma {:induction false} OpenFilesItems(f: Flash, n: nat)
    requires forall id :: 0 <= id < n ==> id in f.files.items
    ensures var u := OpenFiles(EmptyFlash(f.cfg), DirOf(f, n));
      && u.cfg == f.cfg && u.nextId == n
      && (forall id :: id in u.files.items <==> 0 <= id < n)
      && (forall id :: 0 <= id < n ==> u.files.items[id].recs == f.files.items[id].recs)
    decreases n
  {
    hide DirOf, IndexRecords, EncodeAll;
    if n > 0 {
      DirOfSnoc(f, n);
      OpenFilesItems(f, n - 1);
    }
  }

  lemma OpenDirIndex(f: Flash, n: nat)
    requires forall id :: 0 <= id < n ==> id in f.files.items
    ensures var u := OpenDir(f.cfg, DirOf(f, n));
      && u.index == IndexAll(f.files.items, n) && u.cur == n
      && (forall id :: 0 <= id < n ==> id in u.files.items && u.files.items[id].recs == f.files.items[id].recs)
  {
    hide OpenFiles, EncodeAll;
    OpenFilesIndex(f, n);
    OpenFilesItems(f, n);
  }

  /** Two caches with the same index over files with the same records show the same values. */
  lemma SameRecords(crc: Checksum, t: Flash, u: Flash)
    requires FlashInv(crc, t) && u.index == t.index
    requires forall id :: id in t.files.items ==>
               id in u.files.items && u.files.items[id].recs == t.files.items[id].recs
    ensures Contents(u) == Contents(t)
  {
    hide StoreInv, EncodeAll;
    IndexInRange(crc, t);
    SameContents(t, u);
  }

  /** A pristine cache is restored from the whole of its files. */
  lemma PristineRestored(crc: Checksum, t: Flash)
    requires FlashInv(crc, t) && Pristine(t)
    ensures var u := OpenDir(t.cfg, DirOf(t, t.nextId));
      u.index == t.index && Contents(u) == Contents(t) && u.cur == t.nextId
  {
    hide StoreInv, Contents, IndexAll, OpenDir, EncodeAll;
    OpenDirIndex(t, t.nextId);
    AllBelow(crc, t);
    SameRecords(crc, t, OpenDir(t.cfg, DirOf(t, t.nextId)));
  }

  lemma AllBelow(crc: Checksum, f: Flash)
    requires FlashInv(crc, f)
    ensures forall id :: id in f.files.items ==> id < f.nextId
  {
  }

  lemma StartPristine(cfg: Config)
    ensures Pristine(StartFlash(cfg)) && StartFlash(cfg).cfg == cfg
  {
    var f := StartFlash(cfg);
    EmptyLast(f.files.items, 0);
  }

  lemma {:induction false} RunKeepsCfg(crc: Checksum, f: Flash, ops: seq<FlashOp>)
    requires FlashInv(crc, f) && CanRunFlash(crc, f, ops)
    ensures RunFlash(crc, f, ops).cfg == f.cfg && RunFlash(crc, f, ops).nextId >= f.nextId
    decreases |ops|
  {
    hide FlashInv, CanStep, Contents;
    if ops != [] {
      StepRefines(crc, f, ops[0]);
      StepKeepsConfig(crc, f, ops[0]);
      RunKeepsCfg(crc, StepFlash(crc, f, ops[0]), ops[1..]);
    }
  }
}
