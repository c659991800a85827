/** The class FlashCache: files, metadata and the size account, as objects. */
module FlashCache {
  import opened Arith
  import opened Bytes
  import opened CacheRecord
  import opened Layout
  import opened FileSpec
  import opened FileRuns
  import opened FileReads
  import opened Lru
  import opened Scan
  import opened CacheFile
  import opened FlashSpec
  import opened FlashRefinement
  import opened FlashRuns
  import opened Recovery
  import opened RoomRuns

  /** The region holds the files and all their buffers; files share no object; each is valid and in its state. */
  ghost predicate Owned(files: map<nat, WriteableCacheFile>, states: map<nat, FileState>, crc: Checksum,
                        region: set<object>)
    reads region
  {
    && files.Keys == states.Keys
    && (forall id :: id in files ==> (
          && files[id] in region && files[id].Repr() <= region
          && files[id].Valid() && files[id].crc == crc && files[id].cacheId == id && files[id].Abs() == states[id]))
    && (forall i, j :: i in files && j in files && i != j ==> files[i].Repr() !! files[j].Repr())
  }

  /** The other files, in the rest of the region. What works on one file leaves this as it is. */
  lemma OwnedRest(files: map<nat, WriteableCacheFile>, states: map<nat, FileState>, crc: Checksum,
                  region: set<object>, id: nat)
    requires Owned(files, states, crc, region) && id in files
    ensures Owned(files - {id}, states - {id}, crc, region - files[id].Repr())
    ensures id in states && files[id].Valid() && files[id].crc == crc && files[id].cacheId == id
    ensures files[id].Abs() == states[id] && files[id] in files[id].Repr() && files[id].Repr() <= region
  {
    hide WriteableCacheFile.Valid, WriteableCacheFile.Abs;
  }

  /** Between calls no append and no closing is under way. */
  lemma OwnedIdle(files: map<nat, WriteableCacheFile>, states: map<nat, FileState>, crc: Checksum,
                  region: set<object>, id: nat)
    requires Owned(files, states, crc, region) && id in states
    ensures states[id].stage.Idle?
  {
    hide WriteableCacheFile.Valid, WriteableCacheFile.Repr;
    assert files[id].Abs() == states[id];
  }

  /** A new file joins. */
  lemma OwnedAdd(files: map<nat, WriteableCacheFile>, states: map<nat, FileState>, crc: Checksum,
                 region: set<object>, id: nat, f: WriteableCacheFile)
    requires Owned(files, states, crc, region) && id !in files
    requires f.Valid() && f.crc == crc && f.cacheId == id && f in f.Repr() && f.Repr() !! region
    ensures Owned(files[id := f], states[id := f.Abs()], crc, region + f.Repr())
  {
    hide WriteableCacheFile.Valid, WriteableCacheFile.Abs, WriteableCacheFile.Repr;
  }

  /** The file, changed or new, joins the others again. */
  lemma OwnedBack(files: map<nat, WriteableCacheFile>, states: map<nat, FileState>, crc: Checksum,
                  rest: set<object>, id: nat)
    requires id in files && Owned(files - {id}, states - {id}, crc, rest)
    requires files[id].Valid() && files[id].crc == crc && files[id].cacheId == id
    requires files[id] in files[id].Repr() && files[id].Repr() !! rest
    ensures Owned(files, states[id := files[id].Abs()], crc, rest + files[id].Repr())
  {
    hide Owned, WriteableCacheFile.Valid, WriteableCacheFile.Abs, WriteableCacheFile.Repr;
    OwnedAdd(files - {id}, states - {id}, crc, rest, id, files[id]);
    assert (files - {id})[id := files[id]] == files;
    assert (states - {id})[id := files[id].Abs()] == states[id := files[id].Abs()];
  }

  /** Append to one of the files. */
  method AppendTo(file: WriteableCacheFile, ghost files: map<nat, WriteableCacheFile>,
                  ghost states: map<nat, FileState>, crc: Checksum, ghost region: set<object>, ghost id: nat,
                  key: Text, val: Text)
    returns (ok: bool, lba: LBA, ghost region': set<object>)
    requires Owned(files, states, crc, region) && id in files && files[id] == file
    requires Storable(key, val) && id in states && OffsetFits(states[id], key, val)
    modifies region
    ensures Owned(files, states[id := file.Abs()], crc, region') && fresh(region' - region)
    ensures id in states && Appends(crc, states[id], key, val, ok, file.Abs(), lba)
  {
    hide Owned, WriteableCacheFile.Valid, WriteableCacheFile.Repr, WriteableCacheFile.Abs, Storable, Appends;
    OwnedRest(files, states, crc, region, id);
    ghost var rest := region - file.Repr();
    ok, lba := file.Append(key, val);
    region' := rest + file.Repr();
    OwnedBack(files, states, crc, rest, id);
  }

  /** The record fits behind the current file without a wrap of the 32-bit offset. */
  predicate FlashFits(f: Flash, key: Text, val: Text) {
    f.cur in f.files.items ==> OffsetFits(f.files.items[f.cur], key, val)
  }

  /** The record is in its file, at lba, and the books are not updated yet. */
  ghost predicate Placed(crc: Checksum, f: Flash, key: Text, val: Text, g: Flash, lba: LBA) {
    FlashInv(crc, f) && Storable(key, val)
    && var h, r := Rolled(f), MakeRecord(crc, key, val);
       var s := h.files.items[h.cur];
       g == SetFile(h, h.cur, Append(s, r)) && lba == Address(h.cur, s.recs + [r], |s.recs|)
  }

  lemma PlacedNow(crc: Checksum, f: Flash, key: Text, val: Text, ok: bool, t: FileState, lba: LBA)
    requires FlashInv(crc, f) && Storable(key, val)
    requires Appends(crc, f.files.items[f.cur], key, val, ok, t, lba)
    ensures ok ==> Placed(crc, f, key, val, SetFile(f, f.cur, t), lba)
    ensures !ok ==> SetFile(f, f.cur, t) == f && f.files.items[f.cur].eof
  {
    hide Append, MakeRecord, FileInv, RecordsOk, LruInv, Address;
  }

  lemma PlacedNext(crc: Checksum, f: Flash, key: Text, val: Text, ok: bool, t: FileState, lba: LBA)
    requires FlashInv(crc, f) && Storable(key, val) && f.files.items[f.cur].eof
    requires var g := NewCacheFile(f);
      FlashInv(crc, g) && Appends(crc, g.files.items[g.cur], key, val, ok, t, lba)
    ensures ok && Placed(crc, f, key, val, SetFile(NewCacheFile(f), NewCacheFile(f).cur, t), lba)
  {
    RolledIsOpen(crc, f);
    hide Append, MakeRecord, FileInv, RecordsOk, LruInv, Address;
  }

  lemma PlacedInserted(crc: Checksum, f: Flash, key: Text, val: Text, g: Flash, lba: LBA)
    requires Placed(crc, f, key, val, g, lba)
    ensures Insert(f, crc, key, val) == g.(size := g.size + lba.size, index := IndexInsert(g.index, key, lba))
  {
    hide Append, Address, StoreInv;
  }

  lemma NewFits(crc: Checksum, f: Flash, key: Text, val: Text)
    requires Storable(key, val) && StoreInv(crc, f)
    ensures var g := NewCacheFile(f); g.cur in g.files.items && OffsetFits(g.files.items[g.cur], key, val)
  {
    NewCacheFileKeeps(crc, f);
  }

  lemma StoreBuffers(crc: Checksum, f: Flash)
    requires StoreInv(crc, f)
    ensures f.cfg.buffered ==> f.cfg.w > 0
  {
  }

  /** The next file of a directory is new, and opened on top of those before it. */
  lemma NextFound(f: Flash, dir: seq<(nat, seq<byte>)>, all: seq<seq<Record>>, found: seq<Found>,
                  i: nat, recs: seq<Record>)
    requires i < |dir| == |all| && |found| == i && DirMatches(dir[..i], all[..i], found)
    requires Scanned(all[i], dir[i].1, recs) && forall j, k :: 0 <= j < k < |dir| ==> dir[j].0 != dir[k].0
    ensures var more := found + [Found(dir[i].0, recs, dir[i].1)];
      && DirMatches(dir[..i + 1], all[..i + 1], more)
      && OpenFiles(f, more) == OpenOne(OpenFiles(f, found), more[i])
      && Ids(more) == Ids(found) + [dir[i].0]
  {
    hide Scanned, OpenOne;
    var more := found + [Found(dir[i].0, recs, dir[i].1)];
    assert more[..i] == found;
    assert forall j :: 0 <= j < i ==> dir[..i][j] == dir[j] && all[..i][j] == all[j] && more[j] == found[j];
    assert forall j :: 0 <= j < i ==> Ids(found)[j] == found[j].id == dir[j].0;
  }

  lemma NotFoundYet(dir: seq<(nat, seq<byte>)>, all: seq<seq<Record>>, found: seq<Found>, i: nat)
    requires i < |dir| == |all| && |found| == i && DirMatches(dir[..i], all[..i], found)
    requires forall j, k :: 0 <= j < k < |dir| ==> dir[j].0 != dir[k].0
    ensures dir[i].0 !in Ids(found)
  {
    hide Scanned;
    assert forall j :: 0 <= j < i ==> Ids(found)[j] == found[j].id == dir[..i][j].0 == dir[j].0;
  }

  lemma EmptyInv(crc: Checksum, cfg: Config)
    requires cfg.buffered ==> cfg.w > 0
    ensures StoreInv(crc, EmptyFlash(cfg))
    ensures Owned(map[], map[], crc, {})
  {
  }

  class FlashCache {
    const crc: Checksum
    const cfg: Config
    const metadata: Metadata
    var size: int
    var writerCacheId: nat
    var cacheFile: WriteableCacheFile?

    ghost var files: map<nat, WriteableCacheFile>
    ghost var states: map<nat, FileState>
    ghost var region: set<object>

    ghost function Abs(): Flash
      reads this, metadata, metadata.fileIndex
    {
      Flash(cfg, LruState(metadata.fileIndex.Abs().order, states), metadata.blockIndex,
            size, writerCacheId, if cacheFile == null then 0 else cacheFile.cacheId)
    }

    ghost predicate Wired()
      reads this, metadata, metadata.fileIndex, region
    {
      && metadata.fileIndex.Valid() && files == metadata.fileIndex.Abs().items
      && Owned(files, states, crc, region)
      && this !in region && metadata !in region && metadata.fileIndex !in region
      && cfg.fileSize < TWO_TO_THE_32 && cfg.w < TWO_TO_THE_32
    }

    ghost predicate Valid()
      reads this, metadata, metadata.fileIndex, region
    {
      && Wired() && FlashInv(crc, Abs())
      && cacheFile != null && cacheFile.cacheId in files && files[cacheFile.cacheId] == cacheFile
    }

    /** Metadata::Insert of a file. */
    method IndexFile(id: nat, f: WriteableCacheFile)
      requires Wired() && id !in files && f.Valid() && f.crc == crc && f.cacheId == id
      requires f in f.Repr() && f.Repr() !! region
      requires this !in f.Repr() && metadata !in f.Repr() && metadata.fileIndex !in f.Repr()
      modifies this`files, this`states, this`region, metadata.fileIndex
      ensures Wired() && region == old(region) + f.Repr() && files == old(files)[id := f]
      ensures Abs() == old(Abs()).(files := LruInsert(old(Abs().files), id, f.Abs()))
    {
      hide Owned, WriteableCacheFile.Valid, WriteableCacheFile.Abs, WriteableCacheFile.Repr, LruInv;
      OwnedKeys();
      OwnedAdd(files, states, crc, region, id, f);
      files, states, region := files[id := f], states[id := f.Abs()], region + f.Repr();
      assert Owned(files, states, crc, region);
      metadata.fileIndex.Insert(id, f);
      assert Owned(files, states, crc, region);
    }

    /** The body of the loop of Open: open a file of the directory, scan it, and index it. */
    method AddFound(id: nat, content: seq<byte>, ghost all: seq<Record>) returns (ghost recs: seq<Record>)
      requires Wired() && id !in files && cacheFile == null
      requires RecordsOk(crc, all) && content <= EncodeAll(all) && SizesFit(all, content) && |content| < TWO_TO_THE_32
      modifies this, metadata, metadata.fileIndex
      ensures Wired() && cacheFile == null && fresh(region - old(region))
      ensures Scanned(all, content, recs) && Abs() == OpenOne(old(Abs()), Found(id, recs, content))
      ensures files.Keys == old(files.Keys) + {id}
    {
      hide LruCache.Valid, LruCache.Abs, Owned, LruInv, Linked, RecordsOk, EncodeAll, IndexRecords, FileInv, KeysOf,
           Scanned, SizesFit;
      var f := new WriteableCacheFile.Open(crc, id, cfg.buffered, content, all);
      size := size + f.filesize;
      f.Repair(metadata, all);
      recs := f.recs;
      assert Owned(files, states, crc, region);
      hide WriteableCacheFile.Valid, WriteableCacheFile.Abs;
      IndexFile(id, f);
      writerCacheId := if id >= writerCacheId then id + 1 else writerCacheId;
    }

    /** Open over the files of a directory. What was once appended to them is known only to the proof. */
    constructor Open(crc: Checksum, cfg: Config, dir: seq<(nat, seq<byte>)>, ghost all: seq<seq<Record>>)
      requires cfg.fileSize < TWO_TO_THE_32 && cfg.w < TWO_TO_THE_32 && (cfg.buffered ==> cfg.w > 0)
      requires DirReady(crc, dir, all)
      ensures Valid() && fresh(region) && fresh(metadata) && fresh(metadata.fileIndex)
      ensures this.crc == crc && this.cfg == cfg
      ensures exists found :: DirMatches(dir, all, found) && Abs() == OpenDir(cfg, found)
    {
      this.crc, this.cfg := crc, cfg;
      metadata := new Metadata();
      size, writerCacheId, cacheFile := 0, 0, null;
      files, states, region := map[], map[], {};
      new;
      hide StoreInv, FlashInv, Owned, LruInv, RecordsOk, EncodeAll, DirReady, DirMatches;
      EmptyInv(crc, cfg);
      ghost var found := OpenScan(dir, all);
    }

    /** Open: scan the directory, then start a new file. */
    method OpenScan(dir: seq<(nat, seq<byte>)>, ghost all: seq<seq<Record>>) returns (ghost found: seq<Found>)
      requires Pending() && (cfg.buffered ==> cfg.w > 0) && DirReady(crc, dir, all)
      modifies this, metadata, metadata.fileIndex
      ensures Valid() && fresh(region) && DirMatches(dir, all, found) && Abs() == OpenDir(cfg, found)
    {
      hide StoreInv, Owned, LruInv, EncodeAll, Linked, OpenFiles, DirOk, DirReady, DirMatches, FlashSpec.NewCacheFile,
           EmptyFlash;
      found := ScanDir(dir, all);
      MatchesOk(crc, dir, all, found);
      OpenFilesSafe(crc, cfg, found);
      NewCacheFile();
    }

    /** Nothing opened yet. */
    ghost predicate Pending()
      reads this, metadata, metadata.fileIndex, region
    {
      Wired() && cacheFile == null && files == map[] && region == {} && Abs() == EmptyFlash(cfg)
    }

    /** The loop of Open. */
    method ScanDir(dir: seq<(nat, seq<byte>)>, ghost all: seq<seq<Record>>) returns (ghost found: seq<Found>)
      requires Pending() && DirReady(crc, dir, all)
      modifies this, metadata, metadata.fileIndex
      ensures Wired() && fresh(region) && DirMatches(dir, all, found) && Abs() == OpenFiles(EmptyFlash(cfg), found)
    {
      hide Owned, LruInv, RecordsOk, EncodeAll, Linked, OpenOne, EmptyFlash, Scanned, SizesFit;
      var i := 0;
      found := [];
      while i < |dir|
        invariant i <= |dir| && Wired() && cacheFile == null && fresh(region)
        invariant |found| == i && DirMatches(dir[..i], all[..i], found)
        invariant Abs() == OpenFiles(EmptyFlash(cfg), found)
        invariant forall id :: id in files ==> id in Ids(found)
      {
        NotFoundYet(dir, all, found, i);
        ghost var recs := AddFound(dir[i].0, dir[i].1, all[i]);
        NextFound(EmptyFlash(cfg), dir, all, found, i, recs);
        found := found + [Found(dir[i].0, recs, dir[i].1)];
        i := i + 1;
      }
      assert dir[..i] == dir && all[..i] == all;
    }

    method NewCacheFile()
      requires Wired() && StoreInv(crc, Abs())
      modifies this, metadata.fileIndex
      ensures Valid() && fresh(region - old(region))
      ensures Abs() == FlashSpec.NewCacheFile(old(Abs()))
    {
      hide LruCache.Valid, LruCache.Abs, StoreInv, Owned, WriteableCacheFile.Valid, WriteableCacheFile.Abs,
           WriteableCacheFile.Repr, FreshFile, LruInv;
      ghost var before := Abs();
      NewCacheFileKeeps(crc, before);
      OwnedKeys();
      StoreBuffers(crc, before);
      var f := new WriteableCacheFile.Create(crc, writerCacheId, cfg.fileSize, cfg.w, cfg.buffered);
      IndexFile(writerCacheId, f);
      cacheFile := f;
      writerCacheId := writerCacheId + 1;
      assert Abs() == FlashSpec.NewCacheFile(before);
    }

    lemma OwnedKeys()
      requires Wired()
      ensures files.Keys == states.Keys
    {
    }

    /** Drop the index entry of a key (used when a value is promoted to memory). */
    method DeleteMetaData(key: Text)
      requires Valid()
      modifies metadata
      ensures Valid() && Abs() == DeleteKey(old(Abs()), key)
    {
      hide StoreInv, Owned;
      FewerEntries(crc, Abs(), {key});
      metadata.Erase(key);
    }

    /** The file being written is one of the files. */
    ghost predicate HasCurrent()
      reads this
    {
      cacheFile != null && cacheFile.cacheId in files && files[cacheFile.cacheId] == cacheFile
    }

    /** Try to append to the file being written. */
    method AppendCurrent(key: Text, val: Text, ghost id: nat) returns (ok: bool, lba: LBA, ghost t: FileState)
      requires Wired() && HasCurrent() && cacheFile.cacheId == id && Storable(key, val)
      requires id in states && OffsetFits(states[id], key, val)
      modifies this`states, this`region, region
      ensures Wired() && fresh(region - old(region))
      ensures id in old(states) && states == old(states)[id := t]
      ensures Appends(crc, old(states)[id], key, val, ok, t, lba)
    {
      hide Owned, WriteableCacheFile.Valid, WriteableCacheFile.Repr, WriteableCacheFile.Abs, LruInv, Storable,
           Appends;
      ghost var region';
      ok, lba, region' := AppendTo(cacheFile, files, states, crc, region, id, key, val);
      t := cacheFile.Abs();
      states, region := states[id := t], region';
    }

    /** The loop of Insert: append, moving on to a new file when the current one is full. */
    method AppendOrRoll(key: Text, val: Text) returns (lba: LBA)
      requires Valid() && Storable(key, val) && FlashFits(Abs(), key, val)
      modifies this, metadata.fileIndex, region
      ensures Wired() && HasCurrent() && fresh(region - old(region))
      ensures Placed(crc, old(Abs()), key, val, Abs(), lba)
    {
      hide LruCache.Valid, LruCache.Abs, StoreInv, Owned, WriteableCacheFile.Valid, WriteableCacheFile.Repr,
           WriteableCacheFile.Abs, LruInv, Storable, Placed, Appends, FlashSpec.NewCacheFile, Linked;
      ghost var f := Abs();
      ghost var t;
      var ok: bool;
      ok, lba, t := AppendCurrent(key, val, f.cur);
      PlacedNow(crc, f, key, val, ok, t, lba);
      assert ok ==> Abs() == SetFile(f, f.cur, t);
      while !ok
        invariant Wired() && HasCurrent() && fresh(region - old(region))
        invariant !ok ==> Abs() == f && f.files.items[f.cur].eof
        invariant ok ==> Placed(crc, f, key, val, Abs(), lba)
        decreases !ok
      {
        NewCacheFile();
        ghost var g := Abs();
        NewFits(crc, f, key, val);
        ok, lba, t := AppendCurrent(key, val, g.cur);
        PlacedNext(crc, f, key, val, ok, t, lba);
      }
    }

    /** Insert a record, under the first address its key gets. */
    method Insert(key: Text, val: Text)
      requires Valid() && Storable(key, val) && FlashFits(Abs(), key, val)
      modifies this, metadata, metadata.fileIndex, region
      ensures Valid() && fresh(region - old(region))
      ensures Abs() == FlashSpec.Insert(old(Abs()), crc, key, val)
    {
      hide LruCache.Valid, LruCache.Abs, StoreInv, Owned, WriteableCacheFile.Valid, WriteableCacheFile.Repr,
           WriteableCacheFile.Abs, LruInv, Storable, Placed, FlashSpec.Insert, FlashInv, IndexInsert, Linked;
      ghost var f := Abs();
      NowIdle();
      InsertRefines(crc, f, key, val);
      var lba := AppendOrRoll(key, val);
      PlacedInserted(crc, f, key, val, Abs(), lba);
      size := size + lba.size;
      metadata.InsertKey(key, lba);
    }

    lemma ValidInv()
      requires Valid()
      ensures FlashInv(crc, Abs())
    {
    }

    lemma NowIdle()
      requires Valid()
      ensures Abs().cur in Abs().files.items && CurIdle(Abs())
    {
      hide Owned, StoreInv;
      OwnedIdle(files, states, crc, region, Abs().cur);
    }

    /** What Lookup may rely on for an indexed key. */
    lemma LookupFacts(key: Text)
      requires Valid() && key in metadata.blockIndex
      ensures var lba := metadata.blockIndex[key];
        && lba.cacheId in files && metadata.fileIndex.Alive(lba.cacheId) && InRange(Abs(), key)
        && files[lba.cacheId].Valid() && files[lba.cacheId].crc == crc && files[lba.cacheId].Repr() <= region
        && files[lba.cacheId].Abs() == states[lba.cacheId]
        && lba.off + lba.size <= |EncodeAll(files[lba.cacheId].recs)|
    {
      metadata.fileIndex.ValidAbs();
      IndexInRange(crc, Abs());
      OwnedRest(files, states, crc, region, metadata.blockIndex[key].cacheId);
      hide Owned, WriteableCacheFile.Valid, IndexOk, EncodeAll, Linked;
    }

    /** The value under a key; the file it was found in becomes the most recent. */
    method Lookup(key: Text) returns (r: Option<Text>)
      requires Valid()
      modifies metadata.fileIndex
      ensures Valid() && Abs() == Looked(old(Abs()), key)
      ensures (LookupRefines(crc, old(Abs()), key); r == FlashSpec.Lookup(old(Abs()), crc, key))
    {
      hide StoreInv, Owned, WriteableCacheFile.Valid, WriteableCacheFile.Repr, LruInv, Linked, InRange, EncodeAll,
           Deserialize, ReadBytes;
      ghost var f := Abs();
      LookedKeeps(crc, f, key);
      LookupRefines(crc, f, key);
      match metadata.LookupKey(key) {
        case None => r := None;
        case Some(lba) =>
          LookupFacts(key);
          var found := metadata.fileIndex.Get(lba.cacheId);
          var file := found.value;
          var scratch := new byte[lba.size];
          OwnedRest(files, states, crc, region, lba.cacheId);
          var ok, blkKey, blkVal := file.Read(lba, scratch);
          r := Some(if ok then blkVal else []);
      }
    }

    /** Metadata::Evict, and the deletion of the file it hands out. */
    method PopFile(ghost v: nat) returns (keys: seq<Text>, n: nat)
      requires Wired() && metadata.fileIndex.list != [] && v == Oldest(metadata.fileIndex.Abs())
      requires v in files && v in states && states[v].pc.Exited?
      modifies this`files, this`states, this`region, metadata.fileIndex, region
      ensures Wired() && region <= old(region)
      ensures files == old(files) - {v} && states == old(states) - {v}
      ensures keys == KeysOf(old(states)[v].recs) && n == |old(states)[v].disk|
      ensures metadata.fileIndex.Abs() == LruErase(LruEvict(old(metadata.fileIndex.Abs())), v)
    {
      hide Owned, WriteableCacheFile.Valid, WriteableCacheFile.Repr, WriteableCacheFile.Abs, LruInv, Linked, KeysOf;
      OwnedRest(files, states, crc, region, v);
      ghost var rest := region - files[v].Repr();
      var file := metadata.Evict();
      OwnedRest(files, states, crc, region, v);
      ExitedFile(file);
      keys := file.keyLists;
      n := file.Delete();
      files, states, region := files - {v}, states - {v}, rest;
    }

    /** The inner loop of Evict. */
    method EraseKeys(keys: seq<Text>)
      modifies metadata
      ensures metadata.blockIndex == old(metadata.blockIndex) - SetOf(keys)
    {
      var i := 0;
      while i < |keys|
        invariant i <= |keys|
        invariant metadata.blockIndex == old(metadata.blockIndex) - SetOf(keys[..i])
      {
        metadata.Erase(keys[i]);
        assert SetOf(keys[..i + 1]) == SetOf(keys[..i]) + {keys[i]};
        i := i + 1;
      }
      assert keys[..i] == keys;
    }

    /** The list of files as an object and as a value. */
    lemma ListFacts()
      requires Wired() && Abs().files.order != []
      ensures metadata.fileIndex.list != []
      ensures Oldest(metadata.fileIndex.Abs()) == Oldest(Abs().files)
    {
    }

    /** One turn of Evict: pop the least recent file, and erase every key it lists. */
    method EvictOne()
      requires Valid() && Abs().files.order != []
      requires var v := Oldest(Abs().files); v != Abs().cur && v in states && states[v].pc.Exited?
      modifies this`size, this`files, this`states, this`region, metadata, metadata.fileIndex, region
      ensures Valid() && region <= old(region)
      ensures Abs() == FlashSpec.EvictOne(old(Abs()))
      ensures forall id :: id in files ==> id in old(files) && files[id] == old(files)[id]
    {
      hide LruCache.Valid, LruCache.Abs, StoreInv, Owned, WriteableCacheFile.Valid, WriteableCacheFile.Abs, LruInv,
           Linked, FlashSpec.EvictOne, Oldest, KeysOf, SetOf, EncodeAll, FlashInv, Contents, KeySet;
      ghost var f, v := Abs(), Oldest(Abs().files);
      ListFacts();
      EvictOneRefines(crc, f);
      OwnedKeys();
      EvictOneIs(f, v);
      var keys, n := PopFile(v);
      size := size - n;
      EraseKeys(keys);
      assert Abs() == FlashSpec.EvictOne(f);
    }

    /** Pop files until size more bytes fit the cache, and no more of them than that takes. */
    method Evict(needed: nat)
      requires Valid() && VictimsOk(Abs(), needed)
      modifies this`size, this`files, this`states, this`region, metadata, metadata.fileIndex, region
      ensures Valid() && region <= old(region)
      ensures Abs() == FlashSpec.Evict(old(Abs()), needed)
      ensures needed + size <= cfg.cacheSize && PopsFewest(old(Abs()), Abs(), needed)
      ensures forall id :: id in files ==> id in old(files) && files[id] == old(files)[id]
    {
      hide StoreInv, Owned, Wired, FlashSpec.EvictOne, PopsFewest;
      EvictFewest(crc, Abs(), needed);
      while needed + size > cfg.cacheSize
        invariant Valid() && region <= old(region) && VictimsOk(Abs(), needed)
        invariant FlashSpec.Evict(Abs(), needed) == FlashSpec.Evict(old(Abs()), needed)
        invariant forall id :: id in files ==> id in old(files) && files[id] == old(files)[id]
        decreases |Abs().files.order|
      {
        ghost var f := Abs();
        EvictTurn(crc, f, needed);
        OwnedKeys();
        EvictOne();
      }
    }

    /** One turn of Close: take the least recent file off the list and close it. */
    method CloseOldest(ghost was: map<nat, FileState>)
      requires Wired() && NoDup(Abs().files.order) && Abs().files.order != []
      requires Closed(was, states, Abs().files.order) && forall id :: id in was ==> ClosesInside(was[id])
      modifies this`states, this`region, metadata.fileIndex, region
      ensures Wired() && files == old(files) && region <= old(region) && NoDup(Abs().files.order)
      ensures |Abs().files.order| == |old(Abs().files.order)| - 1 && Closed(was, states, Abs().files.order)
    {
      hide Owned, WriteableCacheFile.Valid, WriteableCacheFile.Abs, WriteableCacheFile.Repr, LruInv, Linked, ClosedFrom,
           ClosesInside, LruCache.Abs, LruCache.Valid, Closed;
      ListFacts();
      ghost var c := metadata.fileIndex.Abs();
      OldestLast(c);
      OwnedKeys();
      StillOpen(was, states, c.order, Oldest(c));
      var file := metadata.fileIndex.Evict();
      OwnedRest(files, states, crc, region, Oldest(c));
      ghost var t, region';
      t, region' := CloseFile(file, files, states, crc, region, Oldest(c));
      OneClosed(was, states, c, t);
      states, region := states[Oldest(c) := t], region';
    }

    /** Close: take every file off the list and close it. Each is left with what its writer still writes. */
    method Close()
      requires Valid() && forall id :: id in states ==> ClosesInside(states[id])
      modifies this`states, this`region, metadata.fileIndex, region
      ensures Wired() && files == old(files) && Closed(old(states), states, [])
    {
      hide StoreInv, Wired, ClosesInside, LruCache.Abs, Closed, NoDup;
      ghost var was := states;
      AllListed();
      NoneClosed(states, Abs().files.order);
      ListLength();
      while metadata.fileIndex.list != []
        invariant Wired() && files == old(files) && region <= old(region) && NoDup(Abs().files.order)
        invariant |metadata.fileIndex.list| == |Abs().files.order|
        invariant Closed(was, states, Abs().files.order)
        decreases |Abs().files.order|
      {
        CloseOldest(was);
        ListLength();
      }
      assert Abs().files.order == [];
    }

    lemma AllListed()
      requires Valid()
      ensures NoDup(metadata.fileIndex.Abs().order) && files.Keys == states.Keys
      ensures forall id :: id in states <==> id in metadata.fileIndex.Abs().order
    {
    }

    lemma ListLength()
      ensures |metadata.fileIndex.list| == |metadata.fileIndex.Abs().order|
    {
    }

    /** A step of the writer of file id. */
    method WriterTurn(file: WriteableCacheFile, op: FileOp)
      requires Valid() && file.cacheId in files && files[file.cacheId] == file
      requires WriterOp(op) && file.cacheId in states && Enabled(states[file.cacheId], op)
      modifies this`states, this`region, region
      ensures Valid() && region <= old(region)
      ensures Abs() == FileStep(old(Abs()), file.cacheId, op)
    {
      hide StoreInv, Owned, WriteableCacheFile.Valid, WriteableCacheFile.Abs, WriteableCacheFile.Repr, LruInv, Linked,
           Apply, Enabled;
      ghost var id := file.cacheId;
      FileStepRefines(crc, Abs(), id, op);
      ghost var region' := StepFile(file, files, states, crc, region, id, op);
      states, region := states[id := Apply(states[id], op)], region';
    }

    /** One turn of the drain loop of Write: make room for the buffer, then write it. */
    method WriteNext(file: WriteableCacheFile)
      requires Valid() && file.cacheId in files && files[file.cacheId] == file
      requires file.cacheId in states && Enabled(states[file.cacheId], Flush)
      requires VictimsOk(Abs(), |NextPiece(states[file.cacheId])|)
      modifies this`size, this`files, this`states, this`region, metadata, metadata.fileIndex, region
      ensures Valid() && region <= old(region)
      ensures old(file.doff < |file.bufs| && file.bufs[file.doff].Valid())
      ensures old(file.bufs[file.doff].Used()) + size <= cfg.cacheSize
      ensures Wrote(old(Abs()), Abs(), file.cacheId, old(file.bufs[file.doff].Content()))
    {
      hide StoreInv, Owned, WriteableCacheFile.Valid, WriteableCacheFile.Repr, LruInv, Linked, Apply, NextPiece,
           FlashSpec.Evict, VictimsOk, EncodeAll, NumBufs, PopsFewest, Wrote;
      ghost var f, id := Abs(), file.cacheId;
      OwnedRest(files, states, crc, region, id);
      NextPieceSize(file);
      var left := file.bufs[file.doff].Used();
      EvictSpares(f, left, id);
      Evict(left);
      WroteNow(f, Abs(), id);
      OwnedKeys();
      WriterTurn(file, Flush);
    }
  }

  lemma NextPieceSize(file: WriteableCacheFile)
    requires file.Valid() && Enabled(file.Abs(), Flush)
    ensures file.doff < |file.bufs| && file.bufs[file.doff].Valid()
    ensures file.bufs[file.doff].Content() == NextPiece(file.Abs())
    ensures file.bufs[file.doff].Used() == |NextPiece(file.Abs())| && !file.Abs().pc.Exited?
  {
    file.FlushFacts();
    assert |file.bufs[file.doff].Content()| == file.bufs[file.doff].Used();
  }

  /** What the loop of Evict may rely on at each turn. */
  lemma EvictTurn(crc: Checksum, f: Flash, needed: nat)
    requires FlashInv(crc, f) && VictimsOk(f, needed) && needed + f.size > f.cfg.cacheSize
    ensures f.files.order != [] && Oldest(f.files) in f.files.items
    ensures Oldest(f.files) != f.cur && f.files.items[Oldest(f.files)].pc.Exited?
    ensures VictimsOk(EvictOne(f), needed)
    ensures Evict(f, needed) == Evict(EvictOne(f), needed)
    ensures |EvictOne(f).files.order| < |f.files.order|
  {
  }

  lemma EvictOneIs(f: Flash, v: nat)
    requires f.files.order != [] && v == Oldest(f.files) && v in f.files.items
    ensures EvictOne(f) == f.(files := LruErase(LruEvict(f.files), v),
                                        size := f.size - |f.files.items[v].disk|,
                                        index := f.index - SetOf(KeysOf(f.files.items[v].recs)))
  {
  }

  /** A step of the writer of one of the files. */
  method StepFile(file: WriteableCacheFile, ghost files: map<nat, WriteableCacheFile>,
                  ghost states: map<nat, FileState>, crc: Checksum, ghost region: set<object>, ghost id: nat,
                  op: FileOp)
    returns (ghost region': set<object>)
    requires Owned(files, states, crc, region) && id in files && files[id] == file
    requires id in states && WriterOp(op) && Enabled(states[id], op)
    modifies region
    ensures Owned(files, states[id := Apply(states[id], op)], crc, region') && region' <= region
  {
    hide Owned, WriteableCacheFile.Abs, Apply, EncodeAll, FileInv, RecordsOk, KeysOf;
    OwnedRest(files, states, crc, region, id);
    ghost var rest := region - file.Repr();
    TurnFile(file, op);
    region' := rest + file.Repr();
    hide WriteableCacheFile.Valid;
    OwnedBack(files, states, crc, rest, id);
  }

  /** The same file after Close. */
  ghost predicate ClosedFrom(s: FileState, t: FileState) {
    t.recs == s.recs && t.pc.Exited? && t.disk == ClosedDisk(s)
  }

  /** The files that are off the list are closed, those on it are as they were. */
  ghost predicate Closed(was: map<nat, FileState>, now: map<nat, FileState>, order: seq<nat>) {
    && was.Keys == now.Keys && (forall id :: id in order ==> id in now)
    && (forall id :: id in was ==> if id in order then now[id] == was[id] else ClosedFrom(was[id], now[id]))
  }

  lemma NoneClosed(states: map<nat, FileState>, order: seq<nat>)
    requires forall id :: id in states <==> id in order
    ensures Closed(states, states, order)
  {
  }

  lemma OldestLast(c: LruState<nat, WriteableCacheFile>)
    requires c.order != [] && NoDup(c.order)
    ensures Oldest(c) in c.order && NoDup(LruEvict(c).order) && |LruEvict(c).order| == |c.order| - 1
  {
  }

  lemma StillOpen(was: map<nat, FileState>, now: map<nat, FileState>, order: seq<nat>, id: nat)
    requires Closed(was, now, order) && id in order
    ensures id in was && id in now && now[id] == was[id]
  {
  }

  lemma OneClosed(was: map<nat, FileState>, now: map<nat, FileState>, c: LruState<nat, WriteableCacheFile>,
                  t: FileState)
    requires Closed(was, now, c.order) && NoDup(c.order) && c.order != []
    requires Oldest(c) in was && ClosedFrom(was[Oldest(c)], t)
    ensures Closed(was, now[Oldest(c) := t], LruEvict(c).order)
  {
    hide ClosedFrom;
    assert forall id :: id in c.order <==> id in LruEvict(c).order || id == Oldest(c);
  }

  /** Close one of the files. */
  method CloseFile(file: WriteableCacheFile, ghost files: map<nat, WriteableCacheFile>,
                   ghost states: map<nat, FileState>, crc: Checksum, ghost region: set<object>, ghost id: nat)
    returns (ghost t: FileState, ghost region': set<object>)
    requires Owned(files, states, crc, region) && id in files && files[id] == file
    requires id in states && ClosesInside(states[id])
    modifies region
    ensures Owned(files, states[id := t], crc, region') && region' <= region && ClosedFrom(states[id], t)
  {
    hide Owned, ClosesInside, ClosedFrom, WriteableCacheFile.Valid, WriteableCacheFile.Repr, WriteableCacheFile.Abs;
    OwnedRest(files, states, crc, region, id);
    ghost var rest := region - file.Repr();
    CloseOne(file);
    t := file.Abs();
    region' := rest + file.Repr();
    OwnedBack(files, states, crc, rest, id);
  }

  method CloseOne(file: WriteableCacheFile)
    requires file.Valid() && ClosesInside(file.Abs())
    modifies file
    ensures file.Valid() && ClosedFrom(old(file.Abs()), file.Abs())
    ensures file in file.Repr() && file.Repr() <= old(file.Repr())
  {
    hide WriteableCacheFile.Valid, ClosesInside, ClosedDisk;
    file.Close();
  }

  method TurnFile(file: WriteableCacheFile, op: FileOp)
    requires file.Valid() && WriterOp(op) && Enabled(file.Abs(), op)
    modifies file
    ensures file.Valid() && file.Abs() == Apply(old(file.Abs()), op)
    ensures file in file.Repr() && file.Repr() <= old(file.Repr())
  {
    match op {
      case Wake => file.WaitSemaphore();
      case Flush => file.WriteBuffer();
      case Leave => file.LeaveLoop();
      case Finish => file.EndWrite();
      case Check => file.CheckEof();
    }
  }

  lemma ExitedFile(file: WriteableCacheFile)
    requires file.Valid()
    ensures file.keyLists == KeysOf(file.Abs().recs) && file.Abs().disk == file.disk && file.Abs().pc == file.pc
    ensures file.pc.Exited? ==> ClosesInside(file.Abs()) && ClosedDisk(file.Abs()) == file.disk
  {
  }
}
