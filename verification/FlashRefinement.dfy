/** The flash cache refines a map that keeps the first value set until the key is erased. */
module FlashRefinement {
  import opened Bytes
  import opened CacheRecord
  import opened Layout
  import opened FileSpec
  import opened FileRuns
  import opened FileReads
  import opened Lru
  import opened FlashSpec

  // ---------- One file ----------

  /** An issued address holds one of the file's records, value bytes last. */
  lemma FindIssued(s: FileState, key: Text, lba: LBA) returns (i: nat)
    requires Issued(s, key, lba)
    ensures i < |s.recs| && s.recs[i].key == key && lba == Address(s.id, s.recs, i)
    ensures lba.off + HEADER_SIZE + |key| <= lba.off + lba.size <= |s.Stream()|
    ensures ValueAt(s.Stream(), key, lba) == s.recs[i].val
  {
    i :| 0 <= i < |s.recs| && s.recs[i].key == key && lba == Address(s.id, s.recs, i);
    SliceAt(s.recs, i);
    ValueSlice(s.Stream(), s.recs[i], lba);
  }

  lemma ValueSlice(stream: seq<byte>, r: Record, lba: LBA)
    requires lba.off + lba.size <= |stream| && lba.size == |Serialize(r)|
    requires stream[lba.off..lba.off + lba.size] == Serialize(r)
    ensures lba.off + HEADER_SIZE + |r.key| <= lba.off + lba.size
    ensures ValueAt(stream, r.key, lba) == r.val
  {
    SerializeNonempty(r);
    var ser := Serialize(r);
    var cut := HEADER_SIZE + |r.key|;
    assert ser[cut..] == r.val;
    assert stream[lba.off + cut..lba.off + lba.size] == stream[lba.off..lba.off + lba.size][cut..];
  }

  /** t has every record of s, at the same place. */
  ghost predicate Grows(s: FileState, t: FileState) {
    s.id == t.id && s.recs <= t.recs
  }

  /** A growing file keeps every issued address and the bytes there. */
  lemma GrowsIssues(s: FileState, t: FileState)
    requires Grows(s, t)
    ensures forall k, lba :: Issued(s, k, lba) ==> Issued(t, k, lba)
    ensures s.Stream() <= t.Stream()
  {
    EncodePrefix(t.recs, |s.recs|);
    assert t.recs[..|s.recs|] == s.recs;
    forall k, lba | Issued(s, k, lba)
      ensures Issued(t, k, lba)
    {
      var i :| 0 <= i < |s.recs| && s.recs[i].key == k && lba == Address(s.id, s.recs, i);
      assert t.recs[..i] == s.recs[..i];
      assert t.recs[i].key == k && lba == Address(t.id, t.recs, i);
    }
  }

  // ---------- The map of contents ----------

  /** Under the invariant an entry shows the value of the record it was issued for. */
  lemma EntryShown(crc: Checksum, f: Flash, k: Text) returns (i: nat)
    requires StoreInv(crc, f) && k in f.index
    ensures InRange(f, k)
    ensures var s := f.files.items[f.index[k].cacheId];
      i < |s.recs| && s.recs[i].key == k && f.index[k] == Address(s.id, s.recs, i) && Shown(f, k) == s.recs[i].val
  {
    i := FindIssued(f.files.items[f.index[k].cacheId], k, f.index[k]);
  }

  lemma IndexInRange(crc: Checksum, f: Flash)
    requires StoreInv(crc, f)
    ensures forall k :: k in f.index ==> InRange(f, k)
    ensures Contents(f).Keys == f.index.Keys
  {
    forall k | k in f.index
      ensures InRange(f, k)
    {
      var i := EntryShown(crc, f, k);
    }
    hide InRange, Shown;
  }

  /** Flashes that index the same keys and show the same values have the same contents. */
  lemma SameContents(f: Flash, g: Flash)
    requires f.index.Keys == g.index.Keys
    requires forall k :: k in f.index ==> InRange(f, k) && InRange(g, k) && Shown(f, k) == Shown(g, k)
    ensures Contents(f) == Contents(g)
  {
    hide InRange, Shown;
  }

  /** Every file of f is still in g, perhaps with more records. */
  ghost predicate FlashGrows(f: Flash, g: Flash) {
    forall id :: id in f.files.items ==> id in g.files.items && Grows(f.files.items[id], g.files.items[id])
  }

  lemma KeyKept(crc: Checksum, f: Flash, g: Flash, k: Text)
    requires StoreInv(crc, f) && FlashGrows(f, g) && g.index == f.index && k in f.index
    ensures f.index[k].cacheId in g.files.items && Issued(g.files.items[f.index[k].cacheId], k, f.index[k])
    ensures InRange(f, k) && InRange(g, k) && Shown(g, k) == Shown(f, k)
  {
    hide StoreInv, FilesOk, EncodeAll, Issued;
    var i := EntryShown(crc, f, k);
    var s, t := f.files.items[f.index[k].cacheId], g.files.items[f.index[k].cacheId];
    GrowsIssues(s, t);
    assert Issued(s, k, f.index[k]) by { IssuedWitness(s, i); }
  }

  lemma IssuedWitness(s: FileState, i: nat)
    requires i < |s.recs|
    ensures Issued(s, s.recs[i].key, Address(s.id, s.recs, i))
  {
  }

  /** While files only grow, an index that stays stays good, and shows the same values. */
  lemma FlashGrowsKeeps(crc: Checksum, f: Flash, g: Flash)
    requires StoreInv(crc, f) && FlashGrows(f, g) && g.index == f.index
    ensures IndexOk(g.files.items, g.index) && Contents(g) == Contents(f)
  {
    hide StoreInv, InRange, Shown, FlashGrows, Issued, Contents;
    forall k | k in f.index
      ensures f.index[k].cacheId in g.files.items && Issued(g.files.items[f.index[k].cacheId], k, f.index[k])
      ensures InRange(f, k) && InRange(g, k) && Shown(g, k) == Shown(f, k)
    {
      KeyKept(crc, f, g, k);
    }
    SameContents(f, g);
  }

  // ---------- Insert ----------

  lemma FreshFileOk(crc: Checksum, cfg: Config, id: nat)
    requires cfg.buffered ==> cfg.w > 0
    ensures FileOk(crc, cfg, id, FreshFile(id, cfg.fileSize, cfg.w, cfg.buffered))
  {
    FreshFileInv(id, cfg.fileSize, cfg.w, cfg.buffered);
  }

  lemma NewCacheFileFiles(crc: Checksum, f: Flash)
    requires StoreInv(crc, f)
    ensures f.nextId !in f.files.items
    ensures FilesOk(crc, f.cfg, NewCacheFile(f).files, f.nextId + 1) && FlashGrows(f, NewCacheFile(f))
  {
    hide FileOk, LruInv, IndexOk;
    FreshFileOk(crc, f.cfg, f.nextId);
    var s := FreshFile(f.nextId, f.cfg.fileSize, f.cfg.w, f.cfg.buffered);
    UseKeepsInv(f.files, AddKey(f.nextId, s));
    assert f.nextId !in f.files.items;
    hide FreshFile;
  }

  lemma NewCacheFileKeeps(crc: Checksum, f: Flash)
    requires StoreInv(crc, f)
    ensures FlashInv(crc, NewCacheFile(f)) && Contents(NewCacheFile(f)) == Contents(f)
    ensures f.nextId !in f.files.items
  {
    hide FilesOk, IndexOk, Contents, FlashGrows;
    NewCacheFileFiles(crc, f);
    FlashGrowsKeeps(crc, f, NewCacheFile(f));
  }

  /** The file to be written is open after at most one rollover. */
  lemma RolledIsOpen(crc: Checksum, f: Flash)
    requires FlashInv(crc, f)
    ensures FlashInv(crc, Rolled(f)) && Contents(Rolled(f)) == Contents(f)
    ensures f.nextId !in f.files.items
    ensures !Rolled(f).files.items[Rolled(f).cur].eof
    ensures Rolled(f).index == f.index && Rolled(f).size == f.size && Rolled(f).cfg == f.cfg
    ensures CurIdle(f) ==> CurIdle(Rolled(f))
  {
    hide Contents, FilesOk, IndexOk;
    NewCacheFileKeeps(crc, f);
  }

  lemma OpenIsWhole(s: FileState)
    requires FileInv(s) && !s.eof
    ensures !s.cut
  {
  }

  lemma TakenFileOk(crc: Checksum, cfg: Config, id: nat, s: FileState, r: Record, whole: bool)
    requires FileOk(crc, cfg, id, s) && Enabled(s, Put(r))
    requires Storable(r.key, r.val) && r == MakeRecord(crc, r.key, r.val)
    ensures FileOk(crc, cfg, id, Taken(s, r, whole)) && Taken(s, r, whole).recs == s.recs + [r]
    ensures Grows(s, Taken(s, r, whole)) && (whole ==> Taken(s, r, whole).stage.Idle?)
  {
    hide FileInv;
    OpenIsWhole(s);
    ApplyKeepsInv(s, Put(r));
    AppendKeepsInv(s, r);
  }

  /** Replacing one file by a grown one. */
  lemma SetFileKeeps(crc: Checksum, f: Flash, id: nat, t: FileState)
    requires FlashInv(crc, f) && id in f.files.items
    requires FileOk(crc, f.cfg, id, t) && Grows(f.files.items[id], t)
    ensures FlashInv(crc, SetFile(f, id, t)) && Contents(SetFile(f, id, t)) == Contents(f)
    ensures FlashGrows(f, SetFile(f, id, t))
  {
    hide FileOk;
    var g := SetFile(f, id, t);
    assert forall x :: x in f.files.items && x != id ==> g.files.items[x] == f.files.items[x];
    assert FlashGrows(f, g);
    FlashGrowsKeeps(crc, f, g);
  }

  lemma InsertRecordKeeps(crc: Checksum, f: Flash, r: Record, whole: bool)
    requires FlashInv(crc, f) && !f.files.items[f.cur].eof && CurIdle(f)
    requires f.files.items[f.cur].buffered ==> f.files.items[f.cur].w > 0
    requires Storable(r.key, r.val) && r == MakeRecord(crc, r.key, r.val)
    ensures FlashInv(crc, InsertRecord(f, r, whole)) && (whole ==> CurIdle(InsertRecord(f, r, whole)))
    ensures Contents(InsertRecord(f, r, whole)) ==
              if r.key in Contents(f) then Contents(f) else Contents(f)[r.key := r.val]
  {
    var s := f.files.items[f.cur];
    var t := Taken(s, r, whole);
    TakenFileOk(crc, f.cfg, f.cur, s, r, whole);
    SetFileKeeps(crc, f, f.cur, t);
    var h := SetFile(f, f.cur, t);
    assert t.recs[|s.recs|] == r;
    assert Issued(t, r.key, Address(f.cur, t.recs, |s.recs|));
    AddEntryKeeps(crc, h, r.key, Address(f.cur, t.recs, |s.recs|), |s.recs|, InsertRecord(f, r, whole).size);
    IndexInRange(crc, f);
    hide StoreInv, Contents, Taken;
    assert InsertRecord(f, r, whole)
        == h.(size := InsertRecord(f, r, whole).size, index := InsertRecord(f, r, whole).index);
  }

  lemma AddressInjective(recs: seq<Record>, i: nat, j: nat, id: nat)
    requires i < |recs| && j < |recs| && Address(id, recs, i) == Address(id, recs, j)
    ensures i == j
  {
    if i < j {
      OffsetMonotone(recs, i, j);
    } else if j < i {
      OffsetMonotone(recs, j, i);
    }
  }

  lemma AddEntryInv(crc: Checksum, f: Flash, key: Text, lba: LBA, i: nat, size: int)
    requires StoreInv(crc, f) && lba.cacheId in f.files.items
    requires var s := f.files.items[lba.cacheId];
      i < |s.recs| && s.recs[i].key == key && lba == Address(s.id, s.recs, i)
    ensures StoreInv(crc, f.(size := size, index := IndexInsert(f.index, key, lba)))
  {
    hide FilesOk, Issued, Address;
    IssuedWitness(f.files.items[lba.cacheId], i);
  }

  /** Adding an entry for an issued address, if its key has none. */
  lemma AddEntryKeeps(crc: Checksum, f: Flash, key: Text, lba: LBA, i: nat, size: int)
    requires StoreInv(crc, f) && lba.cacheId in f.files.items
    requires var s := f.files.items[lba.cacheId];
      i < |s.recs| && s.recs[i].key == key && lba == Address(s.id, s.recs, i)
    ensures var g := f.(size := size, index := IndexInsert(f.index, key, lba));
      && StoreInv(crc, g)
      && Contents(g) == if key in f.index then Contents(f)
                        else Contents(f)[key := f.files.items[lba.cacheId].recs[i].val]
  {
    hide StoreInv, Issued, Contents, ValueAt, EncodeAll, Offset;
    var s := f.files.items[lba.cacheId];
    var g := f.(size := size, index := IndexInsert(f.index, key, lba));
    AddEntryInv(crc, f, key, lba, i, size);
    if key in f.index {
      assert g == f.(size := size);
      IndexInRange(crc, f);
      IndexInRange(crc, g);
      SameContents(f, g);
    } else {
      var j := EntryShown(crc, g, key);
      AddressInjective(s.recs, i, j, s.id);
      IndexInRange(crc, f);
      IndexInRange(crc, g);
      OneMoreEntry(f, g, key, s.recs[i].val);
    }
  }

  lemma OneMoreEntry(f: Flash, g: Flash, key: Text, val: Text)
    requires key !in f.index && key in g.index && g.index.Keys == f.index.Keys + {key} && g.files == f.files
    requires forall k :: k in f.index ==> InRange(f, k) && g.index[k] == f.index[k]
    requires InRange(g, key) && Shown(g, key) == val
    ensures Contents(g) == Contents(f)[key := val]
  {
    hide ValueAt, EncodeAll;
  }

  /** Insert keeps a value that is already there: the first one wins. */
  lemma InsertRefines(crc: Checksum, f: Flash, key: Text, val: Text, whole: bool := true)
    requires FlashInv(crc, f) && Storable(key, val) && CurIdle(f)
    ensures FlashInv(crc, Insert(f, crc, key, val, whole)) && (whole ==> CurIdle(Insert(f, crc, key, val, whole)))
    ensures Contents(Insert(f, crc, key, val, whole)) ==
              if key in Contents(f) then Contents(f) else Contents(f)[key := val]
  {
    RolledIsOpen(crc, f);
    OpenHasBuffers(crc, f);
    OpenHasBuffers(crc, Rolled(f));
    InsertRecordKeeps(crc, Rolled(f), MakeRecord(crc, key, val), whole);
    hide StoreInv, Contents, InsertRecord, Rolled;
  }

  lemma OpenHasBuffers(crc: Checksum, f: Flash)
    requires FlashInv(crc, f)
    ensures var s := f.files.items[f.cur]; !s.eof && s.buffered ==> s.w > 0
  {
  }

  // ---------- Lookup ----------

  lemma LookedKeeps(crc: Checksum, f: Flash, key: Text)
    requires FlashInv(crc, f)
    ensures FlashInv(crc, Looked(f, key)) && Contents(Looked(f, key)) == Contents(f)
  {
    hide FileOk, LruInv, Issued;
    var g := Looked(f, key);
    if key in f.index {
      UseKeepsInv(f.files, TouchKey(f.index[key].cacheId));
      FlashGrowsKeeps(crc, f, g);
    }
  }

  /** Lookup agrees with the contents, except that the value of a record that is no longer whole
      anywhere (lost when its file was closed) comes back as the empty string. */
  lemma LookupRefines(crc: Checksum, f: Flash, key: Text)
    requires FlashInv(crc, f)
    ensures key in f.index ==> InRange(f, key)
    ensures Lookup(f, crc, key) ==
              if key !in Contents(f) then None
              else if Retained(f, key) then Some(Contents(f)[key])
              else Some([])
  {
    IndexInRange(crc, f);
    if key in f.index {
      var i := EntryShown(crc, f, key);
      ReadIssued(crc, f.files.items[f.index[key].cacheId], i);
      hide StoreInv, InRange, Read;
    }
  }

  /** No file has been closed before all of it was on flash. */
  ghost predicate NothingLost(f: Flash) {
    forall id :: id in f.files.items && f.files.items[id].pc.Exited? ==>
                   f.files.items[id].disk == f.files.items[id].Stream()
  }

  lemma NothingLostRetains(crc: Checksum, f: Flash, key: Text)
    requires FlashInv(crc, f) && NothingLost(f) && key in f.index
    ensures Retained(f, key)
  {
    var i := EntryShown(crc, f, key);
    var s := f.files.items[f.index[key].cacheId];
    SliceAt(s.recs, i);
    SerializeNonempty(s.recs[i]);
  }

  // ---------- Delete, writer steps ----------

  /** Fewer entries show the same values. */
  lemma FewerEntries(crc: Checksum, f: Flash, keys: set<Text>)
    requires FlashInv(crc, f)
    ensures var g := f.(index := f.index - keys); FlashInv(crc, g) && Contents(g) == Contents(f) - keys
  {
    hide FilesOk, Issued, ValueAt;
    var g := f.(index := f.index - keys);
    assert FlashInv(crc, g);
    IndexInRange(crc, f);
    IndexInRange(crc, g);
    assert forall k :: k in g.index ==> Contents(g)[k] == Contents(f)[k];
  }

  lemma FileStepRefines(crc: Checksum, f: Flash, id: nat, op: FileOp)
    requires FlashInv(crc, f) && id in f.files.items && Enabled(f.files.items[id], op) && !op.Put?
    ensures FlashInv(crc, FileStep(f, id, op)) && Contents(FileStep(f, id, op)) == Contents(f)
  {
    var s := f.files.items[id];
    ApplyKeepsInv(s, op);
    SetFileKeeps(crc, f, id, Apply(s, op));
  }

  // ---------- Evict ----------

  /** An entry of the evicted file is for one of that file's keys. */
  lemma VictimKeys(crc: Checksum, f: Flash, k: Text)
    requires FlashInv(crc, f) && k in f.index
    ensures k in KeySet(f.files.items[f.index[k].cacheId])
  {
    var i := EntryShown(crc, f, k);
    var s := f.files.items[f.index[k].cacheId];
    assert KeysOf(s.recs)[i] == k;
  }

  /** Evicting the least recent file erases exactly the entries of its keys, even of those that
      have been indexed anew in another file; what remains still names live files. */
  lemma EvictOneRefines(crc: Checksum, f: Flash)
    requires FlashInv(crc, f) && f.files.order != [] && Oldest(f.files) != f.cur
    ensures Oldest(f.files) in f.files.items
    ensures FlashInv(crc, EvictOne(f))
    ensures Contents(EvictOne(f)) == Contents(f) - KeySet(f.files.items[Oldest(f.files)])
  {
    var v := Oldest(f.files);
    var keys := KeySet(f.files.items[v]);
    var h := f.(index := f.index - keys);
    FewerEntries(crc, f, keys);
    forall k | k in h.index
      ensures h.index[k].cacheId != v
    {
      VictimKeys(crc, f, k);
    }
    DropFileKeeps(crc, h, v);
    hide StoreInv, Contents, KeySet;
    assert EvictOne(f) == h.(files := EvictOne(f).files, size := EvictOne(f).size);
  }

  /** Dropping the least recent file, when no entry names it. */
  lemma DropFileKeeps(crc: Checksum, f: Flash, v: nat)
    requires FlashInv(crc, f) && f.files.order != [] && v == Oldest(f.files) && v != f.cur
    requires forall k :: k in f.index ==> f.index[k].cacheId != v
    ensures forall size :: var g := f.(files := LruErase(LruEvict(f.files), v), size := size);
                           FlashInv(crc, g) && Contents(g) == Contents(f)
  {
    hide FileOk, LruInv, Issued;
    UseKeepsInv(f.files, DropOldest);
    forall size: int
      ensures var g := f.(files := LruErase(LruEvict(f.files), v), size := size);
        FlashInv(crc, g) && Contents(g) == Contents(f)
    {
      var g := f.(files := LruErase(LruEvict(f.files), v), size := size);
      assert FlashInv(crc, g);
      IndexInRange(crc, f);
      IndexInRange(crc, g);
      SameContents(f, g);
    }
  }
}
