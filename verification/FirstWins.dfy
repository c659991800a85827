/** What a restart shows: under each key the value of its first record on flash, whatever the index held before. */
module FirstWins {
  import opened Bytes
  import opened CacheRecord
  import opened Layout
  import opened FileSpec
  import opened FileReads
  import opened Lru
  import opened FlashSpec
  import opened FlashRefinement
  import opened FlashRuns
  import opened Recovery

  /** The value of the first entry of a key. */
  function FirstOf(log: seq<(Text, Text)>, k: Text): Option<Text> {
    if log == [] then None else if log[0].0 == k then Some(log[0].1) else FirstOf(log[1..], k)
  }

  lemma {:induction false} FirstOfJoin(a: seq<(Text, Text)>, b: seq<(Text, Text)>, k: Text)
    ensures FirstOf(a + b, k) == if FirstOf(a, k).Some? then FirstOf(a, k) else FirstOf(b, k)
  {
    if a == [] {
      assert a + b == b;
    } else {
      FirstOfJoin(a[1..], b, k);
      assert (a + b)[0] == a[0] && (a + b)[1..] == a[1..] + b;
    }
  }

  lemma FirstOfSnoc(log: seq<(Text, Text)>, n: nat, k: Text)
    requires 0 < n <= |log|
    ensures FirstOf(log[..n], k) ==
              if FirstOf(log[..n - 1], k).Some? then FirstOf(log[..n - 1], k)
              else if log[n - 1].0 == k then Some(log[n - 1].1) else None
  {
    var last: seq<(Text, Text)> := [log[n - 1]];
    FirstOfJoin(log[..n - 1], last, k);
    assert log[..n] == log[..n - 1] + last && last[1..] == [];
  }

  // ---------- One file of the directory ----------

  predicate IsCut(e: Found) {
    |e.bytes| < |EncodeAll(e.recs)|
  }

  /** Keys and values of a file's records, as a lookup gives them: the value of a record cut off is empty. */
  function Readable(e: Found): (r: seq<(Text, Text)>)
    ensures |r| == |e.recs| && forall i :: 0 <= i < |r| ==> r[i].0 == e.recs[i].key
  {
    seq(|e.recs|, i requires 0 <= i < |e.recs| =>
      (e.recs[i].key, if IsCut(e) && i == |e.recs| - 1 then [] else e.recs[i].val))
  }

  /** Only a record that is cut off reaches behind the end of its file. */
  lemma ReadableAt(crc: Checksum, e: Found, i: nat)
    requires FoundOk(crc, e) && i < |e.recs|
    ensures var lba := Address(e.id, e.recs, i);
      Readable(e)[i].1 == if lba.off + lba.size > |e.bytes| then [] else e.recs[i].val
  {
    hide EncodeAll, RecordsSound, Serialize;
    SliceAt(e.recs, i);
    assert e.recs[..|e.recs|] == e.recs;
    if IsCut(e) && i < |e.recs| - 1 {
      OffsetMonotone(e.recs, i + 1, |e.recs| - 1);
    }
  }

  /** What a lookup makes of an entry. */
  lemma EntryRead(crc: Checksum, f: Flash, k: Text, i: nat)
    requires StoreInv(crc, f) && k in f.index && f.index[k].cacheId in f.files.items
    requires var s := f.files.items[f.index[k].cacheId];
      i < |s.recs| && f.index[k] == Address(s.id, s.recs, i)
    ensures InRange(f, k)
    ensures var s := f.files.items[f.index[k].cacheId];
      Lookup(f, crc, k) ==
        Some(if s.Closed() && f.index[k].off + f.index[k].size > |s.disk| then [] else s.recs[i].val)
  {
    var j := EntryShown(crc, f, k);
    EntryFile(crc, f, k);
    hide StoreInv, EncodeAll, FileInv, RecordsSound, Serialize, Offset, Deserialize;
    ReadIssued(crc, f.files.items[f.index[k].cacheId], i);
  }

  lemma EntryFile(crc: Checksum, f: Flash, k: Text)
    requires StoreInv(crc, f) && k in f.index && f.index[k].cacheId in f.files.items
    ensures var s := f.files.items[f.index[k].cacheId];
      FileInv(s) && RecordsSound(crc, s.recs, s.cut) && s.id == f.index[k].cacheId
  {
  }

  /** The same entry of the same file reads the same. */
  lemma SameEntry(crc: Checksum, f: Flash, g: Flash, k: Text)
    requires k in f.index && k in g.index && g.index[k] == f.index[k]
    requires f.index[k].cacheId in f.files.items && f.index[k].cacheId in g.files.items
    requires f.files.items[f.index[k].cacheId] == g.files.items[f.index[k].cacheId] && InRange(f, k)
    ensures InRange(g, k) && Lookup(g, crc, k) == Lookup(f, crc, k)
  {
    hide EncodeAll, Read;
  }

  /** The cache with one file more, and n of its records indexed. */
  function Indexed(f: Flash, e: Found, n: nat): Flash
    requires n <= |e.recs|
  {
    OpenOne(f, e).(index := IndexRecords(f.index, e.id, e.recs, n))
  }

  lemma IndexedInv(crc: Checksum, f: Flash, e: Found, n: nat)
    requires StoreInv(crc, f) && e.id !in f.files.items && FoundOk(crc, e) && n <= |e.recs|
    ensures StoreInv(crc, Indexed(f, e, n))
    ensures e.id in Indexed(f, e, n).files.items
    ensures Indexed(f, e, n).files.items[e.id] == ReopenedFile(e.id, f.cfg.buffered, e.recs, e.bytes)
  {
    hide FileOk, LruInv, EncodeAll, Issued, RecordsOk, IndexRecords, FoundOk;
    var s := ReopenedFile(e.id, f.cfg.buffered, e.recs, e.bytes);
    var g := Indexed(f, e, n);
    ReopenedOk(crc, f.cfg, e);
    UseKeepsInv(f.files, AddKey(e.id, s));
    assert s.recs == e.recs && s.id == e.id;
    IndexRecordsOk(g.files.items, f.index, e.id, n);
  }

  /** A record adds an entry only if its key has none. */
  lemma ScanOne(crc: Checksum, f: Flash, e: Found, n: nat, k: Text)
    requires StoreInv(crc, f) && e.id !in f.files.items && FoundOk(crc, e) && 0 < n <= |e.recs|
    requires var g := Indexed(f, e, n - 1); k in g.index ==> InRange(g, k)
    ensures var g, h := Indexed(f, e, n - 1), Indexed(f, e, n);
      && (k in h.index ==> InRange(h, k))
      && Lookup(h, crc, k) == if k in g.index then Lookup(g, crc, k)
                              else if e.recs[n - 1].key == k then Some(Readable(e)[n - 1].1)
                              else None
  {
    hide EncodeAll, FoundOk, Readable, Lookup, InRange, LruInv, IndexOk, FileOk, Offset, Serialize;
    var g, h := Indexed(f, e, n - 1), Indexed(f, e, n);
    IndexedInv(crc, f, e, n - 1);
    IndexedInv(crc, f, e, n);
    assert h.index == IndexInsert(g.index, e.recs[n - 1].key, Address(e.id, e.recs, n - 1)) && h.files == g.files;
    if k in g.index {
      NamesFile(crc, g, k);
      SameEntry(crc, g, h, k);
    } else if e.recs[n - 1].key == k {
      ReadableAt(crc, e, n - 1);
      EntryRead(crc, h, k, n - 1);
    } else {
      assert Lookup(h, crc, k) == None by { NotIndexed(crc, h, k); }
    }
  }

  lemma NamesFile(crc: Checksum, f: Flash, k: Text)
    requires StoreInv(crc, f) && k in f.index
    ensures f.index[k].cacheId in f.files.items
  {
  }

  lemma NotIndexed(crc: Checksum, f: Flash, k: Text)
    requires k !in f.index
    ensures Lookup(f, crc, k) == None
  {
  }

  lemma IndexedMeansFound(f: Flash, crc: Checksum, k: Text)
    requires k in f.index ==> InRange(f, k)
    ensures Lookup(f, crc, k).Some? <==> k in f.index
  {
    hide Read, EncodeAll;
  }

  lemma {:induction false} ScanShows(crc: Checksum, f: Flash, e: Found, n: nat, k: Text)
    requires StoreInv(crc, f) && e.id !in f.files.items && FoundOk(crc, e) && n <= |e.recs|
    requires k in f.index ==> InRange(f, k)
    ensures var g := Indexed(f, e, n);
      && (k in g.index ==> InRange(g, k))
      && Lookup(g, crc, k) == if k in f.index then Lookup(f, crc, k) else FirstOf(Readable(e)[..n], k)
    decreases n
  {
    hide StoreInv, EncodeAll, FoundOk, Readable, Lookup, InRange, Indexed, FirstOf;
    if n == 0 {
      ScanNone(crc, f, e, k);
    } else {
      ScanShows(crc, f, e, n - 1, k);
      ScanOne(crc, f, e, n, k);
      FirstOfSnoc(Readable(e), n, k);
      IndexedMeansFound(f, crc, k);
      IndexedMeansFound(Indexed(f, e, n - 1), crc, k);
    }
  }

  lemma ScanNone(crc: Checksum, f: Flash, e: Found, k: Text)
    requires StoreInv(crc, f) && e.id !in f.files.items && (k in f.index ==> InRange(f, k))
    ensures var g := Indexed(f, e, 0);
      && (k in g.index ==> InRange(g, k))
      && Lookup(g, crc, k) == if k in f.index then Lookup(f, crc, k) else FirstOf(Readable(e)[..0], k)
  {
    hide EncodeAll, InRange, Lookup, LruInv, FileOk;
    var g := Indexed(f, e, 0);
    if k in f.index {
      NamesFile(crc, f, k);
      SameEntry(crc, f, g, k);
    } else {
      NotIndexed(crc, g, k);
    }
  }

  // ---------- The directory ----------

  /** All records of the directory, file after file in the order in which it is read. */
  function Log(dir: seq<Found>): seq<(Text, Text)> {
    if dir == [] then [] else Log(dir[..|dir| - 1]) + Readable(dir[|dir| - 1])
  }

  lemma {:induction false} OpenFilesShow(crc: Checksum, cfg: Config, dir: seq<Found>, k: Text)
    requires (cfg.buffered ==> cfg.w > 0) && DirOk(crc, dir)
    ensures var f := OpenFiles(EmptyFlash(cfg), dir);
      && StoreInv(crc, f) && (k in f.index ==> InRange(f, k))
      && Lookup(f, crc, k) == FirstOf(Log(dir), k)
    decreases |dir|
  {
    hide StoreInv, SizeExact, NothingLost, FoundOk, EncodeAll, InRange, Lookup, Readable, Indexed;
    if dir == [] {
      EmptySafe(crc, cfg);
      NotIndexed(crc, EmptyFlash(cfg), k);
    } else {
      var front, last := dir[..|dir| - 1], dir[|dir| - 1];
      assert forall i :: 0 <= i < |front| ==> front[i] == dir[i];
      OpenFilesShow(crc, cfg, front, k);
      OpenFilesSafe(crc, cfg, front);
      OpenFilesSafe(crc, cfg, dir);
      var f := OpenFiles(EmptyFlash(cfg), front);
      assert last.id !in f.files.items by {
        assert forall i :: 0 <= i < |front| ==> Ids(front)[i] == dir[i].id;
      }
      ScanShows(crc, f, last, |last.recs|, k);
      assert Readable(last)[..|last.recs|] == Readable(last);
      AllIndexed(f, last);
      FirstOfJoin(Log(front), Readable(last), k);
      IndexedMeansFound(f, crc, k);
    }
  }

  lemma AllIndexed(f: Flash, e: Found)
    ensures Indexed(f, e, |e.recs|) == OpenOne(f, e)
  {
    hide IndexRecords, EncodeAll;
  }

  /** After a restart, in whatever order the directory is read and wherever its files end, a lookup finds the value
      of the first record of the key; that record cut off, the empty string; and nothing just if there is none. */
  lemma RestartShows(crc: Checksum, cfg: Config, found: seq<Found>, k: Text)
    requires (cfg.buffered ==> cfg.w > 0) && DirOk(crc, found)
    ensures var u := OpenDir(cfg, found);
      FlashInv(crc, u) && (k in u.index ==> InRange(u, k)) && Lookup(u, crc, k) == FirstOf(Log(found), k)
  {
    hide StoreInv, Lookup, InRange, EncodeAll, Log, FirstOf, Contents;
    var f := OpenFiles(EmptyFlash(cfg), found);
    OpenFilesShow(crc, cfg, found, k);
    NewCacheFileKeeps(crc, f);
    NewFileShows(crc, f, k);
  }

  lemma NewFileShows(crc: Checksum, f: Flash, k: Text)
    requires StoreInv(crc, f) && f.nextId !in f.files.items && (k in f.index ==> InRange(f, k))
    ensures var g := NewCacheFile(f); (k in g.index ==> InRange(g, k)) && Lookup(g, crc, k) == Lookup(f, crc, k)
  {
    hide EncodeAll, InRange, Lookup, LruInv, FileOk;
    var g := NewCacheFile(f);
    if k in f.index {
      NamesFile(crc, f, k);
      SameEntry(crc, f, g, k);
    } else {
      NotIndexed(crc, g, k);
      NotIndexed(crc, f, k);
    }
  }
}
