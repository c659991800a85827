/** What a restart forgets: deletions from the index, whether one by one or with an evicted file. */
module Forgetting {
  import opened Bytes
  import opened CacheRecord
  import opened Layout
  import opened FileSpec
  import opened FileRuns
  import opened Lru
  import opened Scan
  import opened FlashSpec
  import opened FlashRefinement
  import opened FlashRuns
  import opened Recovery
  import opened FirstWins
  import opened NoLoss
  import opened Restart

  // ---------- The records on flash, and the inserts that put them there ----------

  function Entries(recs: seq<Record>): (r: seq<(Text, Text)>)
    ensures |r| == |recs| && forall i :: 0 <= i < |r| ==> r[i] == (recs[i].key, recs[i].val)
  {
    seq(|recs|, i requires 0 <= i < |recs| => (recs[i].key, recs[i].val))
  }

  /** Keys and values of the records of files [0, n), one after the other. */
  function FileLog(items: map<nat, FileState>, n: nat): seq<(Text, Text)> {
    if n == 0 then [] else FileLog(items, n - 1) + if n - 1 in items then Entries(items[n - 1].recs) else []
  }

  lemma {:induction false} FileLogSame(a: map<nat, FileState>, b: map<nat, FileState>, n: nat)
    requires forall id :: 0 <= id < n ==> (id in a <==> id in b) && (id in a ==> a[id].recs == b[id].recs)
    ensures FileLog(a, n) == FileLog(b, n)
  {
    if n > 0 {
      FileLogSame(a, b, n - 1);
    }
  }

  /** What an operation inserts. */
  function StepInserts(op: FlashOp): seq<(Text, Text)> {
    if op.OpInsert? then [(op.key, op.val)] else []
  }

  /** All that was ever inserted, in order. */
  function Inserted(ops: seq<FlashOp>): seq<(Text, Text)> {
    if ops == [] then [] else StepInserts(ops[0]) + Inserted(ops[1..])
  }

  lemma RolledLog(crc: Checksum, f: Flash)
    requires FlashInv(crc, f) && Unbroken(f)
    ensures var g := Rolled(f); Unbroken(g) && FileLog(g.files.items, g.nextId) == FileLog(f.files.items, f.nextId)
  {
    hide StoreInv, EncodeAll, FileLog;
    NewCacheFileKeeps(crc, f);
    if f.files.items[f.cur].eof {
      var g := NewCacheFile(f);
      FileLogSame(f.files.items, g.files.items, f.nextId);
      EmptyLastLog(g.files.items, f.nextId);
    }
  }

  lemma EmptyLastLog(items: map<nat, FileState>, n: nat)
    requires n in items && items[n].recs == []
    ensures FileLog(items, n + 1) == FileLog(items, n)
  {
  }

  lemma InsertRecordLog(f: Flash, r: Record, whole: bool)
    requires Unbroken(f) && f.cur in f.files.items
    requires f.files.items[f.cur].buffered ==> f.files.items[f.cur].w > 0
    ensures var g := InsertRecord(f, r, whole);
      Unbroken(g) && FileLog(g.files.items, g.nextId) == FileLog(f.files.items, f.nextId) + [(r.key, r.val)]
  {
    hide Address, EncodeAll, Taken, IndexInsert, Serialize;
    var s, g := f.files.items[f.cur], InsertRecord(f, r, whole);
    TakenRecs(s, r, whole);
    FileLogSame(f.files.items, g.files.items, f.cur);
    assert Entries(s.recs + [r]) == Entries(s.recs) + [(r.key, r.val)];
    assert FileLog(f.files.items, f.cur) + (Entries(s.recs) + [(r.key, r.val)])
        == FileLog(f.files.items, f.cur) + Entries(s.recs) + [(r.key, r.val)];
  }

  lemma InsertLog(crc: Checksum, f: Flash, key: Text, val: Text, whole: bool)
    requires FlashInv(crc, f) && Unbroken(f) && Storable(key, val) && CurIdle(f)
    ensures var g := Insert(f, crc, key, val, whole);
      Unbroken(g) && FileLog(g.files.items, g.nextId) == FileLog(f.files.items, f.nextId) + [(key, val)]
  {
    RolledIsOpen(crc, f);
    RolledLog(crc, f);
    OpenHasBuffers(crc, Rolled(f));
    InsertRecordLog(Rolled(f), MakeRecord(crc, key, val), whole);
    hide StoreInv, FileLog, Serialize, InsertRecord, Rolled, Contents, Unbroken;
  }

  lemma FileStepLog(f: Flash, id: nat, op: FileOp)
    requires id in f.files.items && Enabled(f.files.items[id], op) && !op.Put? && Unbroken(f)
    ensures var g := FileStep(f, id, op);
      Unbroken(g) && FileLog(g.files.items, g.nextId) == FileLog(f.files.items, f.nextId)
  {
    hide EncodeAll, FileLog;
    var g := FileStep(f, id, op);
    FileLogSame(f.files.items, g.files.items, f.nextId);
  }

  lemma StepLog(crc: Checksum, f: Flash, op: FlashOp)
    requires FlashInv(crc, f) && CanStep(f, op) && Unbroken(f) && !op.OpEvict?
    ensures var g := StepFlash(crc, f, op);
      && Unbroken(g)
      && FileLog(g.files.items, g.nextId) == FileLog(f.files.items, f.nextId) + StepInserts(op)
  {
    hide StoreInv, FileLog, Insert, FileStep, Contents, EncodeAll;
    assert FileLog(f.files.items, f.nextId) + [] == FileLog(f.files.items, f.nextId);
    match op
    case OpInsert(key, val, whole) => InsertLog(crc, f, key, val, whole);
    case OpFile(id, step) => FileStepLog(f, id, step);
    case _ =>
  }

  predicate NoEviction(ops: seq<FlashOp>) {
    forall i :: 0 <= i < |ops| ==> !ops[i].OpEvict?
  }

  lemma JoinThree(a: seq<(Text, Text)>, b: seq<(Text, Text)>, c: seq<(Text, Text)>)
    ensures a + b + c == a + (b + c)
  {
  }

  lemma {:induction false} RunLog(crc: Checksum, f: Flash, ops: seq<FlashOp>)
    requires FlashInv(crc, f) && CanRunFlash(crc, f, ops) && Unbroken(f) && NoEviction(ops)
    ensures var t := RunFlash(crc, f, ops);
      && Unbroken(t)
      && FileLog(t.files.items, t.nextId) == FileLog(f.files.items, f.nextId) + Inserted(ops)
    decreases |ops|
  {
    hide FlashInv, Unbroken, CanStep, Contents, StepInserts, FileLog, StepFlash;
    var log := FileLog(f.files.items, f.nextId);
    if ops == [] {
      assert log + [] == log;
    } else {
      StepRefines(crc, f, ops[0]);
      StepLog(crc, f, ops[0]);
      RunLog(crc, StepFlash(crc, f, ops[0]), ops[1..]);
      JoinThree(log, StepInserts(ops[0]), Inserted(ops[1..]));
    }
  }

  lemma WholeEntries(id: nat, s: FileState)
    ensures Readable(Found(id, s.recs, s.Stream())) == Entries(s.recs)
  {
  }

  lemma {:induction false} LogOfDir(f: Flash, n: nat)
    requires forall id :: 0 <= id < n ==> id in f.files.items
    ensures Log(DirOf(f, n)) == FileLog(f.files.items, n)
    decreases n
  {
    hide DirOf, EncodeAll, Readable, Entries;
    if n > 0 {
      DirOfSnoc(f, n);
      LogOfDir(f, n - 1);
      WholeEntries(n - 1, f.files.items[n - 1]);
    }
  }

  /** What holds after a run without file evictions from an empty directory. */
  lemma UnbrokenRun(crc: Checksum, cfg: Config, ops: seq<FlashOp>)
    requires cfg.buffered ==> cfg.w > 0
    requires (StartInv(crc, cfg); CanRunFlash(crc, StartFlash(cfg), ops)) && NoEviction(ops)
    ensures (StartInv(crc, cfg);
      var t := RunFlash(crc, StartFlash(cfg), ops);
      && FlashInv(crc, t) && Unbroken(t) && NoneCut(t) && t.cfg == cfg
      && FileLog(t.files.items, t.nextId) == Inserted(ops))
  {
    StartInv(crc, cfg);
    StartPristine(cfg);
    assert NoneCut(StartFlash(cfg));
    assert FileLog(StartFlash(cfg).files.items, 1) == [] by { EmptyLastLog(StartFlash(cfg).files.items, 0); }
    assert StartFlash(cfg).nextId == 1 && Unbroken(StartFlash(cfg));
    assert [] + Inserted(ops) == Inserted(ops);
    hide StoreInv, CanRunFlash, RunFlash, Contents, StartFlash, SizeExact, NoneCut, Pristine, Unbroken, Inserted,
         NoEviction, FileLog;
    RunRefines(crc, StartFlash(cfg), ops);
    RunLog(crc, StartFlash(cfg), ops);
    RunNoneCut(crc, StartFlash(cfg), ops);
    RunKeepsCfg(crc, StartFlash(cfg), ops);
  }

  // ---------- In terms of the operations ----------

  /** The value that a key has now: the first one since it was last deleted. */
  function LiveValue(ops: seq<FlashOp>, k: Text, now: Option<Text>): Option<Text> {
    if ops == [] then now
    else LiveValue(ops[1..], k,
      match ops[0]
      case OpInsert(key, val, _) => if key == k && now.None? then Some(val) else now
      case OpDelete(key) => if key == k then None else now
      case _ => now)
  }

  function At(m: map<Text, Text>, k: Text): Option<Text> {
    if k in m then Some(m[k]) else None
  }

  lemma {:induction false} MapIsLive(crc: Checksum, m: map<Text, Text>, f: Flash, ops: seq<FlashOp>, k: Text)
    requires FlashInv(crc, f) && CanRunFlash(crc, f, ops) && NoEviction(ops)
    ensures At(RunMap(crc, m, f, ops), k) == LiveValue(ops, k, At(m, k))
    decreases |ops|
  {
    hide FlashInv, CanStep, Contents, StepFlash;
    if ops != [] {
      StepRefines(crc, f, ops[0]);
      MapIsLive(crc, StepMap(m, f, ops[0]), StepFlash(crc, f, ops[0]), ops[1..], k);
    }
  }

  // ---------- Restart after a run without file evictions ----------

  lemma FoundWhole(crc: Checksum, t: Flash, found: seq<Found>)
    requires FlashInv(crc, t) && Unbroken(t) && NoneCut(t) && FoundOn(t, found)
    ensures HoldsAll(t, DiskDir(t)) && found == DirOf(t, t.nextId) && DirOk(crc, found)
    ensures Log(found) == FileLog(t.files.items, t.nextId)
    ensures (t.cfg.buffered ==> t.cfg.w > 0) && FlashInv(crc, OpenDir(t.cfg, found))
    ensures NothingLost(OpenDir(t.cfg, found))
  {
    hide StoreInv, Contents, OpenDir, EncodeAll, NothingLost, RecordsOk, DirMatches, FoundOk, FileLog, Log, DirOf;
    assert HoldsAll(t, DiskDir(t));
    hide HoldsAll, DiskDir, Appended;
    HoldsAllFound(crc, t, DiskDir(t), found);
    FoundAreOk(crc, t, DiskDir(t), found);
    BufferSize(crc, t);
    OpenDirSafe(crc, t.cfg, found);
    LogOfDir(t, t.nextId);
  }

  /** After a restart a lookup finds the first record of the key in the files, whatever became of the index. */
  lemma ShowsFirst(crc: Checksum, t: Flash, found: seq<Found>, k: Text)
    requires FlashInv(crc, t) && Unbroken(t) && NoneCut(t) && FoundOn(t, found)
    ensures var u := OpenDir(t.cfg, found);
      && FlashInv(crc, u) && (k in u.index ==> InRange(u, k))
      && Lookup(u, crc, k) == At(Contents(u), k) == FirstOf(FileLog(t.files.items, t.nextId), k)
  {
    hide StoreInv, Contents, OpenDir, EncodeAll, NothingLost, DirOk, FoundOn, NoneCut, Unbroken, FirstOf, FileLog, Log,
         Lookup, InRange, HoldsAll, Retained;
    FoundWhole(crc, t, found);
    RestartShows(crc, t.cfg, found, k);
    var u := OpenDir(t.cfg, found);
    LookupRefines(crc, u, k);
    IndexInRange(crc, u);
    if k in u.index {
      NothingLostRetains(crc, u, k);
    }
  }

  /** After any run without file evictions, with all of every file on flash: a restart shows the first value ever
      inserted under each key, where before it was the first since the key was last deleted. */
  lemma RestartShowsFirst(crc: Checksum, cfg: Config, ops: seq<FlashOp>, found: seq<Found>, k: Text)
    requires cfg.buffered ==> cfg.w > 0
    requires (StartInv(crc, cfg); CanRunFlash(crc, StartFlash(cfg), ops)) && NoEviction(ops)
    requires (StartInv(crc, cfg); FoundOn(RunFlash(crc, StartFlash(cfg), ops), found))
    ensures (StartInv(crc, cfg); var t, u := RunFlash(crc, StartFlash(cfg), ops), OpenDir(cfg, found);
      && FlashInv(crc, u) && (k in u.index ==> InRange(u, k))
      && Lookup(u, crc, k) == At(Contents(u), k) == FirstOf(Inserted(ops), k)
      && At(Contents(t), k) == LiveValue(ops, k, None))
  {
    hide StoreInv, CanRunFlash, RunFlash, Contents, StartFlash, SizeExact, OpenDir, FoundOn, NoEviction, NoneCut,
         FirstOf, LiveValue, Lookup, InRange, RunMap, Inserted, Unbroken;
    StartInv(crc, cfg);
    UnbrokenRun(crc, cfg, ops);
    RunRefines(crc, StartFlash(cfg), ops);
    ShowsFirst(crc, RunFlash(crc, StartFlash(cfg), ops), found, k);
    MapIsLive(crc, map[], StartFlash(cfg), ops, k);
  }

  /** So a restart restores the contents if and only if for every key the two agree. */
  lemma RestartRestoresContents(crc: Checksum, cfg: Config, ops: seq<FlashOp>, found: seq<Found>)
    requires cfg.buffered ==> cfg.w > 0
    requires (StartInv(crc, cfg); CanRunFlash(crc, StartFlash(cfg), ops)) && NoEviction(ops)
    requires (StartInv(crc, cfg); FoundOn(RunFlash(crc, StartFlash(cfg), ops), found))
    ensures (StartInv(crc, cfg); var t, u := RunFlash(crc, StartFlash(cfg), ops), OpenDir(cfg, found);
      Contents(u) == Contents(t) <==> forall k :: FirstOf(Inserted(ops), k) == LiveValue(ops, k, None))
  {
    hide StoreInv, CanRunFlash, RunFlash, Contents, StartFlash, SizeExact, OpenDir, FoundOn, NoEviction,
         FirstOf, Inserted, LiveValue, Lookup, InRange;
    StartInv(crc, cfg);
    var t, u := RunFlash(crc, StartFlash(cfg), ops), OpenDir(cfg, found);
    forall k
      ensures At(Contents(u), k) == FirstOf(Inserted(ops), k) && At(Contents(t), k) == LiveValue(ops, k, None)
    {
      RestartShowsFirst(crc, cfg, ops, found, k);
    }
    MapsAgree(Contents(u), Contents(t));
    if Contents(u) != Contents(t) {
      var k :| At(Contents(u), k) != At(Contents(t), k);
      assert FirstOf(Inserted(ops), k) != LiveValue(ops, k, None);
    }
  }

  lemma MapsAgree(m: map<Text, Text>, n: map<Text, Text>)
    ensures m == n <==> forall k :: At(m, k) == At(n, k)
  {
    if forall k :: At(m, k) == At(n, k) {
      forall k
        ensures k in m <==> k in n
        ensures k in m ==> m[k] == n[k]
      {
        assert At(m, k) == At(n, k);
      }
    }
  }

  /** A deletion is not on flash: a key deleted and not inserted again is back, with its first value. */
  lemma RestartForgetsDelete(crc: Checksum, cfg: Config, ops: seq<FlashOp>, found: seq<Found>, key: Text)
    requires cfg.buffered ==> cfg.w > 0
    requires (StartInv(crc, cfg); CanRunFlash(crc, StartFlash(cfg), ops)) && NoEviction(ops)
    requires (StartInv(crc, cfg); FoundOn(RunFlash(crc, StartFlash(cfg), ops), found))
    requires LiveValue(ops, key, None) == None && FirstOf(Inserted(ops), key).Some?
    ensures (StartInv(crc, cfg); var t, u := RunFlash(crc, StartFlash(cfg), ops), OpenDir(cfg, found);
      key !in Contents(t) && key in Contents(u) && Contents(u)[key] == FirstOf(Inserted(ops), key).value)
  {
    hide StoreInv, CanRunFlash, RunFlash, Contents, StartFlash, SizeExact, OpenDir, FoundOn, NoEviction,
         FirstOf, Inserted, LiveValue, Lookup, InRange;
    RestartShowsFirst(crc, cfg, ops, found, key);
  }

  // ---------- Evictions ----------

  /** The directory lists the live files, each once and in any order, with all their bytes. */
  ghost predicate ListsLive(f: Flash, dir: seq<(nat, seq<byte>)>, all: seq<seq<Record>>) {
    && |dir| == |all|
    && (forall i, j :: 0 <= i < j < |dir| ==> dir[i].0 != dir[j].0)
    && (forall i :: 0 <= i < |dir| ==>
          && dir[i].0 in f.files.items && !f.files.items[dir[i].0].cut
          && dir[i].1 == f.files.items[dir[i].0].disk == f.files.items[dir[i].0].Stream()
          && all[i] == f.files.items[dir[i].0].recs)
    && (forall id :: id in f.files.items ==> exists i :: 0 <= i < |dir| && dir[i].0 == id)
  }

  /** Some file other than v has a record of the key. */
  ghost predicate HeldBeside(f: Flash, v: Option<nat>, k: Text) {
    exists id :: id in f.files.items && Some(id) != v && k in KeySet(f.files.items[id])
  }

  lemma FoundLive(crc: Checksum, f: Flash, dir: seq<(nat, seq<byte>)>, all: seq<seq<Record>>, found: seq<Found>, i: nat)
    requires FlashInv(crc, f) && ListsLive(f, dir, all) && DirMatches(dir, all, found) && i < |found|
    ensures found[i].id in f.files.items && found[i].recs == f.files.items[found[i].id].recs
  {
    hide FlashInv, EncodeAll, Scanned, RecordsOk;
    FileRecords(crc, f, dir[i].0);
    ScannedAll(crc, all[i], found[i].recs);
  }

  lemma KeysFound(e: Found, s: FileState, k: Text)
    requires e.recs == s.recs
    ensures InFile(e, k) <==> k in KeySet(s)
  {
    if k in KeySet(s) {
      var j :| 0 <= j < |s.recs| && KeysOf(s.recs)[j] == k;
      assert e.recs[j].key == k;
    }
    if InFile(e, k) {
      var j :| 0 <= j < |e.recs| && e.recs[j].key == k;
      assert KeysOf(s.recs)[j] == k;
    }
  }

  /** After a restart over the live files, in any order, a key is known exactly if one of them has a record of it. */
  lemma RestartKnowsLive(crc: Checksum, f: Flash, dir: seq<(nat, seq<byte>)>, all: seq<seq<Record>>, found: seq<Found>,
                         k: Text)
    requires FlashInv(crc, f) && ListsLive(f, dir, all) && DirMatches(dir, all, found)
    ensures k in OpenDir(f.cfg, found).index <==> HeldBeside(f, None, k)
  {
    hide FlashInv, EncodeAll, Scanned, KeySet, InFile, OpenDir;
    RestartKnows(f.cfg, found, k);
    forall i | 0 <= i < |found|
      ensures found[i].id == dir[i].0 && dir[i].0 in f.files.items
      ensures InFile(found[i], k) <==> k in KeySet(f.files.items[found[i].id])
    {
      FoundLive(crc, f, dir, all, found, i);
      KeysFound(found[i], f.files.items[found[i].id], k);
    }
    if id :| id in f.files.items && k in KeySet(f.files.items[id]) {
      var i :| 0 <= i < |dir| && dir[i].0 == id;
      assert InFile(found[i], k);
    }
  }

  /** Evicting a file erases every key it lists, also one that is indexed in a newer file; after a restart exactly
      those that another file holds are back. */
  lemma EvictedIsBack(crc: Checksum, f: Flash, dir: seq<(nat, seq<byte>)>, all: seq<seq<Record>>, found: seq<Found>,
                      k: Text)
    requires FlashInv(crc, f) && f.files.order != [] && Oldest(f.files) != f.cur
    requires Oldest(f.files) in f.files.items && k in KeySet(f.files.items[Oldest(f.files)])
    requires ListsLive(EvictOne(f), dir, all) && DirMatches(dir, all, found)
    ensures k !in EvictOne(f).index
    ensures k in OpenDir(f.cfg, found).index <==> HeldBeside(f, Some(Oldest(f.files)), k)
  {
    hide StoreInv, EncodeAll, KeySet, OpenDir, ListsLive, DirMatches, Contents;
    EvictOneRefines(crc, f);
    RestartKnowsLive(crc, EvictOne(f), dir, all, found, k);
    var g, v := EvictOne(f), Oldest(f.files);
    assert g.files.items == f.files.items - {v};
    if HeldBeside(f, Some(v), k) {
      var id :| id in f.files.items && Some(id) != Some(v) && k in KeySet(f.files.items[id]);
      assert id in g.files.items && k in KeySet(g.files.items[id]);
    }
  }

  // ---------- Any run ----------

  /** Where an insert puts its entry. */
  ghost function StepPlaces(crc: Checksum, f: Flash, op: FlashOp): seq<(nat, (Text, Text))>
    requires FlashInv(crc, f)
  {
    if op.OpInsert? then [(if f.files.items[f.cur].eof then f.nextId else f.cur, (op.key, op.val))] else []
  }

  /** All that a run inserts, in order, each with its file. */
  ghost function RunPlaces(crc: Checksum, f: Flash, ops: seq<FlashOp>): seq<(nat, (Text, Text))>
    requires FlashInv(crc, f) && CanRunFlash(crc, f, ops)
    decreases |ops|
  {
    if ops == [] then []
    else StepRefines(crc, f, ops[0]);
         StepPlaces(crc, f, ops[0]) + RunPlaces(crc, StepFlash(crc, f, ops[0]), ops[1..])
  }

  /** What was put into one file. */
  function OfFile(places: seq<(nat, (Text, Text))>, id: nat): seq<(Text, Text)> {
    if places == [] then [] else (if places[0].0 == id then [places[0].1] else []) + OfFile(places[1..], id)
  }

  lemma {:induction false} OfFileJoin(a: seq<(nat, (Text, Text))>, b: seq<(nat, (Text, Text))>, id: nat)
    ensures OfFile(a + b, id) == OfFile(a, id) + OfFile(b, id)
  {
    if a == [] {
      assert a + b == b;
    } else {
      OfFileJoin(a[1..], b, id);
      assert (a + b)[0] == a[0] && (a + b)[1..] == a[1..] + b;
      var first := if a[0].0 == id then [a[0].1] else [];
      assert first + (OfFile(a[1..], id) + OfFile(b, id)) == first + OfFile(a[1..], id) + OfFile(b, id);
    }
  }

  lemma {:induction false} OfNoFile(places: seq<(nat, (Text, Text))>, id: nat)
    requires forall i :: 0 <= i < |places| ==> places[i].0 != id
    ensures OfFile(places, id) == []
  {
    if places != [] {
      OfNoFile(places[1..], id);
    }
  }

  /** Every live file holds exactly what was put into it. */
  ghost predicate FilesHold(f: Flash, places: seq<(nat, (Text, Text))>) {
    && (forall i :: 0 <= i < |places| ==> places[i].0 < f.nextId)
    && (forall id :: id in f.files.items ==> Entries(f.files.items[id].recs) == OfFile(places, id))
  }

  lemma RolledHolds(crc: Checksum, f: Flash, places: seq<(nat, (Text, Text))>)
    requires FlashInv(crc, f) && FilesHold(f, places)
    ensures FilesHold(Rolled(f), places)
    ensures Rolled(f).cur == if f.files.items[f.cur].eof then f.nextId else f.cur
    ensures Rolled(f).cur < Rolled(f).nextId
  {
    hide EncodeAll, OfFile;
    NewCacheFileKeeps(crc, f);
    OfNoFile(places, f.nextId);
    AllBelow(crc, f);
    hide StoreInv;
  }

  lemma InsertRecordHolds(f: Flash, r: Record, whole: bool, places: seq<(nat, (Text, Text))>)
    requires FilesHold(f, places) && f.cur in f.files.items && f.cur < f.nextId
    requires f.files.items[f.cur].buffered ==> f.files.items[f.cur].w > 0
    ensures FilesHold(InsertRecord(f, r, whole), places + [(f.cur, (r.key, r.val))])
  {
    hide Address, EncodeAll, Taken, IndexInsert, Serialize, OfFile;
    var s, g := f.files.items[f.cur], InsertRecord(f, r, whole);
    var more := [(f.cur, (r.key, r.val))];
    TakenRecs(s, r, whole);
    assert Entries(s.recs + [r]) == Entries(s.recs) + [(r.key, r.val)];
    forall id | id in g.files.items
      ensures Entries(g.files.items[id].recs) == OfFile(places + more, id)
    {
      OfFileJoin(places, more, id);
      OfOne(f.cur, (r.key, r.val), id);
    }
  }

  lemma OfOne(at: nat, e: (Text, Text), id: nat)
    ensures OfFile([(at, e)], id) == if at == id then [e] else []
  {
    assert [(at, e)][1..] == [];
  }

  lemma InsertHolds(crc: Checksum, f: Flash, key: Text, val: Text, whole: bool, places: seq<(nat, (Text, Text))>)
    requires FlashInv(crc, f) && FilesHold(f, places) && Storable(key, val) && CurIdle(f)
    ensures FilesHold(Insert(f, crc, key, val, whole),
                      places + [(if f.files.items[f.cur].eof then f.nextId else f.cur, (key, val))])
  {
    RolledIsOpen(crc, f);
    RolledHolds(crc, f, places);
    OpenHasBuffers(crc, Rolled(f));
    InsertRecordHolds(Rolled(f), MakeRecord(crc, key, val), whole, places);
    hide FlashInv, FilesHold, Serialize, InsertRecord, Rolled, Contents;
  }

  /** Steps that add no record change nothing of this. */
  lemma SameRecordsHold(f: Flash, g: Flash, places: seq<(nat, (Text, Text))>)
    requires FilesHold(f, places) && g.nextId == f.nextId
    requires forall id :: id in g.files.items ==>
               id in f.files.items && g.files.items[id].recs == f.files.items[id].recs
    ensures FilesHold(g, places)
  {
    hide Entries, OfFile;
  }

  lemma StepHolds(crc: Checksum, f: Flash, op: FlashOp, places: seq<(nat, (Text, Text))>)
    requires FlashInv(crc, f) && CanStep(f, op) && FilesHold(f, places)
    ensures FilesHold(StepFlash(crc, f, op), places + StepPlaces(crc, f, op))
  {
    hide StoreInv, Insert, EncodeAll, FilesHold, KeySet, Apply, Enabled;
    assert places + [] == places;
    match op
    case OpInsert(key, val, whole) => InsertHolds(crc, f, key, val, whole, places);
    case OpLookup(key) => SameRecordsHold(f, Looked(f, key), places);
    case OpDelete(key) => SameRecordsHold(f, DeleteKey(f, key), places);
    case OpFile(id, step) =>
      ApplyAdds(f.files.items[id], step);
      SameRecordsHold(f, FileStep(f, id, step), places);
    case OpEvict => SameRecordsHold(f, EvictOne(f), places);
  }

  lemma {:induction false} RunHolds(crc: Checksum, f: Flash, ops: seq<FlashOp>, places: seq<(nat, (Text, Text))>)
    requires FlashInv(crc, f) && CanRunFlash(crc, f, ops) && FilesHold(f, places)
    ensures FilesHold(RunFlash(crc, f, ops), places + RunPlaces(crc, f, ops))
    decreases |ops|
  {
    hide FlashInv, FilesHold, CanStep, Contents, StepPlaces, StepFlash;
    if ops == [] {
      assert places + RunPlaces(crc, f, ops) == places;
    } else {
      StepRefines(crc, f, ops[0]);
      StepHolds(crc, f, ops[0], places);
      RunHolds(crc, StepFlash(crc, f, ops[0]), ops[1..], places + StepPlaces(crc, f, ops[0]));
      assert places + StepPlaces(crc, f, ops[0]) + RunPlaces(crc, StepFlash(crc, f, ops[0]), ops[1..])
          == places + RunPlaces(crc, f, ops);
    }
  }

  /** What was put into the files of a directory, file after file. */
  function InOrder(places: seq<(nat, (Text, Text))>, dir: seq<(nat, seq<byte>)>): seq<(Text, Text)> {
    if dir == [] then [] else InOrder(places, dir[..|dir| - 1]) + OfFile(places, dir[|dir| - 1].0)
  }

  /** A file that was found whole reads as it was written. */
  ghost predicate FoundAs(places: seq<(nat, (Text, Text))>, d: (nat, seq<byte>), e: Found) {
    Readable(e) == OfFile(places, d.0)
  }

  lemma {:induction false} LogInOrder(places: seq<(nat, (Text, Text))>, dir: seq<(nat, seq<byte>)>, found: seq<Found>)
    requires |dir| == |found| && forall i :: 0 <= i < |dir| ==> FoundAs(places, dir[i], found[i])
    ensures Log(found) == InOrder(places, dir)
    decreases |dir|
  {
    hide Readable, OfFile;
    if dir != [] {
      var n := |dir| - 1;
      assert forall i :: 0 <= i < n ==> dir[..n][i] == dir[i] && found[..n][i] == found[i];
      LogInOrder(places, dir[..n], found[..n]);
      assert FoundAs(places, dir[n], found[n]);
    }
  }

  lemma LiveFound(crc: Checksum, t: Flash, places: seq<(nat, (Text, Text))>, dir: seq<(nat, seq<byte>)>,
                  all: seq<seq<Record>>, found: seq<Found>, i: nat)
    requires FlashInv(crc, t) && FilesHold(t, places) && ListsLive(t, dir, all) && DirMatches(dir, all, found)
    requires i < |found|
    ensures FoundOk(crc, found[i]) && FoundAs(places, dir[i], found[i]) && found[i].id == dir[i].0
  {
    hide FlashInv, EncodeAll, OfFile, RecordsOk, Scanned;
    FoundLive(crc, t, dir, all, found, i);
    FileRecords(crc, t, dir[i].0);
    WholeFound(found[i]);
  }

  lemma WholeFound(e: Found)
    requires e.bytes == EncodeAll(e.recs)
    ensures Readable(e) == Entries(e.recs)
  {
  }

  /** A restart over the live files of a cache, in any order, shows what was put into them, in that order. */
  lemma LiveShows(crc: Checksum, t: Flash, places: seq<(nat, (Text, Text))>, dir: seq<(nat, seq<byte>)>,
                  all: seq<seq<Record>>, found: seq<Found>, k: Text)
    requires FlashInv(crc, t) && FilesHold(t, places) && ListsLive(t, dir, all) && DirMatches(dir, all, found)
    ensures var u := OpenDir(t.cfg, found);
      && FlashInv(crc, u) && (k in u.index ==> InRange(u, k))
      && Lookup(u, crc, k) == FirstOf(InOrder(places, dir), k)
  {
    hide FlashInv, OpenDir, FirstOf, Lookup, InRange, InOrder, FilesHold, FoundOk, FoundAs, Scanned;
    BufferSize(crc, t);
    forall i | 0 <= i < |found|
      ensures FoundOk(crc, found[i]) && FoundAs(places, dir[i], found[i]) && found[i].id == dir[i].0
    {
      LiveFound(crc, t, places, dir, all, found, i);
    }
    LogInOrder(places, dir, found);
    RestartShows(crc, t.cfg, found, k);
  }

  lemma StartHolds(cfg: Config)
    ensures FilesHold(StartFlash(cfg), []) && StartFlash(cfg).cfg == cfg
  {
  }

  /** After any run from an empty directory, file evictions included, and with the live files on flash and read in any
      order: a lookup finds the first value that was put under the key into these files, in that order. */
  lemma AnyRestartShows(crc: Checksum, cfg: Config, ops: seq<FlashOp>, dir: seq<(nat, seq<byte>)>,
                        all: seq<seq<Record>>, found: seq<Found>, k: Text)
    requires cfg.buffered ==> cfg.w > 0
    requires (StartInv(crc, cfg); CanRunFlash(crc, StartFlash(cfg), ops))
    requires (StartInv(crc, cfg); ListsLive(RunFlash(crc, StartFlash(cfg), ops), dir, all))
    requires DirMatches(dir, all, found)
    ensures (StartInv(crc, cfg); var u, places := OpenDir(cfg, found), RunPlaces(crc, StartFlash(cfg), ops);
      && FlashInv(crc, u) && (k in u.index ==> InRange(u, k))
      && Lookup(u, crc, k) == FirstOf(InOrder(places, dir), k))
  {
    hide StoreInv, CanRunFlash, RunFlash, Contents, StartFlash, SizeExact, OpenDir, FirstOf, Lookup, InRange, InOrder,
         RunPlaces, FilesHold, ListsLive, DirMatches;
    StartInv(crc, cfg);
    StartHolds(cfg);
    RunRefines(crc, StartFlash(cfg), ops);
    RunKeepsCfg(crc, StartFlash(cfg), ops);
    RunHolds(crc, StartFlash(cfg), ops, []);
    var places := RunPlaces(crc, StartFlash(cfg), ops);
    assert [] + places == places;
    LiveShows(crc, RunFlash(crc, StartFlash(cfg), ops), places, dir, all, found, k);
  }
}
