/** From one run to the next: what a restart over the bytes on flash restores. */
module Restart {
  import opened Bytes
  import opened CacheRecord
  import opened Layout
  import opened FileSpec
  import opened Scan
  import opened FlashSpec
  import opened FlashRefinement
  import opened FlashRuns
  import opened Recovery
  import opened FileLoss
  import opened NoLoss

  // ---------- The directory that a run leaves ----------

  /** The bytes on flash, file by file in order of id. */
  ghost function DiskDir(f: Flash): (dir: seq<(nat, seq<byte>)>)
    ensures |dir| == f.nextId
    ensures forall id :: 0 <= id < f.nextId ==>
              dir[id] == (id, if id in f.files.items then f.files.items[id].disk else [])
  {
    seq(f.nextId, id requires 0 <= id => (id, if id in f.files.items then f.files.items[id].disk else []))
  }

  /** What had been appended to the files. */
  ghost function Appended(f: Flash): (all: seq<seq<Record>>)
    ensures |all| == f.nextId
    ensures forall id :: 0 <= id < f.nextId ==> all[id] == if id in f.files.items then f.files.items[id].recs else []
  {
    seq(f.nextId, id requires 0 <= id => if id in f.files.items then f.files.items[id].recs else [])
  }

  /** The directory holds all of every file. */
  ghost predicate HoldsAll(f: Flash, dir: seq<(nat, seq<byte>)>) {
    && |dir| == f.nextId
    && (forall id :: 0 <= id < f.nextId ==>
          id in f.files.items && !f.files.items[id].cut && dir[id] == (id, f.files.items[id].Stream()))
  }

  lemma FileRecords(crc: Checksum, f: Flash, id: nat)
    requires FlashInv(crc, f) && id in f.files.items && !f.files.items[id].cut
    ensures RecordsOk(crc, f.files.items[id].recs)
  {
  }

  lemma WholeSizesFit(crc: Checksum, all: seq<Record>)
    requires RecordsOk(crc, all)
    ensures SizesFit(all, EncodeAll(all))
  {
    hide EncodeAll, Offset, Serialize, RecordsOk, HeaderAt, HeaderBytes, BytesAt, HeaderSeen;
    AllOffset(all);
    forall i | 0 <= i < |all| && Offset(all, i) < |EncodeAll(all)|
      ensures HeaderSeen(all, EncodeAll(all), i).keySize + HeaderSeen(all, EncodeAll(all), i).valSize + HEADER_SIZE
              < TWO_TO_THE_32
    {
      OffsetMonotone(all, i + 1, |all|);
      WholeStep(crc, all, EncodeAll(all), i);
      SeenIs(all, EncodeAll(all), i);
      OverlayFull(HeaderBefore(all, i), HeaderBytes(all[i].hdr));
    }
  }

  /** Open may be called on such a directory, as far as its files are below 4 GB. */
  lemma HoldsAllReady(crc: Checksum, f: Flash, dir: seq<(nat, seq<byte>)>)
    requires FlashInv(crc, f) && HoldsAll(f, dir) && forall i :: 0 <= i < |dir| ==> |dir[i].1| < TWO_TO_THE_32
    ensures DirReady(crc, dir, Appended(f))
  {
    hide FlashInv, EncodeAll, SizesFit, RecordsOk;
    forall i | 0 <= i < |dir|
      ensures RecordsOk(crc, Appended(f)[i]) && SizesFit(Appended(f)[i], dir[i].1)
    {
      FileRecords(crc, f, i);
      WholeSizesFit(crc, Appended(f)[i]);
    }
  }

  /** And finds exactly the files as they were. */
  lemma HoldsAllFound(crc: Checksum, f: Flash, dir: seq<(nat, seq<byte>)>, found: seq<Found>)
    requires FlashInv(crc, f) && HoldsAll(f, dir) && DirMatches(dir, Appended(f), found)
    ensures found == DirOf(f, f.nextId)
  {
    hide FlashInv, EncodeAll, Scanned, RecordsOk;
    forall i | 0 <= i < |dir|
      ensures found[i] == DirOf(f, f.nextId)[i]
    {
      FileRecords(crc, f, i);
      ScannedAll(crc, Appended(f)[i], found[i].recs);
    }
  }

  /** If nothing was deleted or evicted, the restarted cache is as the one before, with nothing lost. */
  lemma RestoredFrom(crc: Checksum, t: Flash, dir: seq<(nat, seq<byte>)>, found: seq<Found>)
    requires FlashInv(crc, t) && Pristine(t) && HoldsAll(t, dir) && DirMatches(dir, Appended(t), found)
    ensures var u := OpenDir(t.cfg, found);
      && u.index == t.index && Contents(u) == Contents(t) && u.cur == t.nextId
      && FlashInv(crc, u) && NothingLost(u)
  {
    hide StoreInv, Contents, IndexAll, OpenDir, EncodeAll, NothingLost, HoldsAll, Pristine, RecordsOk;
    HoldsAllFound(crc, t, dir, found);
    PristineRestored(crc, t);
    FoundAreOk(crc, t, dir, found);
    BufferSize(crc, t);
    OpenDirSafe(crc, t.cfg, found);
  }

  lemma FoundAreOk(crc: Checksum, t: Flash, dir: seq<(nat, seq<byte>)>, found: seq<Found>)
    requires FlashInv(crc, t) && HoldsAll(t, dir) && found == DirOf(t, t.nextId)
    ensures DirOk(crc, found) && forall i :: 0 <= i < |found| ==> found[i].bytes == EncodeAll(found[i].recs)
  {
    hide FlashInv, EncodeAll, RecordsOk;
    forall i | 0 <= i < |found|
      ensures RecordsOk(crc, found[i].recs)
    {
      FileRecords(crc, t, i);
    }
  }

  lemma BufferSize(crc: Checksum, t: Flash)
    requires FlashInv(crc, t)
    ensures t.cfg.buffered ==> t.cfg.w > 0
  {
  }

  // ---------- Restart after a run of the flash cache ----------

  lemma {:induction false} RunNoneCut(crc: Checksum, f: Flash, ops: seq<FlashOp>)
    requires FlashInv(crc, f) && CanRunFlash(crc, f, ops) && NoneCut(f)
    ensures NoneCut(RunFlash(crc, f, ops))
    decreases |ops|
  {
    hide FlashInv, NoneCut, CanStep, Contents;
    if ops != [] {
      StepRefines(crc, f, ops[0]);
      StepNoneCut(crc, f, ops[0]);
      RunNoneCut(crc, StepFlash(crc, f, ops[0]), ops[1..]);
    }
  }

  // ---------- Nothing deleted ----------

  /** All of every file is on flash, and `found` is what the scan of a start-up may find there. */
  ghost predicate FoundOn(t: Flash, found: seq<Found>) {
    && (forall id :: id in t.files.items ==> t.files.items[id].disk == t.files.items[id].Stream())
    && DirMatches(DiskDir(t), Appended(t), found)
  }

  /** What holds after a run of inserts, lookups and file steps from an empty directory. */
  lemma KeepingRun(crc: Checksum, cfg: Config, ops: seq<FlashOp>)
    requires cfg.buffered ==> cfg.w > 0
    requires (StartInv(crc, cfg); CanRunFlash(crc, StartFlash(cfg), ops))
    requires forall i :: 0 <= i < |ops| ==> Keeping(ops[i])
    ensures (StartInv(crc, cfg);
      var t := RunFlash(crc, StartFlash(cfg), ops);
      FlashInv(crc, t) && Pristine(t) && NoneCut(t) && t.cfg == cfg)
  {
    StartInv(crc, cfg);
    StartPristine(cfg);
    assert NoneCut(StartFlash(cfg));
    hide StoreInv, CanRunFlash, RunFlash, Contents, IndexAll, StartFlash, SizeExact, NoneCut, Pristine, Keeping;
    RunRefines(crc, StartFlash(cfg), ops);
    RunPristine(crc, StartFlash(cfg), ops);
    RunNoneCut(crc, StartFlash(cfg), ops);
    RunKeepsCfg(crc, StartFlash(cfg), ops);
  }

  /** After any run of inserts, lookups and file steps from an empty directory: if all of every file is
      on flash, a restart over these bytes restores exactly the index and the contents, whatever the
      scan meets with, and new files get ids never used before. */
  lemma RestartRestoresIndex(crc: Checksum, cfg: Config, ops: seq<FlashOp>, found: seq<Found>)
    requires cfg.buffered ==> cfg.w > 0
    requires (StartInv(crc, cfg); CanRunFlash(crc, StartFlash(cfg), ops))
    requires forall i :: 0 <= i < |ops| ==> Keeping(ops[i])
    requires (StartInv(crc, cfg); FoundOn(RunFlash(crc, StartFlash(cfg), ops), found))
    ensures (StartInv(crc, cfg); var t, u := RunFlash(crc, StartFlash(cfg), ops), OpenDir(cfg, found);
      && u.index == t.index && Contents(u) == Contents(t) && u.cur == t.nextId
      && ((forall i :: 0 <= i < |DiskDir(t)| ==> |DiskDir(t)[i].1| < TWO_TO_THE_32) ==>
            DirReady(crc, DiskDir(t), Appended(t))))
  {
    KeepingRun(crc, cfg, ops);
    hide StoreInv, CanRunFlash, RunFlash, Contents, IndexAll, StartFlash, SizeExact, OpenDir, EncodeAll, DirMatches,
         DirReady, Keeping, NoneCut;
    StartInv(crc, cfg);
    var t := RunFlash(crc, StartFlash(cfg), ops);
    DrainedHoldsAll(t);
    hide DiskDir, Appended, HoldsAll, Pristine;
    RestoredFrom(crc, t, DiskDir(t), found);
    if forall i :: 0 <= i < |DiskDir(t)| ==> |DiskDir(t)[i].1| < TWO_TO_THE_32 {
      HoldsAllReady(crc, t, DiskDir(t));
    }
  }

  lemma DrainedHoldsAll(t: Flash)
    requires Pristine(t) && NoneCut(t)
    requires forall id :: id in t.files.items ==> t.files.items[id].disk == t.files.items[id].Stream()
    ensures HoldsAll(t, DiskDir(t))
  {
    hide EncodeAll, IndexAll;
  }

  // ---------- Closing ----------

  /** Every file with a writer has been closed: the writer has exited. */
  ghost predicate AllClosed(f: Flash) {
    forall id :: id in f.files.items && f.files.items[id].buffered ==> f.files.items[id].pc.Exited?
  }

  /** A closed file that is intact is on flash. */
  lemma ClosedIsWhole(s: FileState)
    requires FileInv(s) && Intact(s) && (s.buffered ==> s.pc.Exited?)
    ensures s.disk == s.Stream()
  {
  }

  lemma ClosedAreWhole(crc: Checksum, t: Flash)
    requires FlashInv(crc, t) && AllIntact(t) && AllClosed(t)
    ensures forall id :: id in t.files.items ==> t.files.items[id].disk == t.files.items[id].Stream()
  {
    hide StoreInv, Intact, EncodeAll;
    forall id | id in t.files.items
      ensures t.files.items[id].disk == t.files.items[id].Stream()
    {
      FileOkInv(crc, t, id);
      ClosedIsWhole(t.files.items[id]);
    }
  }

  /** After any such run whose filling appends and closings were safe, and which ends with all files closed, a restart
      restores the index and the contents. */
  lemma CloseAndRestart(crc: Checksum, cfg: Config, ops: seq<FlashOp>, found: seq<Found>)
    requires cfg.buffered ==> cfg.w > 0
    requires (StartInv(crc, cfg); CanRunFlash(crc, StartFlash(cfg), ops) && SafeFlashRun(crc, StartFlash(cfg), ops))
    requires forall i :: 0 <= i < |ops| ==> Keeping(ops[i])
    requires (StartInv(crc, cfg); var t := RunFlash(crc, StartFlash(cfg), ops);
      AllClosed(t) && DirMatches(DiskDir(t), Appended(t), found))
    ensures (StartInv(crc, cfg); var t, u := RunFlash(crc, StartFlash(cfg), ops), OpenDir(cfg, found);
      u.index == t.index && Contents(u) == Contents(t))
  {
    StartInv(crc, cfg);
    StartIntact(cfg);
    hide StoreInv, CanRunFlash, RunFlash, Contents, StartFlash, SizeExact, OpenDir, DirMatches, SafeFlashRun, Keeping,
         AllIntact, AllClosed, EncodeAll, DiskDir, Appended, DirReady;
    RunRefines(crc, StartFlash(cfg), ops);
    RunIntact(crc, StartFlash(cfg), ops);
    ClosedAreWhole(crc, RunFlash(crc, StartFlash(cfg), ops));
    RestartRestoresIndex(crc, cfg, ops, found);
  }
}
