/** A cache file: its write buffers, its writer and the file on flash; and the metadata index. */
module CacheFile {
  import opened Arith
  import opened Bytes
  import opened CacheRecord
  import opened Layout
  import opened FileSpec
  import opened FileRuns
  import opened FileReads
  import opened Lru
  import opened Scan
  import opened WriteBuffer

  lemma LastNotBefore<K, V>(c: LruState<K, V>)
    requires LruInv(c) && c.order != []
    ensures Oldest(c) !in LruEvict(c).order
  {
  }

  /** The offset behind the record does not wrap at 32 bits. */
  predicate OffsetFits(s: FileState, key: Text, val: Text) {
    s.eof || |s.Stream()| + RecordSize(key, val) < TWO_TO_THE_32
  }

  /** It never does if a record fits behind the largest file that still takes one. */
  lemma MaxSizeFits(s: FileState, key: Text, val: Text)
    requires FileInv(s) && s.stage.Idle? && Storable(key, val) && s.maxSize + RecordSize(key, val) <= TWO_TO_THE_32
    ensures OffsetFits(s, key, val)
  {
  }

  class Metadata {
    var blockIndex: map<Text, LBA>
    const fileIndex: LruCache<nat, WriteableCacheFile>

    constructor ()
      ensures blockIndex == map[] && fresh(fileIndex)
      ensures fileIndex.Valid() && fileIndex.Abs() == LruState([], map[])
    {
      blockIndex := map[];
      fileIndex := new LruCache();
    }

    method InsertKey(key: Text, lba: LBA)
      modifies this
      ensures blockIndex == IndexInsert(old(blockIndex), key, lba)
    {
      if key !in blockIndex {
        blockIndex := blockIndex[key := lba];
      }
    }

    function LookupKey(key: Text): Option<LBA>
      reads this
    {
      if key in blockIndex then Some(blockIndex[key]) else None
    }

    /** Take the least recent file out of the index: evict takes it off the list, erase out of the map. */
    method Evict() returns (file: WriteableCacheFile)
      requires fileIndex.Valid() && fileIndex.list != []
      requires var c := fileIndex.Abs(); Oldest(c) in c.items && c.items[Oldest(c)].cacheId == Oldest(c)
      modifies fileIndex
      ensures fileIndex.Valid()
      ensures var c := old(fileIndex.Abs());
        file == c.items[Oldest(c)] && fileIndex.Abs() == LruErase(LruEvict(c), Oldest(c))
    {
      fileIndex.ValidAbs();
      LastNotBefore(fileIndex.Abs());
      hide Linked, LruInv;
      file := fileIndex.Evict();
      fileIndex.Erase(file.cacheId);
    }

    method Erase(key: Text)
      modifies this
      ensures blockIndex == old(blockIndex) - {key}
    {
      blockIndex := blockIndex - {key};
    }
  }

  class WriteableCacheFile {
    const crc: Checksum
    const cacheId: nat
    const maxSize: uint32
    const w: uint32
    const buffered: bool

    var filesize: uint32
    var keyLists: seq<Text>
    var eof: bool
    var diskWoff: uint32
    var bufs: seq<CacheWriteBuffer>
    var woff: nat
    var doff: nat
    var running: bool

    var disk: seq<byte>  // the bytes of the file itself
    var sem: nat         // the writer's semaphore
    var pc: WriterPc     // the writer thread
    var joinable: bool   // whether there is one to wait for

    ghost var recs: seq<Record>  // the records appended so far
    ghost var cut: bool          // found at start-up, and ending inside a record

    ghost function Abs(): FileState
      reads this
    {
      FileState(cacheId, maxSize, w, buffered, cut, recs, disk, eof, woff, doff, running, sem, pc, Idle)
    }

    ghost function Repr(): set<object>
      reads this
    {
      {this} + Footprint(bufs)
    }

    /** Buffers exist until the writer exits, and then exactly as many as the stream fills. */
    ghost predicate BufsOk()
      reads this, Footprint(bufs)
    {
      if buffered && w > 0 && !pc.Exited? then
        Hold(bufs, w, EncodeAll(recs)) && |bufs| == NumBufs(|EncodeAll(recs)|, w)
      else bufs == []
    }

    /** The plain fields agree with the appended records. */
    ghost predicate FieldsOk()
      reads this
    {
      && FileInv(Abs()) && RecordsSound(crc, recs, cut) && keyLists == KeysOf(recs)
      && filesize == |disk| && (joinable || pc.Exited?)
      && (Reopened(Abs()) || diskWoff == |EncodeAll(recs)|)
      && (buffered && !Reopened(Abs()) ==> w > 0)
    }

    ghost predicate Valid()
      reads this, Footprint(bufs)
    {
      FieldsOk() && BufsOk()
    }

    /** Create: an empty file whose writer waits. */
    constructor Create(crc: Checksum, cacheId: nat, maxSize: uint32, w: uint32, buffered: bool)
      requires buffered ==> w > 0
      ensures Valid() && fresh(Repr()) && this in Repr()
      ensures this.crc == crc && this.cacheId == cacheId && Abs() == FreshFile(cacheId, maxSize, w, buffered)
    {
      this.crc, this.cacheId, this.maxSize, this.w, this.buffered := crc, cacheId, maxSize, w, buffered;
      filesize, keyLists, eof, diskWoff, bufs, woff, doff, running := 0, [], false, 0, [], 0, 0, false;
      disk, sem, pc, joinable, recs, cut := [], 0, Waiting, true, [], false;
    }

    /** Make room for size more bytes: count the free space from woff on, and push buffers if it is short. */
    method ExpandBuffer(size: nat)
      requires size > 0 && w > 0 && Hold(bufs, w, EncodeAll(recs)) && woff == Full(|EncodeAll(recs)|, w)
      requires |bufs| == NumBufs(|EncodeAll(recs)|, w)
      modifies this`bufs
      ensures Hold(bufs, w, EncodeAll(recs)) && |bufs| == NumBufs(|EncodeAll(recs)| + size, w)
      ensures fresh(Footprint(bufs) - old(Footprint(bufs)))
    {
      hide Segment, EncodeAll, Hold, Full;
      ghost var stream := EncodeAll(recs);
      var free, enough := CountFree(bufs, w, woff, size, stream);
      assert Footprint(bufs) == old(Footprint(bufs));
      assert Hold(bufs, w, stream);
      if enough {
        NumBufsBounds(|stream|, w);
        CoverUnique(|stream| + size, w, |bufs|);
        return;
      }
      ghost var more;
      bufs, more := GrowBuffers(bufs, w, size, free, stream);
      FootprintConcat(old(bufs), more);
    }

    /** Start the writer, unless it runs, or has no full buffer to write yet. */
    method DispatchBuffer()
      modifies this`woff, this`sem, this`running
      ensures Abs() == Dispatch(old(Abs()))
      ensures buffered && w > 0 && old(BufferInv(Abs().(stage := Testing))) ==>
                var wakes := !old(running) && (eof || |disk| + w <= |EncodeAll(recs)|);
                && sem == old(sem) + (if wakes then 1 else 0) && running == (old(running) || wakes)
                && woff == old(woff) + (if wakes && eof then 1 else 0)
    {
      if buffered && w > 0 && BufferInv(Abs().(stage := Testing)) {
        DispatchTest(Abs().(stage := Testing));
      }
      hide BufferInv, EncodeAll;
      if running {
        return;
      }
      if !eof && doff == woff {
        return;
      }
      if eof {
        woff := woff + 1;
      }
      sem := sem + 1;
      running := true;
    }

    /** write(2) may take fewer bytes than asked for; keep calling until all are out. */
    method WriteAll(src: seq<byte>)
      modifies this`disk
      ensures disk == old(disk) + src
    {
      var p := 0;
      assert disk == old(disk) + src[..p];
      while p < |src|
        invariant p <= |src| && disk == old(disk) + src[..p]
      {
        var done :| 1 <= done <= |src| - p;
        disk := disk + src[p..p + done];
        assert src[..p] + src[p..p + done] == src[..p + done];
        p := p + done;
      }
      assert src[..p] == src;
    }

    /** Append a record, or refuse because the file is full. */
    method Append(key: Text, val: Text) returns (ok: bool, lba: LBA)
      requires Valid() && Storable(key, val) && OffsetFits(Abs(), key, val)
      modifies Repr()
      ensures Valid() && fresh(Repr() - old(Repr())) && this in Repr()
      ensures Appends(crc, old(Abs()), key, val, ok, Abs(), lba)
    {
      lba := LBA(0, 0, 0);
      if eof {
        return false, lba;
      }
      ok := true;
      var recSize := RecordSize(key, val);
      lba := LBA(cacheId, diskWoff, recSize);
      var rec := MakeRecord(crc, key, val);
      AppendFacts(rec);
      hide *;
      if buffered {
        AppendBuffered(key, rec);
      } else {
        AppendDirect(key, rec);
      }
    }

    /** The state of a file that still takes records. */
    lemma OpenFacts()
      requires Valid() && !eof
      ensures diskWoff == |EncodeAll(recs)| && !Reopened(Abs())
      ensures buffered ==> !pc.Exited? && w > 0 && Hold(bufs, w, EncodeAll(recs))
                           && |bufs| == NumBufs(|EncodeAll(recs)|, w) && woff == Full(|EncodeAll(recs)|, w)
      ensures !buffered ==> disk == EncodeAll(recs) && bufs == []
    {
    }

    /** Make room in the buffers and serialise a record into them. */
    method SpreadRecord(rec: Record) returns (woff': nat)
      requires w > 0 && Hold(bufs, w, EncodeAll(recs)) && woff == Full(|EncodeAll(recs)|, w)
      requires |bufs| == NumBufs(|EncodeAll(recs)|, w)
      modifies this`bufs, Footprint(bufs)
      ensures Hold(bufs, w, EncodeAll(recs) + Serialize(rec))
      ensures woff' == Full(|EncodeAll(recs) + Serialize(rec)|, w)
      ensures |bufs| == NumBufs(|EncodeAll(recs) + Serialize(rec)|, w)
      ensures fresh(Footprint(bufs) - old(Footprint(bufs)))
    {
      SerializeNonempty(rec);
      hide EncodeAll, Serialize, Hold, NumBufs, HeaderBytes, Full;
      ghost var stream := EncodeAll(recs);
      ExpandBuffer(HEADER_SIZE + |rec.key| + |rec.val|);
      NumBufsBounds(|stream| + |Serialize(rec)|, w);
      var ok;
      ok, woff' := SerializeInto(bufs, w, woff, rec, stream);
    }

    /** The bookkeeping after the record is in the buffers. */
    method FinishAppend(key: Text, rec: Record, woff': nat)
      requires FieldsOk() && !eof && buffered && diskWoff == |EncodeAll(recs)|
      requires rec.key == key && Fits(rec)
      requires woff' == Full(|EncodeAll(recs) + Serialize(rec)|, w)
      modifies this`keyLists, this`diskWoff, this`eof, this`recs, this`woff, this`sem, this`running
      ensures FieldsOk()
      ensures Abs() == FileSpec.Append(old(Abs()), rec)
    {
      SerializeNonempty(rec);
      hide EncodeAll, Serialize, RecordsOk, FileInv, Full, KeysOf;
      var recSize := HEADER_SIZE + |rec.key| + |rec.val|;
      woff := woff';
      keyLists := keyLists + [key];
      diskWoff := diskWoff + recSize;
      eof := diskWoff >= maxSize;
      recs := recs + [rec];
      DispatchBuffer();
    }

    /** The write-buffer branch of Append. */
    method AppendBuffered(key: Text, rec: Record)
      requires Valid() && !eof && buffered && rec.key == key && Fits(rec)
      modifies Repr()
      ensures Valid() && fresh(Repr() - old(Repr()))
      ensures Abs() == FileSpec.Append(old(Abs()), rec)
    {
      OpenFacts();
      hide EncodeAll, Serialize, Hold, RecordsOk, FileInv, NumBufs, Full, KeysOf;
      var woff' := SpreadRecord(rec);
      FinishAppend(key, rec, woff');
    }

    /** The branch of Append for direct writing. */
    method AppendDirect(key: Text, rec: Record)
      requires Valid() && !eof && !buffered && rec.key == key
      requires Fits(rec)
      modifies this
      ensures Valid() && Repr() == old(Repr())
      ensures Abs() == FileSpec.Append(old(Abs()), rec)
    {
      hide EncodeAll, Serialize, Hold, RecordsOk, FileInv, KeysOf, Offset;
      OpenFacts();
      SerializeNonempty(rec);
      var recSize := HEADER_SIZE + |rec.key| + |rec.val|;
      WriteAll(Serialize(rec));
      filesize := filesize + recSize;
      diskWoff := diskWoff + recSize;
      if filesize >= maxSize {
        eof := true;
      }
      keyLists := keyLists + [key];
      recs := recs + [rec];
      assert Abs() == FileSpec.Append(old(Abs()), rec);
      assert FieldsOk();
    }

    /** Appending rec keeps every bound and invariant of the file. */
    ghost predicate Fits(rec: Record)
      reads this
    {
      && (buffered ==> w > 0)
      && EncodeAll(recs + [rec]) == EncodeAll(recs) + Serialize(rec)
      && |EncodeAll(recs + [rec])| < TWO_TO_THE_32
      && !cut && RecordsOk(crc, recs + [rec]) && KeysOf(recs + [rec]) == KeysOf(recs) + [rec.key]
      && FileInv(FileSpec.Append(Abs(), rec))
    }

    /** What the next record does to the stream, the offsets and the invariant. */
    lemma AppendFacts(rec: Record)
      requires Valid() && !eof && Storable(rec.key, rec.val) && rec == MakeRecord(crc, rec.key, rec.val)
      requires OffsetFits(Abs(), rec.key, rec.val)
      ensures Fits(rec)
      ensures Address(cacheId, recs + [rec], |recs|) == LBA(cacheId, diskWoff, RecordSize(rec.key, rec.val))
    {
      OpenFacts();
      OpenIsSound(crc, Abs());
      SerializeNonempty(rec);
      NextRecord(crc, cacheId, recs, rec);
      hide EncodeAll, FileInv, RecordsOk, RecordsSound, KeysOf, Address, MakeRecord, Storable, BufsOk, Serialize;
      AppendKeepsInv(Abs(), rec);
    }

    // ---------- The writer thread ----------

    /** sem_wait at the head of Write. */
    method WaitSemaphore()
      requires Valid() && Enabled(Abs(), Wake)
      modifies this`sem, this`pc
      ensures Valid() && Abs() == Apply(old(Abs()), Wake)
    {
      hide FileInv, EncodeAll, Hold, KeysOf, RecordsOk, RecordsSound, NumBufs;
      ApplyKeepsInv(Abs(), Wake);
      assert this !in Footprint(bufs);
      sem, pc := sem - 1, Draining;
    }

    lemma FlushFacts()
      requires Valid() && Enabled(Abs(), Flush)
      ensures doff < |bufs| && bufs[doff].Valid() && bufs[doff].Content() == Segment(EncodeAll(recs), w, doff)
      ensures |disk| + bufs[doff].Used() < TWO_TO_THE_32
      ensures FileInv(Apply(Abs(), Flush))
    {
      hide EncodeAll, FileInv, KeysOf, RecordsSound, NumBufs, Segment;
      ApplyKeepsInv(Abs(), Flush);
      FlushFits(crc, Abs(), diskWoff);
      assert |bufs[doff].Content()| == bufs[doff].Used();
    }

    /** One turn of the drain loop of Write: put buffer doff on flash. */
    method WriteBuffer()
      requires Valid() && Enabled(Abs(), Flush)
      modifies this`disk, this`filesize, this`doff
      ensures Valid() && Abs() == Apply(old(Abs()), Flush)
    {
      hide FileInv, EncodeAll, Hold, KeysOf, RecordsOk, RecordsSound, NumBufs, Segment;
      FlushFacts();
      assert this !in Footprint(bufs);
      var buf := bufs[doff];
      WriteAll(buf.data[..buf.pos]);
      filesize := filesize + buf.Used();
      doff := doff + 1;
    }

    /** The test that ends the drain loop of Write. */
    method LeaveLoop()
      requires Valid() && Enabled(Abs(), Leave)
      modifies this`pc
      ensures Valid() && Abs() == Apply(old(Abs()), Leave)
    {
      hide FileInv, EncodeAll, Hold, KeysOf, RecordsOk, RecordsSound, NumBufs;
      ApplyKeepsInv(Abs(), Leave);
      assert this !in Footprint(bufs);
      pc := Leaving;
    }

    /** The end of Write. */
    method EndWrite()
      requires Valid() && Enabled(Abs(), Finish)
      modifies this`running, this`pc
      ensures Valid() && Abs() == Apply(old(Abs()), Finish)
    {
      hide FileInv, EncodeAll, Hold, KeysOf, RecordsOk, RecordsSound, NumBufs;
      ApplyKeepsInv(Abs(), Finish);
      assert this !in Footprint(bufs);
      running, pc := false, Checking;
    }

    /** The loop of ClearBuffers. */
    method ClearBuffers()
      modifies this`bufs
      ensures bufs == []
    {
      while bufs != [] {
        bufs := bufs[..|bufs| - 1];
      }
    }

    /** writerJobs after Write has returned: at eof leave the loop and free the buffers. */
    method CheckEof()
      requires Valid() && Enabled(Abs(), Check)
      modifies this`pc, this`bufs
      ensures Valid() && Abs() == Apply(old(Abs()), Check)
      ensures Footprint(bufs) <= old(Footprint(bufs))
    {
      hide FileInv, EncodeAll, Hold, KeysOf, RecordsOk, RecordsSound, NumBufs;
      ApplyKeepsInv(Abs(), Check);
      assert this !in Footprint(bufs);
      if eof {
        ClearBuffers();
        pc := Exited;
      } else {
        pc := Waiting;
      }
    }

    /** The drain loop of Write, undisturbed. */
    method DrainBuffers()
      requires Valid() && !Reopened(Abs()) && pc.Draining?
      requires (buffered ==> w > 0 && woff <= NumBufs(|EncodeAll(recs)|, w))
      modifies this`disk, this`filesize, this`doff
      ensures Valid()
      ensures Abs() == old(Abs()).(disk := FinalDisk(old(Abs())), doff := old(woff))
    {
      hide EncodeAll, Segment, Hold, RecordsOk, KeysOf, NumBufs;
      DoffBound(Abs());
      assert this !in Footprint(bufs);
      while doff < woff
        invariant Valid() && doff <= woff
        invariant Abs() == old(Abs()).(disk := disk, doff := doff)
      {
        hide FileInv;
        WriteBuffer();
      }
      DoffBound(Abs());
    }

    /** Write, undisturbed: wake, write every dispatched buffer, stop. */
    method Write()
      requires Valid() && !Reopened(Abs()) && buffered && Enabled(Abs(), Wake)
      requires woff <= NumBufs(|EncodeAll(recs)|, w)
      modifies this`sem, this`pc, this`disk, this`filesize, this`doff, this`running
      ensures Valid()
      ensures Abs() == old(Abs()).(disk := FinalDisk(old(Abs())), doff := old(woff), running := false,
                                   sem := old(sem) - 1, pc := Checking)
    {
      hide EncodeAll, Segment, Hold, RecordsOk, KeysOf, NumBufs;
      DoffBound(Abs());
      hide FileInv;
      WaitSemaphore();
      DrainBuffers();
      LeaveLoop();
      EndWrite();
    }

    // ---------- Reading ----------

    /** Gather the bytes of an address from the buffers they were spread over. */
    method ReadBuffer(lba: LBA, scratch: array<byte>) returns (ok: bool)
      requires w > 0 && Hold(bufs, w, EncodeAll(recs))
      requires lba.off + lba.size <= |EncodeAll(recs)| && scratch.Length == lba.size
      requires scratch !in Footprint(bufs)
      modifies scratch
      ensures ok && scratch[..] == EncodeAll(recs)[lba.off..lba.off + lba.size]
    {
      ghost var stream := EncodeAll(recs);
      var i, startOff := lba.off / w, lba.off % w;
      var tmp: nat, total: nat := 0, lba.size;
      assert i == Full(lba.off, w) && startOff == Rem(lba.off, w);
      hide EncodeAll, Hold, Segment, Full, Rem;
      while total > 0 && i < |bufs|
        invariant tmp + total == lba.size
        invariant total > 0 ==> i == Full(lba.off + tmp, w) && startOff == Rem(lba.off + tmp, w)
        invariant scratch[..tmp] == stream[lba.off..lba.off + tmp]
        invariant Hold(bufs, w, stream)
        decreases total
      {
        var readSize := CopyOut(bufs, w, i, startOff, total, scratch, tmp, stream, lba.off);
        total := total - readSize;
        startOff := 0;
        tmp := tmp + readSize;
        i := i + 1;
      }
      if total > 0 {
        Locate(bufs, w, stream, lba.off + tmp);
      }
      assert scratch[..tmp] == scratch[..];
      ok := true;
    }

    /** Gather the bytes of an address from the file; pread may return fewer than asked for. */
    method ReadFile(lba: LBA, scratch: array<byte>) returns (readSize: nat)
      requires scratch.Length == lba.size
      modifies scratch
      ensures readSize <= lba.size
      ensures scratch[..readSize] == disk[Min(lba.off, |disk|)..Min(lba.off + lba.size, |disk|)]
    {
      var left: nat := lba.size;
      var offset: nat := lba.off;
      while left > 0
        invariant left <= lba.size && offset == lba.off + (lba.size - left)
        invariant left < lba.size ==> offset <= |disk|
        invariant scratch[..lba.size - left] == disk[Min(lba.off, |disk|)..Min(offset, |disk|)]
      {
        if offset >= |disk| {
          break;
        }
        var r :| 1 <= r <= left && offset + r <= |disk|;
        Fetch(scratch, lba.size - left, offset, r);
        ConcatSlices(disk, lba.off, offset, offset + r);
        offset := offset + r;
        left := left - r;
      }
      readSize := lba.size - left;
    }

    /** What one pread brings. */
    method Fetch(scratch: array<byte>, data: nat, offset: nat, r: nat)
      requires data + r <= scratch.Length && offset + r <= |disk|
      modifies scratch
      ensures scratch[..data + r] == old(scratch[..data]) + disk[offset..offset + r]
    {
      forall j | 0 <= j < r {
        scratch[data + j] := disk[offset + j];
      }
    }

    /** Read the record at an address, from the buffers while they exist, else from the file. */
    method Read(lba: LBA, scratch: array<byte>) returns (ok: bool, key: Text, val: Text)
      requires Valid() && lba.off + lba.size <= |EncodeAll(recs)|
      requires scratch.Length == lba.size && scratch !in Repr()
      modifies scratch
      ensures match FileReads.Read(crc, Abs(), lba)
              case Some(r) => ok && key == r.key && val == r.val
              case None => !ok
    {
      hide WriteableCacheFile.Valid, EncodeAll, Hold, FileInv, Deserialize, RecordsOk, KeysOf;
      BufsEmptyWhenClosed();
      var closed := if buffered then eof && bufs == [] else true;
      var found, readSize: nat := true, lba.size;
      if !closed {
        found := ReadBuffer(lba, scratch);
      } else {
        readSize := ReadFile(lba, scratch);
      }
      assert scratch[..readSize] == ReadBytes(Abs(), lba);
      ok, key, val := false, [], [];
      if found {
        match Deserialize(crc, scratch[..readSize]) {
          case Some(r) => ok, key, val := true, r.key, r.val;
          case None =>
        }
      }
    }

    /** The test eof_ && bufs_.empty() is the abstract one. */
    lemma BufsEmptyWhenClosed()
      requires Valid()
      ensures Abs().Closed() <==> (buffered ==> eof && bufs == [])
      ensures !Abs().Closed() ==> w > 0 && Hold(bufs, w, EncodeAll(recs))
    {
    }

    // ---------- Start-up and shut-down ----------

    /** Open: a file found in the directory. What was once appended to it is known only to the proof;
        the file may hold less. */
    constructor Open(crc: Checksum, cacheId: nat, buffered: bool, content: seq<byte>, ghost all: seq<Record>)
      requires RecordsOk(crc, all) && content <= EncodeAll(all) && |content| < TWO_TO_THE_32
      ensures this.crc == crc && this.cacheId == cacheId && this.buffered == buffered
      ensures disk == content && filesize == |content| && AwaitsRepair(all) && fresh(Repr())
    {
      this.crc, this.cacheId, maxSize, w, this.buffered := crc, cacheId, 0, 0, buffered;
      filesize, keyLists, eof, diskWoff, bufs, woff, doff, running := |content|, [], true, 0, [], 0, 0, false;
      disk, sem, pc, joinable, recs, cut := content, 0, Exited, false, [], false;
    }

    /** Opened, and not scanned yet. */
    ghost predicate AwaitsRepair(all: seq<Record>)
      reads this
    {
      && RecordsOk(crc, all) && disk <= EncodeAll(all) && filesize == |disk|
      && eof && pc.Exited? && w == maxSize == 0 && doff == woff == sem == 0 && !running
      && bufs == [] && keyLists == []
    }

    /** pread of a header into the variable that held the one before. */
    method ReadHeader(startPos: nat, hdr: seq<byte>) returns (hdr': seq<byte>)
      requires |hdr| == HEADER_SIZE
      ensures hdr' == Overlay(hdr, BytesAt(disk, startPos, HEADER_SIZE))
    {
      hdr' := Overlay(hdr, BytesAt(disk, startPos, HEADER_SIZE));
    }

    /** pread of a key into fresh memory, whose contents are anything. */
    method ReadKey(startPos: nat, keySize: nat) returns (key: Text, ghost memory: seq<byte>)
      ensures |memory| == keySize && key == Overlay(memory, BytesAt(disk, startPos, keySize))
    {
      assert |seq<byte>(keySize, _ => 0)| == keySize;
      var tempKey: seq<byte> :| |tempKey| == keySize;
      memory := tempKey;
      key := Overlay(tempKey, BytesAt(disk, startPos, keySize));
    }

    /** One turn of Repair: read the header and the key at startPos, index the record, list its key. */
    method RepairOne(meta: Metadata, startPos: nat, hdr: seq<byte>, ghost all: seq<Record>, ghost i: nat)
      returns (next: nat, hdr': seq<byte>, ghost recs': seq<Record>)
      requires RecordsOk(crc, all) && disk <= EncodeAll(all) && filesize == |disk| && SizesFit(all, disk)
      requires i <= |all| && startPos == Offset(all, i) < filesize && hdr == HeaderBefore(all, i)
      modifies meta, this`keyLists
      ensures |recs'| == i + 1 && recs'[..i] == all[..i] && startPos + HEADER_SIZE <= next
      ensures if next <= filesize
              then i < |all| && recs' == all[..i + 1] && next == Offset(all, i + 1) && hdr' == HeaderBefore(all, i + 1)
              else Scanned(all, disk, recs') && CutOff(recs', disk)
      ensures keyLists == old(keyLists) + [recs'[i].key]
      ensures meta.blockIndex == IndexInsert(old(meta.blockIndex), recs'[i].key, Address(cacheId, recs', i))
    {
      hide EncodeAll, Offset, HeaderAt, HeaderBytes, Serialize, RecordsOk, IndexInsert, Overlay, BytesAt, Scanned,
           CutOff, CutRecord;
      MoreToScan(all, disk, i);
      ghost var mem;
      var key;
      hdr' := ReadHeader(startPos, hdr);
      var h := HeaderAt(hdr', 0);
      key, mem := ReadKey(startPos + HEADER_SIZE, h.keySize);
      var size := (h.keySize + h.valSize + HEADER_SIZE) % TWO_TO_THE_32;
      recs' := Believed(all, i, h, key, mem, size);
      meta.InsertKey(key, LBA(cacheId, startPos, size));
      keyLists := keyLists + [key];
      next := startPos + size;
    }

    /** The records that the scan believes in after a turn. */
    lemma Believed(all: seq<Record>, i: nat, h: Header, key: Text, memory: seq<byte>, size: nat)
      returns (recs': seq<Record>)
      requires RecordsOk(crc, all) && disk <= EncodeAll(all) && filesize == |disk| && SizesFit(all, disk)
      requires i < |all| && Offset(all, i) < filesize && h == HeaderSeen(all, disk, i) && |memory| == h.keySize
      requires key == Overlay(memory, BytesAt(disk, Offset(all, i) + HEADER_SIZE, h.keySize))
      requires size == (h.keySize + h.valSize + HEADER_SIZE) % TWO_TO_THE_32
      ensures |recs'| == i + 1 && recs'[..i] == all[..i] && size >= HEADER_SIZE
      ensures if Offset(all, i) + size <= filesize
              then recs' == all[..i + 1] && Offset(all, i) + size == Offset(all, i + 1)
                   && Overlay(HeaderBefore(all, i), BytesAt(disk, Offset(all, i), HEADER_SIZE))
                      == HeaderBefore(all, i + 1)
              else Scanned(all, disk, recs') && CutOff(recs', disk)
      ensures recs'[i].key == key && Address(cacheId, recs', i) == LBA(cacheId, Offset(all, i), size)
    {
      hide EncodeAll, Offset, HeaderAt, HeaderBytes, Serialize, RecordsOk, Overlay, BytesAt, Scanned, CutOff,
           CutRecord, HeaderSeen;
      var off := Offset(all, i);
      SeenIs(all, disk, i);
      if Offset(all, i + 1) <= filesize {
        recs' := all[..i + 1];
        WholeStep(crc, all, disk, i);
        OverlayFull(HeaderBefore(all, i), HeaderBytes(all[i].hdr));
        OverlayFull(memory, all[i].key);
        AddressOf(all, i);
      } else {
        recs' := all[..i] + [CutRecord(disk, off, h, key)];
        SeenWhole(crc, all, disk, i);
        var r := CutStep(crc, all, disk, i, memory);
        SerializeSize(recs'[i]);
      }
    }

    /** Scan the file from its start, index every record found and list its key. */
    method Repair(meta: Metadata, ghost all: seq<Record>)
      requires AwaitsRepair(all) && SizesFit(all, disk)
      modifies meta, this`keyLists, this`recs, this`cut
      ensures Valid() && Scanned(all, disk, recs) && Abs() == ReopenedFile(cacheId, buffered, recs, disk)
      ensures meta.blockIndex == IndexRecords(old(meta.blockIndex), cacheId, recs, |recs|)
    {
      hide EncodeAll, RecordsOk, KeysOf, Offset, IndexInsert, Address, Scanned, CutOff, SizesFit, HeaderBefore,
           WriteableCacheFile.Valid, IndexRecords;
      var startPos := 0;
      var hdr: seq<byte> := seq(HEADER_SIZE, _ => 0);
      ghost var i: nat, rs: seq<Record> := 0, [];
      ScanStart(all, hdr, cacheId, meta.blockIndex);
      while startPos < filesize
        invariant |keyLists| == |rs| && forall j :: 0 <= j < |rs| ==> keyLists[j] == rs[j].key
        invariant meta.blockIndex == IndexRecords(old(meta.blockIndex), cacheId, rs, |rs|)
        invariant if startPos <= filesize
                  then i <= |all| && rs == all[..i] && startPos == Offset(all, i) && hdr == HeaderBefore(all, i)
                  else Scanned(all, disk, rs) && CutOff(rs, disk)
        decreases filesize - startPos
      {
        ghost var before := rs;
        startPos, hdr, rs := RepairOne(meta, startPos, hdr, all, i);
        IndexedOne(old(meta.blockIndex), cacheId, before, rs);
        i := i + 1;
      }
      if startPos == filesize {
        WholeEnd(all, disk, i);
      }
      recs, cut := rs, |disk| < |EncodeAll(rs)|;
      RepairedIsValid(all);
    }

    lemma RepairedIsValid(all: seq<Record>)
      requires RecordsOk(crc, all) && Scanned(all, disk, recs) && cut == (|disk| < |EncodeAll(recs)|)
      requires |keyLists| == |recs| && forall j :: 0 <= j < |recs| ==> keyLists[j] == recs[j].key
      requires filesize == |disk| && eof && pc.Exited? && w == maxSize == 0 && doff == woff == sem == 0 && !running
      requires bufs == []
      ensures Valid() && Abs() == ReopenedFile(cacheId, buffered, recs, disk)
    {
      hide EncodeAll, RecordsSound, Scanned;
      ScannedSound(crc, all, disk, recs);
      assert keyLists == KeysOf(recs);
    }

    /** The first half of Close: raise eof, send the writer one buffer further, wake it. */
    method RaiseEof()
      requires Valid()
      modifies this`eof, this`woff, this`sem
      ensures Valid() && Abs() == Closing(old(Abs()))
    {
      hide FileInv, EncodeAll, Hold, KeysOf, RecordsOk, RecordsSound, NumBufs;
      ClosingIsSteps(Abs());
      assert this !in Footprint(bufs);
      eof := true;
      if buffered {
        woff := woff + 1;
      }
      sem := sem + 1;
    }

    /** Close: raise eof, join the writer, which runs until it exits, and free the buffers. */
    method Close()
      requires Valid() && ClosesInside(Abs())
      modifies this
      ensures Valid() && pc.Exited? && recs == old(recs) && cut == old(cut)
      ensures disk == ClosedDisk(old(Abs())) && bufs == []
    {
      hide FileInv, EncodeAll, Segment, Hold, RecordsOk, RecordsSound, KeysOf, NumBufs;
      if joinable {
        RaiseEof();
        ghost var closed := Abs();
        if !pc.Exited? {
          RunWriter();
        }
        assert disk == FinalDisk(closed);
        joinable := false;
      }
      assert this !in Footprint(bufs);
      ClearBuffers();
    }

    /** The writer of a file with eof set, from where it stands until it exits. */
    method RunWriter()
      requires Valid() && eof && !pc.Exited? && (pc.Waiting? ==> sem > 0) && (buffered ==> !Overrun(Abs()))
      modifies this
      ensures Valid() && pc.Exited? && recs == old(recs) && cut == old(cut) && disk == FinalDisk(old(Abs()))
      ensures joinable == old(joinable) && Footprint(bufs) <= old(Footprint(bufs))
    {
      hide FileInv, EncodeAll, Segment, Hold, RecordsOk, RecordsSound, KeysOf, NumBufs, WriteableCacheFile.Valid;
      if pc.Waiting? || pc.Draining? {
        RunLoop();
      }
      if pc.Leaving? {
        EndWrite();
      }
      CheckEof();
    }

    /** From the semaphore or inside the loop until the loop ends. */
    method RunLoop()
      requires Valid() && (pc.Draining? || (pc.Waiting? && sem > 0)) && !Reopened(Abs())
      requires buffered ==> !Overrun(Abs())
      modifies this
      ensures Valid() && pc.Leaving? && recs == old(recs) && cut == old(cut) && eof == old(eof)
      ensures disk == FinalDisk(old(Abs())) && joinable == old(joinable) && bufs == old(bufs)
    {
      hide FileInv, EncodeAll, Segment, Hold, RecordsOk, RecordsSound, KeysOf, NumBufs;
      if pc.Waiting? {
        WaitSemaphore();
      }
      DrainBuffers();
      LeaveLoop();
    }

    /** Delete: close the file and give back its size on flash. */
    method Delete() returns (n: nat)
      requires Valid() && ClosesInside(Abs())
      modifies this
      ensures Valid() && pc.Exited? && recs == old(recs)
      ensures n == |ClosedDisk(old(Abs()))|
    {
      Close();
      n := filesize;
    }
  }

  lemma AddressOf(all: seq<Record>, i: nat)
    requires i < |all|
    ensures Address(0, all[..i + 1], i).off == Offset(all, i) && all[..i + 1][..i] == all[..i]
  {
    assert all[..i + 1][..i] == all[..i];
  }

  lemma ScanStart(all: seq<Record>, hdr: seq<byte>, id: nat, index: map<Text, LBA>)
    requires hdr == seq(HEADER_SIZE, _ => 0)
    ensures Offset(all, 0) == 0 && hdr == HeaderBefore(all, 0) && all[..0] == []
    ensures IndexRecords(index, id, [], 0) == index
  {
  }

  lemma IndexedOne(index: map<Text, LBA>, id: nat, before: seq<Record>, recs: seq<Record>)
    requires |recs| == |before| + 1 && recs[..|before|] == before
    ensures IndexRecords(index, id, recs, |recs|) ==
            IndexInsert(IndexRecords(index, id, before, |before|), recs[|before|].key, Address(id, recs, |before|))
  {
    hide Address, IndexInsert;
    IndexRecordsPrefix(index, id, before, recs[|before|], |before|);
    assert before + [recs[|before|]] == recs;
  }

  lemma OpenIsSound(crc: Checksum, s: FileState)
    requires FileInv(s) && !s.eof && RecordsSound(crc, s.recs, s.cut)
    ensures !s.cut && RecordsOk(crc, s.recs)
  {
  }

  lemma NextRecord(crc: Checksum, id: nat, recs: seq<Record>, rec: Record)
    requires RecordsOk(crc, recs) && Storable(rec.key, rec.val) && rec == MakeRecord(crc, rec.key, rec.val)
    ensures EncodeAll(recs + [rec]) == EncodeAll(recs) + Serialize(rec) && RecordsOk(crc, recs + [rec])
    ensures KeysOf(recs + [rec]) == KeysOf(recs) + [rec.key]
    ensures Address(id, recs + [rec], |recs|) == LBA(id, |EncodeAll(recs)|, |Serialize(rec)|)
  {
    EncodeSnoc(recs, rec);
    OffsetAppend(recs, rec, |recs|);
    assert recs[..|recs|] == recs;
    hide EncodeAll, Serialize, MakeRecord, Storable;
  }

  /** What a flush writes still fits a file whose size fits 32 bits. */
  lemma FlushFits(crc: Checksum, s: FileState, diskWoff: uint32)
    requires FileInv(s) && Enabled(s, Flush) && (Reopened(s) || diskWoff == |s.Stream()|)
    ensures s.buffered && |s.disk| + |Segment(s.Stream(), s.w, s.doff)| < TWO_TO_THE_32
  {
    FlushExtends(s);
    hide EncodeAll, Segment;
  }

  lemma DoffBound(s: FileState)
    requires FileInv(s) && !Reopened(s)
    ensures s.doff <= s.woff
    ensures s.buffered ==> s.w > 0 && s.disk == s.Stream()[..Min(s.doff * s.w, |s.Stream()|)]
    ensures !s.buffered ==> s.doff == s.woff
  {
  }
}
