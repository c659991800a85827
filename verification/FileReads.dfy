/** Reading records back, from the buffers or from the file. */
module FileReads {
  import opened Arith
  import opened Bytes
  import opened CacheRecord
  import opened Layout
  import opened FileSpec
  import opened FileRuns

  /** The bytes Read hands to Deserialize. */
  function ReadBytes(s: FileState, lba: LBA): seq<byte>
    requires lba.off + lba.size <= |s.Stream()|
  {
    if s.Closed() then
      s.disk[Min(lba.off, |s.disk|)..Min(lba.off + lba.size, |s.disk|)]
    else
      s.Stream()[lba.off..lba.off + lba.size]
  }

  function Read(crc: Checksum, s: FileState, lba: LBA): Option<Record>
    requires lba.off + lba.size <= |s.Stream()|
  {
    Deserialize(crc, ReadBytes(s, lba))
  }

  lemma DiskIsPrefix(s: FileState)
    requires FileInv(s)
    ensures s.disk <= s.Stream()
    ensures |s.disk| == |s.Stream()| ==> s.disk == s.Stream()
  {
  }

  /** A record cut short is rejected, whatever the checksum: its header tells its size. */
  lemma ShortRecordRejected(crc: Checksum, r: Record, k: nat)
    requires r.hdr.keySize == |r.key| && r.hdr.valSize == |r.val| && k < |Serialize(r)|
    ensures Deserialize(crc, Serialize(r)[..k]) == None
  {
    var d := Serialize(r)[..k];
    if HEADER_SIZE <= k {
      HeaderRoundTrip(r.hdr, (r.key + r.val)[..k - HEADER_SIZE]);
      hide HeaderAt, HeaderBytes;
      assert d == HeaderBytes(r.hdr) + (r.key + r.val)[..k - HEADER_SIZE];
    }
  }

  /** A slice of a prefix is the slice of the whole, cut where the prefix ends. */
  lemma SliceOfPrefix(disk: seq<byte>, stream: seq<byte>, off: nat, size: nat)
    requires disk <= stream && off + size <= |stream|
    ensures var got := disk[Min(off, |disk|)..Min(off + size, |disk|)];
      got == if off + size <= |disk| then stream[off..off + size] else stream[off..off + size][..|got|]
  {
    var n := |disk|;
    assert disk == stream[..n];
    if n < off + size {
      var a := Min(off, n);
      assert |disk[a..]| == n - a;
      assert forall j :: 0 <= j < n - a ==> disk[a..][j] == stream[off..off + size][j];
    }
  }

  lemma GoodRecord(crc: Checksum, recs: seq<Record>, i: nat)
    requires RecordsOk(crc, recs) && i < |recs|
    ensures Deserialize(crc, Serialize(recs[i])) == Some(recs[i])
    ensures forall k :: 0 <= k < |Serialize(recs[i])| ==> Deserialize(crc, Serialize(recs[i])[..k]) == None
    ensures |Serialize(recs[i])| > 0
  {
    DeserializeSerialize(crc, recs[i].key, recs[i].val);
    SerializeNonempty(recs[i]);
    forall k | 0 <= k < |Serialize(recs[i])|
      ensures Deserialize(crc, Serialize(recs[i])[..k]) == None
    {
      ShortRecordRejected(crc, recs[i], k);
    }
  }

  /** The same for the raw bytes of one record at off. */
  lemma ReadFromPrefix(crc: Checksum, disk: seq<byte>, stream: seq<byte>, off: nat, ser: seq<byte>, r: Record)
    requires disk <= stream && off + |ser| <= |stream| && stream[off..off + |ser|] == ser
    requires ser != [] && Deserialize(crc, ser) == Some(r)
    requires forall k :: 0 <= k < |ser| ==> Deserialize(crc, ser[..k]) == None
    ensures Deserialize(crc, disk[Min(off, |disk|)..Min(off + |ser|, |disk|)])
            == if off + |ser| <= |disk| then Some(r) else None
  {
    hide Deserialize;
    SliceOfPrefix(disk, stream, off, |ser|);
  }

  lemma CutRead(crc: Checksum, disk: seq<byte>, stream: seq<byte>, off: nat, r: Record)
    requires disk <= stream && off + |Serialize(r)| <= |stream| && stream[off..off + |Serialize(r)|] == Serialize(r)
    requires Sized(r) && |disk| < off + |Serialize(r)|
    ensures Deserialize(crc, disk[Min(off, |disk|)..Min(off + |Serialize(r)|, |disk|)]) == None
  {
    hide Deserialize, Serialize;
    var got := disk[Min(off, |disk|)..Min(off + |Serialize(r)|, |disk|)];
    SliceOfPrefix(disk, stream, off, |Serialize(r)|);
    SerializeNonempty(r);
    ShortRecordRejected(crc, r, |got|);
  }

  /** Of a file that was found to end inside a record, that record is the only one that is not whole. */
  lemma SoundRecord(crc: Checksum, s: FileState, i: nat)
    requires FileInv(s) && RecordsSound(crc, s.recs, s.cut) && i < |s.recs|
    ensures if s.cut && i == |s.recs| - 1
            then Sized(s.recs[i]) && s.Closed() && |s.disk| < |s.Stream()| == Offset(s.recs, i) + |Serialize(s.recs[i])|
            else Storable(s.recs[i].key, s.recs[i].val) && RecordsOk(crc, [s.recs[i]])
  {
    if s.cut && i == |s.recs| - 1 {
      OffsetStep(s.recs, i);
      assert s.recs[..|s.recs|] == s.recs;
    } else if s.cut {
      assert s.recs[..|s.recs| - 1][i] == s.recs[i];
    }
  }

  /** Reading an issued address returns exactly the record appended there, unless the file is
      read from disk and the record is not wholly on disk; then reading fails. */
  lemma ReadIssued(crc: Checksum, s: FileState, i: nat)
    requires FileInv(s) && RecordsSound(crc, s.recs, s.cut) && i < |s.recs|
    ensures var lba := Address(s.id, s.recs, i);
      && lba.off + lba.size <= |s.Stream()|
      && Read(crc, s, lba) ==
           (if s.Closed() && lba.off + lba.size > |s.disk| then None else Some(s.recs[i]))
  {
    hide Deserialize, Serialize, EncodeAll, RecordsOk, RecordsSound, FileInv, Offset;
    var lba := Address(s.id, s.recs, i);
    SliceAt(s.recs, i);
    DiskIsPrefix(s);
    SoundRecord(crc, s, i);
    if s.cut && i == |s.recs| - 1 {
      CutRead(crc, s.disk, s.Stream(), lba.off, s.recs[i]);
    } else {
      GoodRecord(crc, [s.recs[i]], 0);
      ReadFromPrefix(crc, s.disk, s.Stream(), lba.off, Serialize(s.recs[i]), s.recs[i]);
    }
  }
}
