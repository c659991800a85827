/** What the scan at start-up makes of the bytes of a file, also of one that ends inside a record. */
module Scan {
  import opened Arith
  import opened Bytes
  import opened CacheRecord
  import opened Layout

  /** The n bytes at off, as far as there are any. */
  function BytesAt(d: seq<byte>, off: nat, n: nat): (b: seq<byte>)
    ensures |b| <= n && (off + n <= |d| ==> |b| == n)
    ensures forall j :: 0 <= j < |b| ==> off + j < |d| && b[j] == d[off + j]
  {
    d[Min(off, |d|)..Min(off + n, |d|)]
  }

  /** A short read leaves the end of what was in memory. */
  function Overlay(memory: seq<byte>, read: seq<byte>): (b: seq<byte>)
    requires |read| <= |memory|
    ensures |b| == |memory| && read <= b
  {
    read + memory[|read|..]
  }

  /** The header variable before record i is read: blank, then the header of the record before. */
  function HeaderBefore(all: seq<Record>, i: nat): (b: seq<byte>)
    requires i <= |all|
    ensures |b| == HEADER_SIZE
  {
    if i == 0 then seq(HEADER_SIZE, _ => 0) else HeaderBytes(all[i - 1].hdr)
  }

  /** The header variable after record i is read. */
  function HeaderSeen(all: seq<Record>, d: seq<byte>, i: nat): Header
    requires i < |all|
  {
    HeaderAt(Overlay(HeaderBefore(all, i), BytesAt(d, Offset(all, i), HEADER_SIZE)), 0)
  }

  /** The sizes that the scan believes in do not wrap. Only a header cut short could make them. */
  ghost predicate SizesFit(all: seq<Record>, d: seq<byte>) {
    forall i :: 0 <= i < |all| && Offset(all, i) < |d| ==>
      HeaderSeen(all, d, i).keySize + HeaderSeen(all, d, i).valSize + HEADER_SIZE < TWO_TO_THE_32
  }

  /** recs is what a scan of the first bytes of `all` comes upon: its whole records and, if the bytes end
      inside a record, one record more. Of that one the header is right if all of it is there, and so is the key. */
  ghost predicate Scanned(all: seq<Record>, d: seq<byte>, recs: seq<Record>) {
    if |d| == |EncodeAll(recs)| then d == EncodeAll(recs) && recs <= all
    else
      CutOff(recs, d)
      && var n := |recs| - 1;
         n < |all| && recs[..n] == all[..n] && Sized(recs[n])
         && (Offset(recs, n) + HEADER_SIZE <= |d| ==> recs[n].hdr == all[n].hdr)
         && (Offset(recs, n) + HEADER_SIZE + |all[n].key| <= |d| ==> recs[n].key == all[n].key)
  }

  lemma PrefixSlice(d: seq<byte>, e: seq<byte>, off: nat, n: nat)
    requires d <= e && off + n <= |d|
    ensures BytesAt(d, off, n) == e[off..off + n]
  {
    assert d == e[..|d|];
  }

  lemma GoodSize(crc: Checksum, all: seq<Record>, i: nat)
    requires RecordsOk(crc, all) && i < |all|
    ensures Sized(all[i])
    ensures |Serialize(all[i])| == HEADER_SIZE + all[i].hdr.keySize + all[i].hdr.valSize < TWO_TO_THE_32
  {
  }

  /** Reading a header and a key out of the bytes of a record. */
  lemma ReadsRecord(d: seq<byte>, off: nat, r: Record)
    requires off + |Serialize(r)| <= |d| && d[off..off + |Serialize(r)|] == Serialize(r)
    ensures BytesAt(d, off, HEADER_SIZE) == HeaderBytes(r.hdr) && HeaderAt(HeaderBytes(r.hdr), 0) == r.hdr
    ensures BytesAt(d, off + HEADER_SIZE, |r.key|) == r.key
  {
    hide HeaderBytes, HeaderAt, BytesAt;
    var ser, n := Serialize(r), HEADER_SIZE + |r.key|;
    HeaderRoundTrip(r.hdr, []);
    assert HeaderBytes(r.hdr) + [] == HeaderBytes(r.hdr);
    PrefixSlice(d, d, off, HEADER_SIZE);
    PrefixSlice(d, d, off + HEADER_SIZE, |r.key|);
    assert ser == HeaderBytes(r.hdr) + r.key + r.val;
    assert d[off..off + HEADER_SIZE] == d[off..off + |ser|][..HEADER_SIZE] == ser[..HEADER_SIZE];
    assert d[off + HEADER_SIZE..off + n] == d[off..off + |ser|][HEADER_SIZE..n] == ser[HEADER_SIZE..n];
  }

  /** The bytes of a record lie in a prefix as they lie in the whole. */
  lemma InPrefix(d: seq<byte>, e: seq<byte>, off: nat, ser: seq<byte>)
    requires d <= e && off + |ser| <= |d| && e[off..off + |ser|] == ser
    ensures d[off..off + |ser|] == ser
  {
    assert d == e[..|d|];
  }

  /** At a whole record the scan reads its header and its key, and steps to the next one. */
  lemma WholeStep(crc: Checksum, all: seq<Record>, d: seq<byte>, i: nat)
    requires RecordsOk(crc, all) && d <= EncodeAll(all) && i < |all| && Offset(all, i + 1) <= |d|
    ensures var h, off := all[i].hdr, Offset(all, i);
      && BytesAt(d, off, HEADER_SIZE) == HeaderBytes(h) && HeaderAt(HeaderBytes(h), 0) == h
      && BytesAt(d, off + HEADER_SIZE, h.keySize) == all[i].key && |all[i].key| == h.keySize
      && Offset(all, i + 1) == off + HEADER_SIZE + h.keySize + h.valSize
      && |Serialize(all[i])| == HEADER_SIZE + h.keySize + h.valSize < TWO_TO_THE_32
  {
    hide EncodeAll, Offset, HeaderBytes, HeaderAt, BytesAt, Serialize, RecordsOk;
    SliceAt(all, i);
    GoodSize(crc, all, i);
    InPrefix(d, EncodeAll(all), Offset(all, i), Serialize(all[i]));
    ReadsRecord(d, Offset(all, i), all[i]);
  }

  /** The record that a scan believes in where the bytes end. The missing value bytes are never looked at. */
  function CutRecord(d: seq<byte>, off: nat, hdr: Header, key: Text): (r: Record)
    requires |key| == hdr.keySize
    ensures Sized(r) && r.hdr == hdr && r.key == key
  {
    Record(hdr, key, Overlay(seq(hdr.valSize, _ => 0), BytesAt(d, off + HEADER_SIZE + hdr.keySize, hdr.valSize)))
  }

  /** Where the bytes end inside record i. */
  lemma CutStep(crc: Checksum, all: seq<Record>, d: seq<byte>, i: nat, memory: seq<byte>) returns (r: Record)
    requires RecordsOk(crc, all) && d <= EncodeAll(all) && i < |all| && Offset(all, i) < |d| < Offset(all, i + 1)
    requires |memory| == HeaderSeen(all, d, i).keySize
    ensures var hdr := HeaderSeen(all, d, i);
      r == CutRecord(d, Offset(all, i), hdr, Overlay(memory, BytesAt(d, Offset(all, i) + HEADER_SIZE, hdr.keySize)))
    ensures Scanned(all, d, all[..i] + [r]) && CutOff(all[..i] + [r], d)
    ensures Address(0, all[..i] + [r], i).off == Offset(all, i)
  {
    hide EncodeAll, Offset, Overlay, BytesAt, HeaderAt, HeaderBefore, HeaderSeen, CutRecord, Serialize, RecordsOk;
    var off, hdr := Offset(all, i), HeaderSeen(all, d, i);
    var key := Overlay(memory, BytesAt(d, off + HEADER_SIZE, hdr.keySize));
    r := CutRecord(d, off, hdr, key);
    SeenWhole(crc, all, d, i);
    SeenIs(all, d, i);
    CutIsPrefix(d, off, HeaderBefore(all, i), memory, hdr);
    CutEncoding(all, d, i, r);
    assert |all[..i] + [r]| - 1 == i && (all[..i] + [r])[i] == r && (all[..i] + [r])[..i] == all[..i];
    if off + HEADER_SIZE + |all[i].key| <= |d| {
      KeySeen(crc, all, d, i, memory);
    }
  }

  lemma OverlayFull(memory: seq<byte>, read: seq<byte>)
    requires |read| == |memory|
    ensures Overlay(memory, read) == read
  {
  }

  lemma SeenIs(all: seq<Record>, d: seq<byte>, i: nat)
    requires i < |all|
    ensures HeaderSeen(all, d, i) == HeaderAt(Overlay(HeaderBefore(all, i), BytesAt(d, Offset(all, i), HEADER_SIZE)), 0)
  {
  }

  /** A header that is there in full is read in full, and the record behind it is longer than the rest. */
  lemma SeenWhole(crc: Checksum, all: seq<Record>, d: seq<byte>, i: nat)
    requires RecordsOk(crc, all) && d <= EncodeAll(all) && i < |all| && Offset(all, i) < |d| < Offset(all, i + 1)
    ensures var h := HeaderSeen(all, d, i);
      && (Offset(all, i) + HEADER_SIZE <= |d| ==> h == all[i].hdr)
      && |d| - Offset(all, i) < HEADER_SIZE + h.keySize + h.valSize
  {
    hide EncodeAll, Offset, HeaderBytes, HeaderAt, HeaderBefore, HeaderSeen, Serialize, RecordsOk;
    SliceAt(all, i);
    GoodSize(crc, all, i);
    SeenIs(all, d, i);
    if Offset(all, i) + HEADER_SIZE <= |d| {
      ReadsHeader(d, EncodeAll(all), Offset(all, i), all[i]);
      OverlayFull(HeaderBefore(all, i), HeaderBytes(all[i].hdr));
    }
  }

  lemma ReadsHeader(d: seq<byte>, e: seq<byte>, off: nat, r: Record)
    requires d <= e && off + HEADER_SIZE <= |d| && off + |Serialize(r)| <= |e|
    requires e[off..off + |Serialize(r)|] == Serialize(r)
    ensures BytesAt(d, off, HEADER_SIZE) == HeaderBytes(r.hdr) && HeaderAt(HeaderBytes(r.hdr), 0) == r.hdr
  {
    hide HeaderBytes, HeaderAt, BytesAt;
    ReadsRecord(e, off, r);
    PrefixSlice(d, e, off, HEADER_SIZE);
    PrefixSlice(e, e, off, HEADER_SIZE);
  }

  /** A key that is there in full is read in full. */
  lemma KeySeen(crc: Checksum, all: seq<Record>, d: seq<byte>, i: nat, memory: seq<byte>)
    requires RecordsOk(crc, all) && d <= EncodeAll(all) && i < |all|
    requires Offset(all, i) + HEADER_SIZE + |all[i].key| <= |d| && |memory| == all[i].hdr.keySize
    ensures Overlay(memory, BytesAt(d, Offset(all, i) + HEADER_SIZE, all[i].hdr.keySize)) == all[i].key
  {
    hide EncodeAll, Offset, HeaderBytes, BytesAt, Serialize, RecordsOk, Overlay;
    var e, off, n := EncodeAll(all), Offset(all, i) + HEADER_SIZE, |all[i].key|;
    GoodSize(crc, all, i);
    SliceAt(all, i);
    ReadsRecord(e, Offset(all, i), all[i]);
    PrefixSlice(d, e, off, n);
    PrefixSlice(e, e, off, n);
    OverlayFull(memory, all[i].key);
  }

  /** The rest of the bytes is the beginning of the record believed in. */
  lemma CutIsPrefix(d: seq<byte>, off: nat, before: seq<byte>, memory: seq<byte>, hdr: Header)
    requires off < |d| && |before| == HEADER_SIZE && |memory| == hdr.keySize
    requires hdr == HeaderAt(Overlay(before, BytesAt(d, off, HEADER_SIZE)), 0)
    requires |d| - off < HEADER_SIZE + hdr.keySize + hdr.valSize
    ensures var r := CutRecord(d, off, hdr, Overlay(memory, BytesAt(d, off + HEADER_SIZE, hdr.keySize)));
      d[off..] <= Serialize(r) && |Serialize(r)| == HEADER_SIZE + hdr.keySize + hdr.valSize
  {
    var seen := Overlay(before, BytesAt(d, off, HEADER_SIZE));
    var r := CutRecord(d, off, hdr, Overlay(memory, BytesAt(d, off + HEADER_SIZE, hdr.keySize)));
    HeaderBytesOfAt(seen);
    assert seen[..HEADER_SIZE] == seen;
    hide HeaderBytes, HeaderAt;
    var ser := Serialize(r);
    forall j | 0 <= j < |d| - off
      ensures ser[j] == d[off..][j]
    {
      if j < HEADER_SIZE {
        assert ser[j] == seen[j];
      } else if j < HEADER_SIZE + hdr.keySize {
        assert ser[j] == r.key[j - HEADER_SIZE];
      } else {
        assert ser[j] == r.val[j - HEADER_SIZE - hdr.keySize];
      }
    }
  }

  lemma CutEncoding(all: seq<Record>, d: seq<byte>, i: nat, r: Record)
    requires d <= EncodeAll(all) && i < |all| && Offset(all, i) < |d|
    requires d[Offset(all, i)..] <= Serialize(r) && |d| - Offset(all, i) < |Serialize(r)|
    ensures CutOff(all[..i] + [r], d) && Offset(all[..i] + [r], i) == Offset(all, i)
  {
    hide EncodeAll, Serialize;
    var recs, off := all[..i] + [r], Offset(all, i);
    EncodePrefix(all, i);
    EncodeSnoc(all[..i], r);
    assert recs[..i] == all[..i];
    Glue(d, EncodeAll(all), EncodeAll(all[..i]), Serialize(r));
  }

  lemma Glue(d: seq<byte>, e: seq<byte>, front: seq<byte>, ser: seq<byte>)
    requires d <= e && front <= e && |front| < |d| && d[|front|..] <= ser && |d| - |front| < |ser|
    ensures d <= front + ser && |d| < |front + ser|
  {
    assert d[..|front|] == front;
    assert d == front + d[|front|..];
  }

  /** Bytes that end behind record i are the encoding of the first i records. */
  lemma WholeEnd(all: seq<Record>, d: seq<byte>, i: nat)
    requires d <= EncodeAll(all) && i <= |all| && Offset(all, i) == |d|
    ensures d == EncodeAll(all[..i]) && Scanned(all, d, all[..i])
  {
    hide EncodeAll;
    EncodePrefix(all, i);
  }

  lemma AllOffset(all: seq<Record>)
    ensures Offset(all, |all|) == |EncodeAll(all)|
  {
    assert all[..|all|] == all;
  }

  lemma SerializeSize(r: Record)
    ensures |Serialize(r)| == HEADER_SIZE + |r.key| + |r.val|
  {
  }

  /** Before the end of the bytes there is a next record. */
  lemma MoreToScan(all: seq<Record>, d: seq<byte>, i: nat)
    requires d <= EncodeAll(all) && i <= |all| && Offset(all, i) < |d|
    ensures i < |all| && Offset(all, i) + HEADER_SIZE <= Offset(all, i + 1)
  {
    hide EncodeAll, Offset, Serialize;
    AllOffset(all);
    if i < |all| {
      OffsetStep(all, i);
      SerializeSize(all[i]);
    }
  }

  lemma ScannedSound(crc: Checksum, all: seq<Record>, d: seq<byte>, recs: seq<Record>)
    requires RecordsOk(crc, all) && Scanned(all, d, recs)
    ensures RecordsSound(crc, recs, |d| < |EncodeAll(recs)|)
    ensures if |d| < |EncodeAll(recs)| then CutOff(recs, d) else d == EncodeAll(recs)
  {
    hide EncodeAll;
  }

  /** All records are found when all of their bytes are there. */
  lemma ScannedAll(crc: Checksum, all: seq<Record>, recs: seq<Record>)
    requires RecordsOk(crc, all) && Scanned(all, EncodeAll(all), recs)
    ensures recs == all
  {
    hide EncodeAll;
    var d := EncodeAll(all);
    assert all[..|all|] == all;
    if |d| == |EncodeAll(recs)| {
      OffsetMonotone(all, |recs|, |all|);
      assert all[..|recs|] == recs;
    } else {
      var n := |recs| - 1;
      assert recs == recs[..n] + [recs[n]];
      EncodeSnoc(recs[..n], recs[n]);
      OffsetStep(all, n);
      OffsetMonotone(all, n + 1, |all|);
    }
  }
}
