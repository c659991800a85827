/** How records lie in a cache file: one after the other, from offset 0. */
module Layout {
  import opened Bytes
  import opened CacheRecord

  /** Logical block address of a record. */
  datatype LBA = LBA(cacheId: nat, off: nat, size: nat)

  function EncodeAll(recs: seq<Record>): seq<byte> {
    if recs == [] then [] else EncodeAll(recs[..|recs| - 1]) + Serialize(recs[|recs| - 1])
  }

  function Offset(recs: seq<Record>, i: nat): nat
    requires i <= |recs|
  {
    |EncodeAll(recs[..i])|
  }

  /** The address Append hands out for the i-th record of a file. */
  function Address(id: nat, recs: seq<Record>, i: nat): LBA
    requires i < |recs|
  {
    LBA(id, Offset(recs, i), |Serialize(recs[i])|)
  }

  function KeysOf(recs: seq<Record>): (keys: seq<Text>)
    ensures |keys| == |recs|
    ensures forall i :: 0 <= i < |recs| ==> keys[i] == recs[i].key
  {
    seq(|recs|, i requires 0 <= i < |recs| => recs[i].key)
  }

  /** Every record was built by MakeRecord from a NUL-free key and value. */
  ghost predicate RecordsOk(crc: Checksum, recs: seq<Record>) {
    forall i :: 0 <= i < |recs| ==> Storable(recs[i].key, recs[i].val)
                                    && recs[i] == MakeRecord(crc, recs[i].key, recs[i].val)
  }

  /** The header tells the sizes of key and value, whatever these are. */
  predicate Sized(r: Record) {
    r.hdr.keySize == |r.key| && r.hdr.valSize == |r.val|
  }

  /** The bytes end inside the last of these records. */
  predicate CutOff(recs: seq<Record>, bytes: seq<byte>) {
    recs != [] && bytes <= EncodeAll(recs) && Offset(recs, |recs| - 1) < |bytes| < |EncodeAll(recs)|
  }

  /** Of a file that ends inside its last record, all before that one are as MakeRecord built them. */
  ghost predicate RecordsSound(crc: Checksum, recs: seq<Record>, cut: bool) {
    if cut then recs != [] && RecordsOk(crc, recs[..|recs| - 1]) && Sized(recs[|recs| - 1])
    else RecordsOk(crc, recs)
  }

  lemma EncodeSnoc(recs: seq<Record>, r: Record)
    ensures EncodeAll(recs + [r]) == EncodeAll(recs) + Serialize(r)
  {
    assert (recs + [r])[..|recs|] == recs;
  }

  lemma {:induction false} EncodePrefix(recs: seq<Record>, i: nat)
    requires i <= |recs|
    ensures EncodeAll(recs[..i]) <= EncodeAll(recs)
    decreases |recs|
  {
    if i == |recs| {
      assert recs[..i] == recs;
    } else {
      var front := recs[..|recs| - 1];
      EncodePrefix(front, i);
      assert front[..i] == recs[..i];
    }
  }

  lemma OffsetStep(recs: seq<Record>, i: nat)
    requires i < |recs|
    ensures Offset(recs, i + 1) == Offset(recs, i) + |Serialize(recs[i])|
  {
    assert recs[..i + 1] == recs[..i] + [recs[i]];
    EncodeSnoc(recs[..i], recs[i]);
  }

  /** Appending a record moves no earlier one. */
  lemma OffsetAppend(recs: seq<Record>, r: Record, i: nat)
    requires i <= |recs|
    ensures Offset(recs + [r], i) == Offset(recs, i)
    ensures i < |recs| ==> (recs + [r])[i] == recs[i]
  {
    assert (recs + [r])[..i] == recs[..i];
  }

  /** The i-th address names exactly the bytes of the i-th record. */
  lemma SliceAt(recs: seq<Record>, i: nat)
    requires i < |recs|
    ensures Offset(recs, i) + |Serialize(recs[i])| == Offset(recs, i + 1) <= |EncodeAll(recs)|
    ensures EncodeAll(recs)[Offset(recs, i)..Offset(recs, i) + |Serialize(recs[i])|] == Serialize(recs[i])
  {
    OffsetStep(recs, i);
    EncodePrefix(recs, i + 1);
    assert recs[..i + 1] == recs[..i] + [recs[i]];
    EncodeSnoc(recs[..i], recs[i]);
    var off, n := Offset(recs, i), |Serialize(recs[i])|;
    assert EncodeAll(recs)[..off + n] == EncodeAll(recs[..i]) + Serialize(recs[i]);
    assert EncodeAll(recs)[off..off + n] == EncodeAll(recs)[..off + n][off..];
  }

  lemma {:induction false} OffsetMonotone(recs: seq<Record>, i: nat, j: nat)
    requires i <= j <= |recs|
    ensures Offset(recs, i) + HEADER_SIZE * (j - i) <= Offset(recs, j)
    decreases j
  {
    if i < j {
      OffsetMonotone(recs, i, j - 1);
      OffsetStep(recs, j - 1);
    }
  }

  /** The addresses of a file partition [0, size): every byte lies in exactly one record. */
  lemma {:induction false} AddressesPartition(id: nat, recs: seq<Record>, p: nat)
    requires p < |EncodeAll(recs)|
    ensures exists i :: 0 <= i < |recs|
              && Address(id, recs, i).off <= p < Address(id, recs, i).off + Address(id, recs, i).size
    ensures forall i, j :: 0 <= i < |recs| && 0 <= j < |recs|
              && Address(id, recs, i).off <= p < Address(id, recs, i).off + Address(id, recs, i).size
              && Address(id, recs, j).off <= p < Address(id, recs, j).off + Address(id, recs, j).size
              ==> i == j
  {
    assert recs[..|recs|] == recs;
    var i := FindRecord(recs, p, |recs|);
    assert Address(id, recs, i).off <= p;
    forall i, j | 0 <= i < j < |recs|
      ensures Address(id, recs, i).off + Address(id, recs, i).size <= Address(id, recs, j).off
    {
      OffsetStep(recs, i);
      OffsetMonotone(recs, i + 1, j);
    }
  }

  lemma {:induction false} FindRecord(recs: seq<Record>, p: nat, n: nat) returns (i: nat)
    requires n <= |recs| && p < Offset(recs, n)
    ensures i < n && Offset(recs, i) <= p < Offset(recs, i) + |Serialize(recs[i])|
    decreases n
  {
    OffsetStep(recs, n - 1);
    if Offset(recs, n - 1) <= p {
      i := n - 1;
    } else {
      i := FindRecord(recs, p, n - 1);
    }
  }

  /** unordered_map::insert: keep the entry that is there. */
  function IndexInsert(index: map<Text, LBA>, key: Text, lba: LBA): map<Text, LBA> {
    if key in index then index else index[key := lba]
  }

  /** The index after the first n records of a file have been inserted, in file order. */
  function IndexRecords(index: map<Text, LBA>, id: nat, recs: seq<Record>, n: nat): map<Text, LBA>
    requires n <= |recs|
  {
    if n == 0 then index
    else IndexInsert(IndexRecords(index, id, recs, n - 1), recs[n - 1].key, Address(id, recs, n - 1))
  }

  /** Indexing a file depends on no record behind the first n. */
  lemma {:induction false} IndexRecordsPrefix(index: map<Text, LBA>, id: nat, recs: seq<Record>, r: Record, n: nat)
    requires n <= |recs|
    ensures IndexRecords(index, id, recs + [r], n) == IndexRecords(index, id, recs, n)
    decreases n
  {
    if n > 0 {
      IndexRecordsPrefix(index, id, recs, r, n - 1);
      OffsetAppend(recs, r, n - 1);
    }
  }
}
