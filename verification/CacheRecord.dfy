/** The on-disk record: a 16-byte header, then the key, then the value. */
module CacheRecord {
  import opened Bytes

  const MAGIC: uint32 := 0xfefa
  const HEADER_SIZE: nat := 16

  datatype Option<+T> = None | Some(value: T)

  datatype Header = Header(magic: uint32, crc: uint32, keySize: uint32, valSize: uint32)

  datatype Record = Record(hdr: Header, key: Text, val: Text)

  /** The checksum of a byte string; any deterministic function will do. */
  type Checksum = seq<byte> -> uint32

  function HeaderBytes(h: Header): (b: seq<byte>)
    ensures |b| == HEADER_SIZE
  {
    U32Bytes(h.magic) + U32Bytes(h.crc) + U32Bytes(h.keySize) + U32Bytes(h.valSize)
  }

  function HeaderAt(b: seq<byte>, i: nat): Header
    requires i + HEADER_SIZE <= |b|
  {
    Header(U32At(b, i), U32At(b, i + 4), U32At(b, i + 8), U32At(b, i + 12))
  }

  lemma HeaderRoundTrip(h: Header, rest: seq<byte>)
    ensures HeaderAt(HeaderBytes(h) + rest, 0) == h
  {
    U32RoundTrip(h.magic);
    U32RoundTrip(h.crc);
    U32RoundTrip(h.keySize);
    U32RoundTrip(h.valSize);
  }

  lemma HeaderBytesOfAt(b: seq<byte>)
    requires HEADER_SIZE <= |b|
    ensures HeaderBytes(HeaderAt(b, 0)) == b[..HEADER_SIZE]
  {
    U32BytesOfAt(b, 0);
    U32BytesOfAt(b, 4);
    U32BytesOfAt(b, 8);
    U32BytesOfAt(b, 12);
    hide U32At, U32Bytes;
    assert b[..HEADER_SIZE] == b[0..4] + b[4..8] + b[8..12] + b[12..16];
  }

  /** The header is covered with its own checksum field zeroed. */
  function ComputeCRC(crc: Checksum, r: Record): uint32 {
    crc(HeaderBytes(r.hdr.(crc := 0)) + r.key + r.val)
  }

  /** Size of the record in the file, before truncation to 32 bits. */
  function RecordSize(key: Text, val: Text): nat {
    HEADER_SIZE + |key| + |val|
  }

  /** A key and value the flash layer is handed: NUL-free C strings whose record fits 32 bits. */
  predicate Storable(key: Text, val: Text) {
    NulFree(key) && NulFree(val) && RecordSize(key, val) < TWO_TO_THE_32
  }

  /** The constructor CacheRecord(key, val). */
  function MakeRecord(crc: Checksum, key: Text, val: Text): (r: Record)
    requires RecordSize(key, val) < TWO_TO_THE_32
  {
    var r := Record(Header(MAGIC, 0, |key|, |val|), key, val);
    r.(hdr := r.hdr.(crc := ComputeCRC(crc, r)))
  }

  /** The bytes that the three Append calls of Serialize emit. */
  function Serialize(r: Record): seq<byte> {
    HeaderBytes(r.hdr) + r.key + r.val
  }

  function Deserialize(crc: Checksum, data: seq<byte>): Option<Record> {
    if |data| < HEADER_SIZE then None else
    var hdr := HeaderAt(data, 0);
    if hdr.keySize + hdr.valSize + HEADER_SIZE != |data| then None else
    var key := CStr(data[HEADER_SIZE..], hdr.keySize);
    var val := CStr(data[HEADER_SIZE + hdr.keySize..], hdr.valSize);
    var r := Record(hdr, key, val);
    if hdr.magic == MAGIC && ComputeCRC(crc, r) == hdr.crc then Some(r) else None
  }

  /** A written record is read back exactly when it holds no NUL. */
  lemma DeserializeSerialize(crc: Checksum, key: Text, val: Text)
    requires RecordSize(key, val) < TWO_TO_THE_32
    ensures Deserialize(crc, Serialize(MakeRecord(crc, key, val))) == Some(MakeRecord(crc, key, val))
            <==> NulFree(key) && NulFree(val)
  {
    hide CStr, U32At, U32Bytes, HeaderAt;
    var r := MakeRecord(crc, key, val);
    var d := Serialize(r);
    HeaderRoundTrip(r.hdr, key + val);
    assert d == HeaderBytes(r.hdr) + (key + val);
    assert d[HEADER_SIZE..] == key + val;
    assert d[HEADER_SIZE + |key|..] == val;
    CStrWhole(d[HEADER_SIZE..], |key|);
    CStrWhole(val, |val|);
    assert (key + val)[..|key|] == key && val[..|val|] == val;
  }

  /** Cutting key and value out of a body as C strings loses nothing exactly when the body has no NUL. */
  lemma CutBody(body: seq<byte>, keySize: nat, valSize: nat)
    requires |body| == keySize + valSize
    ensures var key, val := CStr(body, keySize), CStr(body[keySize..], valSize);
      if NulFree(body) then key + val == body && |key| == keySize else |key| + |val| < |body|
  {
    hide CStr;
    var front, tail := body[..keySize], body[keySize..];
    CStrWhole(body, keySize);
    CStrWhole(tail, valSize);
    assert tail[..valSize] == tail && body == front + tail;
    if !NulFree(body) {
      var i :| 0 <= i < |body| && body[i] == 0;
      assert if i < keySize then front[i] == 0 else tail[i - keySize] == 0;
    }
  }

  // ---------- Byte by byte ----------

  /** Where everything lies in a written record: the magic, the sizes, least byte first, the key and the value. */
  lemma RecordLayout(crc: Checksum, key: Text, val: Text)
    requires RecordSize(key, val) < TWO_TO_THE_32
    ensures var d := Serialize(MakeRecord(crc, key, val));
      && |d| == 16 + |key| + |val| && d[16..16 + |key|] == key && d[16 + |key|..] == val
      && d[..4] == [0xfa, 0xfe, 0, 0]
      && (d[8] as int) + 0x100 * (d[9] as int) + 0x1_0000 * (d[10] as int) + 0x100_0000 * (d[11] as int) == |key|
      && (d[12] as int) + 0x100 * (d[13] as int) + 0x1_0000 * (d[14] as int) + 0x100_0000 * (d[15] as int) == |val|
  {
    var r := MakeRecord(crc, key, val);
    var d := Serialize(r);
    U32RoundTrip(|key|);
    U32RoundTrip(|val|);
    assert d[..4] == U32Bytes(0xfefa);
    assert d[8..12] == U32Bytes(|key|) && d[12..16] == U32Bytes(|val|);
    assert d[8] == d[8..12][0] && d[9] == d[8..12][1] && d[10] == d[8..12][2] && d[11] == d[8..12][3];
    assert d[12] == d[12..16][0] && d[13] == d[12..16][1] && d[14] == d[12..16][2] && d[15] == d[12..16][3];
    assert d == HeaderBytes(r.hdr) + (key + val);
    assert d[16..] == key + val;
  }

  /** The bytes with the checksum field zeroed. */
  function Zeroed(data: seq<byte>): seq<byte>
    requires 8 <= |data|
  {
    data[..4] + [0, 0, 0, 0] + data[8..]
  }

  lemma ZeroedHeader(h: Header, body: seq<byte>)
    ensures Zeroed(HeaderBytes(h) + body) == HeaderBytes(h.(crc := 0)) + body
  {
    assert U32Bytes(0) == [0, 0, 0, 0];
    hide U32Bytes;
    var d := HeaderBytes(h) + body;
    assert d[..4] == U32Bytes(h.magic);
    assert d[8..] == U32Bytes(h.keySize) + U32Bytes(h.valSize) + body;
  }

  /** The stored checksum covers every other byte of the record. */
  lemma RecordChecksum(crc: Checksum, key: Text, val: Text)
    requires RecordSize(key, val) < TWO_TO_THE_32
    ensures var d := Serialize(MakeRecord(crc, key, val)); U32At(d, 4) == crc(Zeroed(d))
  {
    var r := MakeRecord(crc, key, val);
    HeaderRoundTrip(r.hdr, key + val);
    ZeroedHeader(r.hdr, key + val);
    hide U32At, U32Bytes, HeaderBytes;
    assert Serialize(r) == HeaderBytes(r.hdr) + (key + val);
    assert HeaderBytes(r.hdr.(crc := 0)) + (key + val) == HeaderBytes(r.hdr.(crc := 0)) + key + val;
  }

  /** What is accepted: the sizes add up, the magic is right, and the stored checksum is that of all other
      bytes; of a key or value with a NUL in it, of the bytes before that. */
  lemma AcceptedExactly(crc: Checksum, data: seq<byte>)
    ensures Deserialize(crc, data).Some? <==>
      && 16 <= |data| == 16 + U32At(data, 8) + U32At(data, 12)
      && U32At(data, 0) == 0xfefa
      && U32At(data, 4) == crc(Zeroed(data[..16] + CStr(data[16..], U32At(data, 8))
                                      + CStr(data[16 + U32At(data, 8)..], U32At(data, 12))))
    ensures 16 <= |data| && NulFree(data[16..]) ==> (Deserialize(crc, data).Some? <==>
      && |data| == 16 + U32At(data, 8) + U32At(data, 12)
      && U32At(data, 0) == 0xfefa
      && U32At(data, 4) == crc(Zeroed(data)))
  {
    hide CStr, U32At, U32Bytes, HeaderBytes;
    if 16 <= |data| == 16 + U32At(data, 8) + U32At(data, 12) {
      var hdr := HeaderAt(data, 0);
      var body := data[16..];
      var key, val := CStr(body, hdr.keySize), CStr(data[16 + hdr.keySize..], hdr.valSize);
      HeaderBytesOfAt(data);
      ZeroedHeader(hdr, key + val);
      assert data[..16] + key + val == HeaderBytes(hdr) + (key + val);
      assert HeaderBytes(hdr.(crc := 0)) + (key + val) == HeaderBytes(hdr.(crc := 0)) + key + val;
      assert data[16 + hdr.keySize..] == body[hdr.keySize..];
      CutBody(body, hdr.keySize, hdr.valSize);
      if NulFree(body) {
        assert data[..16] + key + val == data[..16] + (key + val) == data;
      }
    }
  }

  /** Re-serialising an accepted record restores the accepted bytes exactly when
      the bytes behind the header hold no NUL; the record is then the one that
      MakeRecord builds from its key and value. */
  lemma SerializeDeserialize(crc: Checksum, data: seq<byte>)
    requires Deserialize(crc, data).Some? && |data| < TWO_TO_THE_32
    ensures var r := Deserialize(crc, data).value;
      && (Serialize(r) == data <==> NulFree(data[HEADER_SIZE..]))
      && (Serialize(r) == data ==> NulFree(r.key) && NulFree(r.val) && r == MakeRecord(crc, r.key, r.val))
  {
    hide CStr, U32At, U32Bytes, HeaderAt, HeaderBytes;
    var hdr := HeaderAt(data, 0);
    var r := Deserialize(crc, data).value;
    var body := data[HEADER_SIZE..];
    assert data[HEADER_SIZE + hdr.keySize..] == body[hdr.keySize..];
    HeaderBytesOfAt(data);
    CutBody(body, hdr.keySize, hdr.valSize);
    assert data == HeaderBytes(hdr) + body;
    assert Serialize(r) == HeaderBytes(hdr) + (r.key + r.val);
    if NulFree(body) {
      assert hdr == Header(MAGIC, hdr.crc, |r.key|, |r.val|);
    }
  }
}
