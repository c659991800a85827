/** The flash cache as a value: its files, the recency list of files, the key index and the
    size account; and the operations on it. */
module FlashSpec {
  import opened Bytes
  import opened CacheRecord
  import opened Layout
  import opened FileSpec
  import opened FileReads
  import opened Lru

  datatype Config = Config(cacheSize: nat, fileSize: nat, w: nat, buffered: bool)

  datatype Flash = Flash(
    cfg: Config,
    files: LruState<nat, FileState>,
    index: map<Text, LBA>,
    size: int,
    nextId: nat,
    cur: nat)

  function EmptyFlash(cfg: Config): Flash {
    Flash(cfg, LruState([], map[]), map[], 0, 0, 0)
  }

  // ---------- Operations ----------

  function NewCacheFile(f: Flash): Flash {
    var s := FreshFile(f.nextId, f.cfg.fileSize, f.cfg.w, f.cfg.buffered);
    f.(files := LruInsert(f.files, f.nextId, s), cur := f.nextId, nextId := f.nextId + 1)
  }

  /** The file that the next record goes to; a full one is replaced by a new one. */
  function Rolled(f: Flash): Flash
    requires f.cur in f.files.items
  {
    if f.files.items[f.cur].eof then NewCacheFile(f) else f
  }

  function SetFile(f: Flash, id: nat, s: FileState): Flash {
    f.(files := f.files.(items := f.files.items[id := s]))
  }

  /** No append to the file being written is under way. */
  predicate CurIdle(f: Flash)
    requires f.cur in f.files.items
  {
    f.files.items[f.cur].stage.Idle?
  }

  /** A file with one more record: after the whole of Append, or with Append just begun. */
  function Taken(s: FileState, r: Record, whole: bool): FileState
    requires s.buffered ==> s.w > 0
  {
    if whole || !s.buffered then Append(s, r) else s.(recs := s.recs + [r], stage := Putting)
  }

  function InsertRecord(f: Flash, r: Record, whole: bool): Flash
    requires f.cur in f.files.items
    requires f.files.items[f.cur].buffered ==> f.files.items[f.cur].w > 0
  {
    var s := f.files.items[f.cur];
    var lba := Address(f.cur, s.recs + [r], |s.recs|);
    SetFile(f, f.cur, Taken(s, r, whole)).(size := f.size + lba.size, index := IndexInsert(f.index, r.key, lba))
  }

  /** Insert, with its append all done, or with the rest of it still to come as steps of the file. */
  function Insert(f: Flash, crc: Checksum, key: Text, val: Text, whole: bool := true): Flash
    requires FlashInv(crc, f) && Storable(key, val)
  {
    InsertRecord(Rolled(f), MakeRecord(crc, key, val), whole)
  }

  function DeleteKey(f: Flash, key: Text): Flash {
    f.(index := f.index - {key})
  }

  function SetOf(keys: seq<Text>): set<Text> {
    set k | k in keys
  }

  function KeySet(s: FileState): set<Text> {
    SetOf(KeysOf(s.recs))
  }

  /** One turn of the loop of Evict. (The source would not survive popping an empty list.) */
  function EvictOne(f: Flash): Flash {
    if f.files.order == [] || Oldest(f.files) !in f.files.items then f else
    var v := Oldest(f.files);
    var s := f.files.items[v];
    f.(files := LruErase(LruEvict(f.files), v), size := f.size - |s.disk|, index := f.index - KeySet(s))
  }

  /** The loop of Evict: make room for size bytes. */
  function Evict(f: Flash, size: nat): Flash
    decreases |f.files.order|
  {
    if size + f.size <= f.cfg.cacheSize || f.files.order == [] || Oldest(f.files) !in f.files.items then f
    else Evict(EvictOne(f), size)
  }

  /** A step of the writer of file id, or of an append to it or its closing. */
  function FileStep(f: Flash, id: nat, op: FileOp): Flash
    requires id in f.files.items && Enabled(f.files.items[id], op)
  {
    SetFile(f, id, Apply(f.files.items[id], op))
  }

  // ---------- Invariant ----------

  ghost predicate FileOk(crc: Checksum, cfg: Config, id: nat, s: FileState) {
    && s.id == id && s.buffered == cfg.buffered
    && FileInv(s) && RecordsSound(crc, s.recs, s.cut)
    && (Reopened(s) || (s.w == cfg.w && s.maxSize == cfg.fileSize))
  }

  /** lba is the address under which file s got a record with this key. */
  ghost predicate Issued(s: FileState, key: Text, lba: LBA) {
    exists i :: 0 <= i < |s.recs| && s.recs[i].key == key && lba == Address(s.id, s.recs, i)
  }

  /** Every indexed key names a live file, at the address of one of that file's records, for that key. */
  ghost predicate IndexOk(items: map<nat, FileState>, index: map<Text, LBA>) {
    forall k :: k in index ==> index[k].cacheId in items && Issued(items[index[k].cacheId], k, index[k])
  }

  ghost predicate FilesOk(crc: Checksum, cfg: Config, files: LruState<nat, FileState>, nextId: nat) {
    && LruInv(files) && (forall id :: id in files.items ==> id in files.order)
    && (forall id :: id in files.items ==> id < nextId && FileOk(crc, cfg, id, files.items[id]))
  }

  /** The invariant of files and index. */
  ghost predicate StoreInv(crc: Checksum, f: Flash) {
    && (f.cfg.buffered ==> f.cfg.w > 0)
    && FilesOk(crc, f.cfg, f.files, f.nextId) && IndexOk(f.files.items, f.index)
  }

  ghost predicate FlashInv(crc: Checksum, f: Flash) {
    StoreInv(crc, f) && f.cur in f.files.items
  }

  // ---------- What the cache stores ----------

  /** The value part of the bytes at an address. */
  function ValueAt(stream: seq<byte>, key: Text, lba: LBA): Text
    requires lba.off + HEADER_SIZE + |key| <= lba.off + lba.size <= |stream|
  {
    stream[lba.off + HEADER_SIZE + |key|..lba.off + lba.size]
  }

  predicate InRange(f: Flash, k: Text)
    requires k in f.index
  {
    var lba := f.index[k];
    lba.cacheId in f.files.items
    && lba.off + HEADER_SIZE + |k| <= lba.off + lba.size <= |f.files.items[lba.cacheId].Stream()|
  }

  /** The value appended at the address that k is indexed with. */
  function Shown(f: Flash, k: Text): Text
    requires k in f.index && InRange(f, k)
  {
    ValueAt(f.files.items[f.index[k].cacheId].Stream(), k, f.index[k])
  }

  /** The map that the cache stands for. */
  function Contents(f: Flash): map<Text, Text> {
    map k | k in f.index && InRange(f, k) :: Shown(f, k)
  }

  /** The bytes under k can still be fetched: from buffers, or from a file that holds them all. */
  predicate Retained(f: Flash, k: Text)
    requires k in f.index && f.index[k].cacheId in f.files.items
  {
    var s := f.files.items[f.index[k].cacheId];
    s.Closed() ==> f.index[k].off + f.index[k].size <= |s.disk|
  }

  /** The value Lookup returns: a failed read is not noticed and gives the empty string. */
  function Lookup(f: Flash, crc: Checksum, key: Text): Option<Text>
    requires key in f.index ==> InRange(f, key)
  {
    if key !in f.index then None else
    match Read(crc, f.files.items[f.index[key].cacheId], f.index[key])
    case Some(r) => Some(r.val)
    case None => Some([])
  }

  /** The state Lookup leaves: the file asked moves to the front. */
  function Looked(f: Flash, key: Text): Flash {
    if key in f.index then f.(files := LruTouch(f.files, f.index[key].cacheId)) else f
  }
}
