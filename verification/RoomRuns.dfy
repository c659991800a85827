/** Room on flash: what the eviction loop pops, and how much the files hold in every run whose writers
    make room before they write. */
module RoomRuns {
  import opened Arith
  import opened Bytes
  import opened CacheRecord
  import opened Layout
  import opened FileSpec
  import opened FileRuns
  import opened FileReads
  import opened Lru
  import opened FlashSpec
  import opened FlashRefinement
  import opened FlashRuns

  // ---------- What the loop pops ----------

  /** One of these files lists the key. */
  predicate Lists(ids: seq<nat>, items: map<nat, FileState>, key: Text) {
    exists id :: id in ids && id in items && key in KeysOf(items[id].recs)
  }

  /** All but the k most recent files are gone, with every key they list and the bytes they had on flash. */
  function PoppedTo(f: Flash, k: nat): Flash
    requires k <= |f.files.order|
  {
    var gone := f.files.order[k..];
    f.(files := LruState(f.files.order[..k], map id | id in f.files.items && id !in gone :: f.files.items[id]),
       size := f.size - OnFlash(gone, f.files.items),
       index := map key | key in f.index && !Lists(gone, f.files.items, key) :: f.index[key])
  }

  lemma PopNone(f: Flash)
    ensures PoppedTo(f, |f.files.order|) == f
  {
    assert f.files.order[|f.files.order|..] == [];
    assert f.files.order[..|f.files.order|] == f.files.order;
    assert PoppedTo(f, |f.files.order|).index == f.index;
    assert PoppedTo(f, |f.files.order|).files.items == f.files.items;
  }

  /** What is popped behind the last file, and with it. */
  lemma GoneSplit(f: Flash, k: nat)
    requires LruInv(f.files) && k < |f.files.order|
    ensures var n, v := |f.files.order|, Oldest(f.files); var most := f.files.order[..n - 1][k..];
      && v in f.files.items && v !in most && f.files.order[k..] == most + [v]
      && OnFlash(f.files.order[k..], f.files.items)
         == |f.files.items[v].disk| + OnFlash(most, f.files.items - {v})
      && (forall key :: Lists(f.files.order[k..], f.files.items, key)
                        <==> key in KeySet(f.files.items[v]) || Lists(most, f.files.items - {v}, key))
  {
    var n, v := |f.files.order|, Oldest(f.files);
    var gone, most := f.files.order[k..], f.files.order[..n - 1][k..];
    assert gone == most + [v] && gone[..|gone| - 1] == most;
    forall i | 0 <= i < |most|
      ensures most[i] == f.files.order[k + i] && most[i] != v
    {
    }
    OnFlashSame(most, f.files.items, f.files.items - {v});
  }

  lemma OneGone(f: Flash)
    requires LruInv(f.files) && f.files.order != []
    ensures var g, v := EvictOne(f), Oldest(f.files);
      && v in f.files.items && LruInv(g.files) && g.cfg == f.cfg && g.nextId == f.nextId && g.cur == f.cur
      && g.files.order == f.files.order[..|f.files.order| - 1] && g.files.items == f.files.items - {v}
      && g.size == f.size - |f.files.items[v].disk| && g.index == f.index - KeySet(f.files.items[v])
  {
    UseKeepsListed(f.files);
    hide KeySet;
  }

  lemma PopOneMore(f: Flash, k: nat)
    requires LruInv(f.files) && k < |f.files.order|
    ensures k <= |EvictOne(f).files.order| == |f.files.order| - 1
    ensures PoppedTo(EvictOne(f), k) == PoppedTo(f, k)
  {
    hide EvictOne, KeySet, OnFlash, Lists, LruInv, Oldest;
    GoneSplit(f, k);
    OneGone(f);
    var g := EvictOne(f);
    assert g.files.order[..k] == f.files.order[..k];
    assert PoppedTo(g, k).files.items == PoppedTo(f, k).files.items;
    assert PoppedTo(g, k).index == PoppedTo(f, k).index;
  }

  /** The loop pops files from the end of the list, and as few as make the room. */
  lemma {:induction false} EvictPopsFewest(f: Flash, size: nat)
    requires LruInv(f.files) && VictimsOk(f, size)
    ensures var k := |Evict(f, size).files.order|;
      && k <= |f.files.order| && Evict(f, size) == PoppedTo(f, k)
      && (k > 0 ==> size + PoppedTo(f, k).size <= f.cfg.cacheSize)
      && (forall j :: k < j <= |f.files.order| ==> size + PoppedTo(f, j).size > f.cfg.cacheSize)
    decreases |f.files.order|
  {
    PopNone(f);
    hide PoppedTo, EvictOne, Oldest;
    if size + f.size > f.cfg.cacheSize && f.files.order != [] {
      OneGone(f);
      var g, n := EvictOne(f), |f.files.order|;
      EvictPopsFewest(g, size);
      forall j | 0 <= j < n
        ensures j <= |g.files.order| && PoppedTo(g, j) == PoppedTo(f, j)
      {
        PopOneMore(f, j);
      }
    }
  }

  /** g is f with some files popped, just enough of them to make room for size bytes. */
  ghost predicate PopsFewest(f: Flash, g: Flash, size: nat) {
    var k := |g.files.order|;
    && k <= |f.files.order| && g == PoppedTo(f, k) && size + g.size <= f.cfg.cacheSize
    && forall j :: k < j <= |f.files.order| ==> size + PoppedTo(f, j).size > f.cfg.cacheSize
  }

  lemma EvictFewest(crc: Checksum, f: Flash, size: nat)
    requires FlashInv(crc, f) && VictimsOk(f, size)
    ensures PopsFewest(f, Evict(f, size), size)
  {
    ListFacts(crc, f);
    hide StoreInv, LruInv, NoDup, VictimsOk, Evict, PoppedTo;
    EvictMakesRoom(crc, f, size);
    EvictPopsFewest(f, size);
  }

  /** Eviction spares a file that has not been drained. */
  lemma {:induction false} EvictSpares(f: Flash, needed: nat, id: nat)
    requires VictimsOk(f, needed) && id in f.files.items && !f.files.items[id].pc.Exited?
    ensures id in Evict(f, needed).files.items
    ensures Evict(f, needed).files.items[id] == f.files.items[id]
    decreases |f.files.order|
  {
    if needed + f.size > f.cfg.cacheSize && f.files.order != [] {
      EvictSpares(EvictOne(f), needed, id);
    }
  }

  /** The bytes that the writer puts on flash next. */
  ghost function NextPiece(s: FileState): seq<byte> {
    Segment(s.Stream(), s.w, s.doff)
  }

  /** Room has been made in f for a buffer of file id, and the buffer written: the files at the end of the list are
      gone, no more of them than it took, with the keys they list and the bytes they had on flash; the file is
      longer by the buffer; nothing else has changed. */
  ghost predicate Wrote(f: Flash, t: Flash, id: nat, buf: seq<byte>) {
    var k := |t.files.order|;
    && k <= |f.files.order| && t.files.order == f.files.order[..k] && |buf| + t.size <= f.cfg.cacheSize
    && (|buf| + f.size <= f.cfg.cacheSize ==> k == |f.files.order|)
    && (forall j :: k < j <= |f.files.order| ==>
          |buf| + f.size - OnFlash(f.files.order[j..], f.files.items) > f.cfg.cacheSize)
    && t.size == f.size - OnFlash(f.files.order[k..], f.files.items)
    && (forall key :: key in t.index <==> key in f.index && !Lists(f.files.order[k..], f.files.items, key))
    && (forall key :: key in t.index ==> t.index[key] == f.index[key])
    && (forall x :: x in t.files.items <==> x in f.files.items && x !in f.files.order[k..])
    && (forall x :: x in t.files.items && x != id ==> t.files.items[x] == f.files.items[x])
    && id in t.files.items
    && t.files.items[id] == f.files.items[id].(disk := f.files.items[id].disk + buf, doff := f.files.items[id].doff + 1)
    && t.cfg == f.cfg && t.nextId == f.nextId && t.cur == f.cur
  }

  lemma WroteNow(f: Flash, g: Flash, id: nat)
    requires id in f.files.items && id in g.files.items && g.files.items[id] == f.files.items[id]
    requires Enabled(f.files.items[id], Flush) && PopsFewest(f, g, |NextPiece(f.files.items[id])|)
    ensures Wrote(f, FileStep(g, id, Flush), id, NextPiece(f.files.items[id]))
  {
    hide OnFlash, Lists, Segment, FileState.Stream, NumBufs;
    PopNone(f);
    forall j | |g.files.order| < j <= |f.files.order|
      ensures |NextPiece(f.files.items[id])| + f.size - OnFlash(f.files.order[j..], f.files.items) > f.cfg.cacheSize
    {
      assert PoppedTo(f, j).size == f.size - OnFlash(f.files.order[j..], f.files.items);
    }
  }

  // ---------- What the files hold, and will hold ----------

  /** The bytes of a file on flash, with the buffer that its writer has made room for. */
  ghost function Claim(s: FileState, cleared: bool): nat {
    |s.disk| + if cleared && s.buffered then |NextPiece(s)| else 0
  }

  ghost function Claims(order: seq<nat>, items: map<nat, FileState>, cleared: set<nat>): nat
    requires forall id :: id in order ==> id in items
  {
    if order == [] then 0
    else Claim(items[order[0]], order[0] in cleared) + Claims(order[1..], items, cleared)
  }

  lemma {:induction false} ClaimsSame(order: seq<nat>, a: map<nat, FileState>, b: map<nat, FileState>,
                                      c: set<nat>, d: set<nat>)
    requires forall id :: id in order ==>
               id in a && id in b && Claim(a[id], id in c) == Claim(b[id], id in d)
    ensures Claims(order, a, c) == Claims(order, b, d)
  {
    hide Claim;
    if order != [] {
      ClaimsSame(order[1..], a, b, c, d);
    }
  }

  lemma {:induction false} ClaimsWithout(order: seq<nat>, items: map<nat, FileState>, cleared: set<nat>, v: nat)
    requires NoDup(order) && v in order && forall id :: id in order ==> id in items
    ensures Claims(order, items, cleared)
            == Claim(items[v], v in cleared) + Claims(Without(order, v), items, cleared)
  {
    hide Claim;
    if order[0] == v {
      assert v !in order[1..];
      WithoutAbsent(order[1..], v);
      assert Without(order, v) == order[1..];
    } else {
      assert NoDup(order[1..]);
      ClaimsWithout(order[1..], items, cleared, v);
      var rest := Without(order[1..], v);
      assert Without(order, v) == [order[0]] + rest && ([order[0]] + rest)[1..] == rest;
    }
  }

  lemma ClaimsTouch(order: seq<nat>, items: map<nat, FileState>, cleared: set<nat>, v: nat)
    requires NoDup(order) && v in order && forall id :: id in order ==> id in items
    ensures Claims([v] + Without(order, v), items, cleared) == Claims(order, items, cleared)
  {
    hide Claim;
    ClaimsWithout(order, items, cleared, v);
    assert ([v] + Without(order, v))[1..] == Without(order, v);
  }

  lemma ClaimsLast(order: seq<nat>, items: map<nat, FileState>, cleared: set<nat>)
    requires NoDup(order) && order != [] && forall id :: id in order ==> id in items
    ensures var v, rest := order[|order| - 1], order[..|order| - 1];
      Claims(order, items, cleared) == Claim(items[v], v in cleared) + Claims(rest, items, cleared)
  {
    hide Claim, Claims;
    ClaimsWithout(order, items, cleared, order[|order| - 1]);
    WithoutAt(order, |order| - 1);
    assert Without(order, order[|order| - 1]) == order[..|order| - 1];
  }

  lemma {:induction false} ClaimsNothing(order: seq<nat>, items: map<nat, FileState>)
    requires NoDup(order) && forall id :: id in order ==> id in items
    ensures Claims(order, items, {}) == OnFlash(order, items)
    decreases |order|
  {
    if order != [] {
      ClaimsLast(order, items, {});
      ClaimsNothing(order[..|order| - 1], items);
    }
  }

  lemma {:induction false} OnFlashClaimed(order: seq<nat>, items: map<nat, FileState>, cleared: set<nat>)
    requires NoDup(order) && forall id :: id in order ==> id in items
    ensures OnFlash(order, items) <= Claims(order, items, cleared)
    decreases |order|
  {
    if order != [] {
      ClaimsLast(order, items, cleared);
      OnFlashClaimed(order[..|order| - 1], items, cleared);
    }
  }

  /** Every byte that a file holds, or is about to, has been counted when it was appended. */
  lemma ClaimCounted(crc: Checksum, cfg: Config, id: nat, s: FileState, cleared: bool)
    requires FileOk(crc, cfg, id, s)
    ensures Claim(s, cleared) <= Charge(s)
  {
    hide EncodeAll, NumBufs, RecordsSound;
    DiskIsPrefix(s);
    MulMono(s.doff, s.doff + 1, s.w);
    if Reopened(s) {
      assert NextPiece(s) == [];
    }
  }

  lemma {:induction false} ClaimsCounted(crc: Checksum, f: Flash, order: seq<nat>, cleared: set<nat>)
    requires FlashInv(crc, f) && forall id :: id in order ==> id in f.files.items
    ensures Claims(order, f.files.items, cleared) <= Total(order, f.files.items)
    decreases |order|
  {
    hide FileOk, IndexOk, LruInv, Claim, Charge;
    if order != [] {
      ClaimCounted(crc, f.cfg, order[0], f.files.items[order[0]], order[0] in cleared);
      ClaimsCounted(crc, f, order[1..], cleared);
    }
  }

  // ---------- One file ----------

  /** A buffer that the writer has made room for is still the next one, and as long, whatever else happens;
      once written it is on flash. */
  lemma StepKeepsClaim(s: FileState, op: FileOp, cleared: bool)
    requires FileInv(s) && s.buffered && Enabled(s, op) && !op.Put? && (cleared ==> Enabled(s, Flush))
    ensures op.Flush? ==> Claim(Apply(s, op), false) == Claim(s, true)
    ensures !op.Flush? ==> Claim(Apply(s, op), cleared) == Claim(s, cleared)
    ensures !op.Flush? && cleared ==> Enabled(Apply(s, op), Flush)
  {
    hide EncodeAll, NumBufs, Segment, BufferInv, SizeInv;
  }

  lemma TakenKeepsClaim(s: FileState, r: Record, whole: bool, cleared: bool)
    requires FileInv(s) && s.buffered && Enabled(s, Put(r)) && (cleared ==> Enabled(s, Flush))
    ensures var t := Taken(s, r, whole);
      Claim(t, cleared) == Claim(s, cleared) && t.buffered && (cleared ==> Enabled(t, Flush))
  {
    hide EncodeAll, Serialize, Segment;
    EncodeSnoc(s.recs, r);
    var t := Taken(s, r, whole);
    assert t.Stream() == s.Stream() + Serialize(r);
    DivMono(|s.Stream()|, |t.Stream()|, s.w);
    if cleared {
      FullSegment(s.Stream(), s.w, s.doff);
      FullSegment(t.Stream(), s.w, s.doff);
      NumBufsBounds(|t.Stream()|, s.w);
    }
  }

  // ---------- Runs ----------

  /** The cache, and the files whose writers have found room for their next buffer and not written it yet. */
  datatype Room = Room(flash: Flash, cleared: set<nat>)

  /** The test of the eviction loop of the writer of file id, when it ends the loop; or a step of the cache. */
  datatype RoomOp = Fits(id: nat, seen: int) | Do(op: FlashOp)

  /** A writer writes a buffer only after the test has let it. The test reads the account without the lock; what
      it sees may lag behind by the record that an insert has appended and not counted yet. */
  ghost predicate CanStepRoom(g: Room, op: RoomOp, lag: nat) {
    match op
    case Fits(id, seen) =>
      && id in g.flash.files.items && Enabled(g.flash.files.items[id], Flush)
      && g.flash.size - lag <= seen && |NextPiece(g.flash.files.items[id])| + seen <= g.flash.cfg.cacheSize
    case Do(step) => CanStep(g.flash, step) && (step.OpFile? && step.op.Flush? ==> step.id in g.cleared)
  }

  ghost function StepRoom(crc: Checksum, g: Room, op: RoomOp, lag: nat): Room
    requires FlashInv(crc, g.flash) && CanStepRoom(g, op, lag)
  {
    match op
    case Fits(id, _) => g.(cleared := g.cleared + {id})
    case Do(step) =>
      Room(StepFlash(crc, g.flash, step), if step.OpFile? && step.op.Flush? then g.cleared - {step.id} else g.cleared)
  }

  ghost predicate Listed(f: Flash) {
    forall id :: id in f.files.order ==> id in f.files.items
  }

  ghost function Held(f: Flash, cleared: set<nat>): nat
    requires Listed(f)
  {
    Claims(f.files.order, f.files.items, cleared)
  }

  ghost predicate Ready(f: Flash, cleared: set<nat>) {
    forall id :: id in cleared ==> id in f.files.items && Enabled(f.files.items[id], Flush)
  }

  /** The account counts all there is. */
  ghost predicate CountsAll(f: Flash) {
    Listed(f) && Total(f.files.order, f.files.items) <= f.size
  }

  /** What is on flash and what has been cleared for it is bounded. */
  ghost predicate RoomInv(crc: Checksum, g: Room, bound: int) {
    && FlashInv(crc, g.flash) && g.flash.cfg.buffered && Ready(g.flash, g.cleared)
    && CountsAll(g.flash) && Held(g.flash, g.cleared) <= bound
  }

  lemma ListFacts(crc: Checksum, f: Flash)
    requires FlashInv(crc, f)
    ensures LruInv(f.files) && NoDup(f.files.order) && Listed(f)
  {
  }

  lemma FileFacts(crc: Checksum, f: Flash, id: nat)
    requires FlashInv(crc, f) && id in f.files.items
    ensures FileInv(f.files.items[id]) && f.files.items[id].buffered == f.cfg.buffered
  {
  }

  /** One file changes; what it claims does not. */
  lemma SetFileClaims(f: Flash, id: nat, t: FileState, c: set<nat>, d: set<nat>)
    requires Listed(f) && id in f.files.items && Claim(t, id in d) == Claim(f.files.items[id], id in c)
    requires forall x :: x != id ==> (x in c <==> x in d)
    ensures Listed(SetFile(f, id, t)) && Held(SetFile(f, id, t), d) == Held(f, c)
  {
    hide Claim, Claims;
    ClaimsSame(f.files.order, f.files.items, SetFile(f, id, t).files.items, c, d);
  }

  /** The account goes on counting all there is. */
  lemma StepCounts(crc: Checksum, f: Flash, op: FlashOp)
    requires FlashInv(crc, f) && CanStep(f, op) && CountsAll(f)
    ensures var h := StepFlash(crc, f, op); FlashInv(crc, h) && h.cfg == f.cfg && CountsAll(h)
  {
    hide Total, FlashInv, Contents, CanStep, StepFlash, StepDebt;
    StepRefines(crc, f, op);
    StepSize(crc, f, op, f.size - Total(f.files.order, f.files.items));
    StepKeepsConfig(crc, f, op);
  }

  lemma InsertKeepsClaims(crc: Checksum, f: Flash, key: Text, val: Text, whole: bool, cleared: set<nat>)
    requires FlashInv(crc, f) && f.cfg.buffered && Storable(key, val) && CurIdle(f) && Ready(f, cleared) && Listed(f)
    ensures var h := Insert(f, crc, key, val, whole);
      Ready(h, cleared) && Listed(h) && Held(h, cleared) == Held(f, cleared)
  {
    RolledKeepsClaims(crc, f, cleared);
    RolledIsOpen(crc, f);
    OpenHasBuffers(crc, Rolled(f));
    hide FlashInv, Held, Claim, Taken, Contents, Storable, MakeRecord, Rolled, Ready, Listed;
    RecordKeepsClaims(crc, Rolled(f), MakeRecord(crc, key, val), whole, cleared);
  }

  lemma AddClaims(order: seq<nat>, items: map<nat, FileState>, cleared: set<nat>, id: nat, s: FileState)
    requires id !in items && id !in cleared && s.disk == [] && forall x :: x in order ==> x in items
    ensures Claims([id] + order, items[id := s], cleared) == Claims(order, items, cleared)
  {
    assert ([id] + order)[1..] == order;
    ClaimsSame(order, items, items[id := s], cleared, cleared);
  }

  lemma NewFileIs(f: Flash)
    requires f.nextId !in f.files.items
    ensures var g, s := NewCacheFile(f), FreshFile(f.nextId, f.cfg.fileSize, f.cfg.w, f.cfg.buffered);
      g.files == LruState([f.nextId] + f.files.order, f.files.items[f.nextId := s]) && s.disk == []
  {
  }

  lemma RolledKeepsClaims(crc: Checksum, f: Flash, cleared: set<nat>)
    requires FlashInv(crc, f) && Ready(f, cleared) && Listed(f)
    ensures var h := Rolled(f); Ready(h, cleared) && Listed(h) && h.cfg == f.cfg && Held(h, cleared) == Held(f, cleared)
  {
    hide StoreInv, Enabled, Contents, Claims, NewCacheFile;
    RolledIsOpen(crc, f);
    if f.files.items[f.cur].eof {
      NewFileIs(f);
      AddClaims(f.files.order, f.files.items, cleared, f.nextId, NewCacheFile(f).files.items[f.nextId]);
    }
  }

  lemma RecordKeepsClaims(crc: Checksum, f: Flash, r: Record, whole: bool, cleared: set<nat>)
    requires FlashInv(crc, f) && f.cfg.buffered && Ready(f, cleared) && Listed(f)
    requires !f.files.items[f.cur].eof && f.files.items[f.cur].stage.Idle?
    requires f.files.items[f.cur].buffered ==> f.files.items[f.cur].w > 0
    ensures var h := InsertRecord(f, r, whole); Ready(h, cleared) && Listed(h) && Held(h, cleared) == Held(f, cleared)
  {
    hide StoreInv, Held, Claim, Taken, Listed, FileInv, Address, IndexInsert;
    FileFacts(crc, f, f.cur);
    var s := f.files.items[f.cur];
    TakenKeepsClaim(s, r, whole, f.cur in cleared);
    SetFileClaims(f, f.cur, Taken(s, r, whole), cleared, cleared);
    var h := SetFile(f, f.cur, Taken(s, r, whole));
    SameHeld(h, InsertRecord(f, r, whole), cleared);
  }

  lemma SameHeld(f: Flash, g: Flash, cleared: set<nat>)
    requires Listed(f) && g.files == f.files
    ensures Listed(g) && Held(g, cleared) == Held(f, cleared)
  {
  }

  lemma DropClaims(order: seq<nat>, items: map<nat, FileState>, cleared: set<nat>)
    requires NoDup(order) && order != [] && forall id :: id in order ==> id in items
    ensures var v, rest := order[|order| - 1], order[..|order| - 1];
      && (forall id :: id in rest ==> id in items - {v})
      && Claims(rest, items - {v}, cleared) <= Claims(order, items, cleared)
  {
    hide Claim, Claims;
    var v, rest := order[|order| - 1], order[..|order| - 1];
    ClaimsLast(order, items, cleared);
    ClaimsSame(rest, items, items - {v}, cleared, cleared);
  }

  lemma EvictKeepsClaims(f: Flash, cleared: set<nat>)
    requires LruInv(f.files) && NoDup(f.files.order) && Listed(f) && VictimOk(f) && Ready(f, cleared)
    ensures var h := EvictOne(f); Ready(h, cleared) && Listed(h) && Held(h, cleared) <= Held(f, cleared)
  {
    OneGone(f);
    DropClaims(f.files.order, f.files.items, cleared);
    hide LruInv, NoDup, KeySet, Claims, EvictOne;
  }

  lemma FileStepKeepsClaims(crc: Checksum, f: Flash, id: nat, op: FileOp, cleared: set<nat>)
    requires FlashInv(crc, f) && f.cfg.buffered && Ready(f, cleared) && Listed(f)
    requires id in f.files.items && Enabled(f.files.items[id], op) && !op.Put? && (op.Flush? ==> id in cleared)
    ensures var h, after := FileStep(f, id, op), if op.Flush? then cleared - {id} else cleared;
      Ready(h, after) && Listed(h) && Held(h, after) == Held(f, cleared)
  {
    hide FlashInv, Held, Listed, Claim, Apply, Enabled, FileInv;
    FileFacts(crc, f, id);
    var after := if op.Flush? then cleared - {id} else cleared;
    StepKeepsClaim(f.files.items[id], op, id in cleared);
    SetFileClaims(f, id, Apply(f.files.items[id], op), cleared, after);
  }

  lemma LookedKeepsClaims(crc: Checksum, f: Flash, key: Text, cleared: set<nat>)
    requires FlashInv(crc, f) && Ready(f, cleared) && Listed(f)
    ensures var h := Looked(f, key); Ready(h, cleared) && Listed(h) && Held(h, cleared) == Held(f, cleared)
  {
    hide FlashInv, Claims, NoDup, Enabled;
    if key in f.index {
      IndexedIsListed(crc, f, key);
      ClaimsTouch(f.files.order, f.files.items, cleared, f.index[key].cacheId);
    }
  }

  lemma StepKeepsRoom(crc: Checksum, g: Room, op: RoomOp, lag: nat, bound: int)
    requires RoomInv(crc, g, bound) && CanStepRoom(g, op, lag) && g.flash.cfg.cacheSize + lag <= bound
    ensures RoomInv(crc, StepRoom(crc, g, op, lag), bound)
    ensures StepRoom(crc, g, op, lag).flash.cfg == g.flash.cfg
  {
    hide FlashInv, Claims, Total, Enabled;
    var f := g.flash;
    match op
    case Fits(id, seen) =>
      ClaimsCounted(crc, f, f.files.order, g.cleared + {id});
    case Do(step) =>
      StepCounts(crc, f, step);
      match step
      case OpInsert(key, val, whole) => InsertKeepsClaims(crc, f, key, val, whole, g.cleared);
      case OpLookup(key) => LookedKeepsClaims(crc, f, key, g.cleared);
      case OpDelete(key) =>
      case OpFile(id, op) => FileStepKeepsClaims(crc, f, id, op, g.cleared);
      case OpEvict =>
        ListFacts(crc, f);
        EvictKeepsClaims(f, g.cleared);
  }

  lemma StepRoomInv(crc: Checksum, g: Room, op: RoomOp, lag: nat)
    requires FlashInv(crc, g.flash) && CanStepRoom(g, op, lag)
    ensures FlashInv(crc, StepRoom(crc, g, op, lag).flash)
  {
    hide FlashInv, Contents, Enabled;
    if op.Do? {
      StepRefines(crc, g.flash, op.op);
    }
  }

  ghost predicate CanRunRoom(crc: Checksum, g: Room, ops: seq<RoomOp>, lag: nat)
    requires FlashInv(crc, g.flash)
    decreases |ops|
  {
    ops == [] || (CanStepRoom(g, ops[0], lag)
                  && (StepRoomInv(crc, g, ops[0], lag); CanRunRoom(crc, StepRoom(crc, g, ops[0], lag), ops[1..], lag)))
  }

  ghost function RunRoom(crc: Checksum, g: Room, ops: seq<RoomOp>, lag: nat): Room
    requires FlashInv(crc, g.flash) && CanRunRoom(crc, g, ops, lag)
    decreases |ops|
  {
    if ops == [] then g
    else StepRoomInv(crc, g, ops[0], lag); RunRoom(crc, StepRoom(crc, g, ops[0], lag), ops[1..], lag)
  }

  lemma {:induction false} RunKeepsRoom(crc: Checksum, g: Room, ops: seq<RoomOp>, lag: nat, bound: int)
    requires RoomInv(crc, g, bound) && CanRunRoom(crc, g, ops, lag) && g.flash.cfg.cacheSize + lag <= bound
    ensures RoomInv(crc, RunRoom(crc, g, ops, lag), bound) && RunRoom(crc, g, ops, lag).flash.cfg == g.flash.cfg
    decreases |ops|
  {
    hide StoreInv, Ready, CountsAll, Held, CanStepRoom, StepRoom;
    if ops != [] {
      StepKeepsRoom(crc, g, ops[0], lag, bound);
      RunKeepsRoom(crc, StepRoom(crc, g, ops[0], lag), ops[1..], lag, bound);
    }
  }

  /** In every run in which each buffer is written only after the test of its eviction loop has let it, what the
      files hold does not grow beyond what the cache may hold, whatever inserts, evictions and other writers do
      between test and write. If the account that the test reads lags behind, it may, but by no more than that. */
  lemma FlashStaysWithin(crc: Checksum, f: Flash, ops: seq<RoomOp>, lag: nat)
    requires FlashInv(crc, f) && f.cfg.buffered && CountsAll(f) && CanRunRoom(crc, Room(f, {}), ops, lag)
    ensures var t := RunRoom(crc, Room(f, {}), ops, lag).flash; var had := OnFlash(f.files.order, f.files.items);
      OnFlash(t.files.order, t.files.items) <= if had <= f.cfg.cacheSize + lag then f.cfg.cacheSize + lag else had
  {
    hide StoreInv, CanRunRoom, RunRoom, Claims, Total, LruInv, NoDup, OnFlash;
    var g, had := Room(f, {}), OnFlash(f.files.order, f.files.items);
    ListFacts(crc, f);
    ClaimsNothing(f.files.order, f.files.items);
    RunKeepsRoom(crc, g, ops, lag, if had <= f.cfg.cacheSize + lag then f.cfg.cacheSize + lag else had);
    var t := RunRoom(crc, g, ops, lag);
    ListFacts(crc, t.flash);
    OnFlashClaimed(t.flash.files.order, t.flash.files.items, t.cleared);
  }

  /** From an empty directory on, with an account read in full: never more than the cache may hold. */
  lemma NeverTooMuch(crc: Checksum, cfg: Config, ops: seq<RoomOp>)
    requires cfg.buffered && cfg.w > 0
    requires (StartInv(crc, cfg); CanRunRoom(crc, Room(StartFlash(cfg), {}), ops, 0))
    ensures (StartInv(crc, cfg); var t := RunRoom(crc, Room(StartFlash(cfg), {}), ops, 0).flash;
             OnFlash(t.files.order, t.files.items) <= cfg.cacheSize)
  {
    var f := StartFlash(cfg);
    StartInv(crc, cfg);
    assert f.files.order == [0] && f.files.order[..0] == [];
    assert OnFlash(f.files.order, f.files.items) == 0;
    hide StoreInv, CanRunRoom, RunRoom, Total, OnFlash, Contents;
    FlashStaysWithin(crc, f, ops, 0);
  }

  lemma {:induction false} TurnsJoin(crc: Checksum, f: Flash, turns: seq<FlashOp>, h: Flash, c: set<nat>,
                                     ops: seq<RoomOp>)
    requires FlashInv(crc, f) && CanRunFlash(crc, f, turns) && h == RunFlash(crc, f, turns) && FlashInv(crc, h)
    requires forall i :: 0 <= i < |turns| ==> turns[i].OpEvict?
    requires CanRunRoom(crc, Room(h, c), ops, 0)
    ensures CanRunRoom(crc, Room(f, c), Turns(turns) + ops, 0)
    ensures RunRoom(crc, Room(f, c), Turns(turns) + ops, 0) == RunRoom(crc, Room(h, c), ops, 0)
    decreases |turns|
  {
    hide StoreInv, CanStep, StepFlash, Contents;
    if turns == [] {
      assert Turns(turns) + ops == ops;
    } else {
      StepRefines(crc, f, turns[0]);
      TurnsJoin(crc, StepFlash(crc, f, turns[0]), turns[1..], h, c, ops);
      assert (Turns(turns) + ops)[0] == Do(turns[0]);
      assert (Turns(turns) + ops)[1..] == Turns(turns[1..]) + ops;
    }
  }

  function Turns(ops: seq<FlashOp>): (r: seq<RoomOp>)
    ensures |r| == |ops| && forall i :: 0 <= i < |r| ==> r[i] == Do(ops[i])
  {
    seq(|ops|, i requires 0 <= i < |ops| => Do(ops[i]))
  }

  lemma StillDraining(s: FileState)
    requires Enabled(s, Flush)
    ensures !s.pc.Exited?
  {
  }

  /** What a writer does for one buffer: the turns of the loop, its last test, and the write. */
  lemma WriteIsRun(crc: Checksum, f: Flash, id: nat, n: nat) returns (ops: seq<RoomOp>)
    requires FlashInv(crc, f) && id in f.files.items && Enabled(f.files.items[id], Flush)
    requires n == |NextPiece(f.files.items[id])| && VictimsOk(f, n)
    ensures CanRunRoom(crc, Room(f, {}), ops, 0)
    ensures id in Evict(f, n).files.items && Evict(f, n).files.items[id] == f.files.items[id]
    ensures RunRoom(crc, Room(f, {}), ops, 0) == Room(FileStep(Evict(f, n), id, Flush), {})
  {
    hide StoreInv, FileState.Stream, Evict, VictimsOk, Contents, CanRunFlash, RunFlash, Apply, Enabled, NextPiece,
         KeysOf, EvictOne, RunRoom, CanRunRoom, OnFlash, FileStep;
    StillDraining(f.files.items[id]);
    EvictSpares(f, n, id);
    EvictRefines(crc, f, n);
    EvictMakesRoom(crc, f, n);
    var turns := EvictIsTurns(crc, f, n);
    var h := Evict(f, n);
    WriteRuns(crc, h, id);
    TurnsJoin(crc, f, turns, h, {}, [Fits(id, h.size), Do(OpFile(id, Flush))]);
    ops := Turns(turns) + [Fits(id, h.size), Do(OpFile(id, Flush))];
  }

  lemma WriteRuns(crc: Checksum, f: Flash, id: nat)
    requires FlashInv(crc, f) && id in f.files.items && Enabled(f.files.items[id], Flush)
    requires |NextPiece(f.files.items[id])| + f.size <= f.cfg.cacheSize
    ensures var ops := [Fits(id, f.size), Do(OpFile(id, Flush))];
      CanRunRoom(crc, Room(f, {}), ops, 0) && RunRoom(crc, Room(f, {}), ops, 0) == Room(FileStep(f, id, Flush), {})
  {
    hide StoreInv, Enabled, NextPiece, Apply;
    var ops := [Fits(id, f.size), Do(OpFile(id, Flush))];
    assert ops[1..] == [Do(OpFile(id, Flush))] && ops[1..][1..] == [];
    var g := StepRoom(crc, Room(f, {}), ops[0], 0);
    StepRoomInv(crc, Room(f, {}), ops[0], 0);
    StepRoomInv(crc, g, ops[1], 0);
    var h := StepRoom(crc, g, ops[1], 0);
    assert h == Room(FileStep(f, id, Flush), {});
    assert CanRunRoom(crc, h, [], 0) && RunRoom(crc, h, [], 0) == h;
    assert CanRunRoom(crc, g, ops[1..], 0) && RunRoom(crc, g, ops[1..], 0) == h;
  }

  /** Direct mode makes no room: each insert leaves all of its record on flash, on top of all that is there. */
  lemma DirectNeverEvicts(crc: Checksum, f: Flash, key: Text, val: Text)
    requires FlashInv(crc, f) && !f.cfg.buffered && Storable(key, val) && CurIdle(f)
    ensures var g := Insert(f, crc, key, val);
      OnFlash(g.files.order, g.files.items) == OnFlash(f.files.order, f.files.items) + RecordSize(key, val)
  {
    hide StoreInv, Insert, Total, OnFlash, Contents, Storable, LruInv, NoDup, RecordSize;
    var g := Insert(f, crc, key, val);
    ListFacts(crc, f);
    InsertRefines(crc, f, key, val);
    ListFacts(crc, g);
    InsertSize(crc, f, key, val, true, f.size - Total(f.files.order, f.files.items));
    InsertedSize(crc, f, key, val);
    DirectHoldsAll(crc, f, f.files.order);
    DirectHoldsAll(crc, g, g.files.order);
  }

  lemma InsertedSize(crc: Checksum, f: Flash, key: Text, val: Text)
    requires FlashInv(crc, f) && Storable(key, val)
    ensures Insert(f, crc, key, val).cfg == f.cfg && Insert(f, crc, key, val).size == f.size + RecordSize(key, val)
  {
    hide StoreInv, NulFree, Append, Rolled, Contents;
    RolledIsOpen(crc, f);
    var s, r := Rolled(f).files.items[Rolled(f).cur], MakeRecord(crc, key, val);
    SerializeNonempty(r);
    OpenHasBuffers(crc, Rolled(f));
    assert (s.recs + [r])[|s.recs|] == r;
  }

  lemma {:induction false} DirectHoldsAll(crc: Checksum, f: Flash, order: seq<nat>)
    requires FlashInv(crc, f) && !f.cfg.buffered && NoDup(order) && forall id :: id in order ==> id in f.files.items
    ensures OnFlash(order, f.files.items) == Total(order, f.files.items)
    decreases |order|
  {
    if order != [] {
      var v, rest := order[|order| - 1], order[..|order| - 1];
      DirectFile(crc, f, v);
      hide StoreInv, Charge;
      DirectHoldsAll(crc, f, rest);
      TotalEvict(order, f.files.items);
      TotalSame(rest, f.files.items, f.files.items - {v});
    }
  }

  lemma DirectFile(crc: Checksum, f: Flash, id: nat)
    requires FlashInv(crc, f) && !f.cfg.buffered && id in f.files.items
    ensures |f.files.items[id].disk| == Charge(f.files.items[id])
  {
  }
}
