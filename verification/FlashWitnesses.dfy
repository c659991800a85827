/** Short runs of the flash cache in which the code does not do what one would expect. */
module FlashWitnesses {
  import opened Arith
  import opened Bytes
  import opened CacheRecord
  import opened Layout
  import opened FileSpec
  import opened Lru
  import opened FlashSpec
  import opened FlashRefinement
  import opened FlashRuns
  import opened Recovery
  import opened FirstWins
  import opened Scan
  import opened Restart
  import opened Forgetting
  import opened FileWitnesses

  // ---------- Runs of a cache of one file ----------

  /** A key and a value of one byte each. */
  predicate One(k: Text, v: Text) {
    |k| == |v| == 1 && Storable(k, v)
  }

  lemma SomeAreOne()
    ensures One([65], [66]) && One([67], [68]) && One([69], [70])
  {
  }

  lemma OneSize(crc: Checksum, k: Text, v: Text)
    requires One(k, v)
    ensures var r := MakeRecord(crc, k, v); |Serialize(r)| == 18 && r.key == k && r.val == v
  {
  }

  function Small(): Config {
    Config(60, 30, 16, true)
  }

  /** A cache of one file. */
  function Single(cfg: Config, s: FileState, index: map<Text, LBA>, size: int): Flash {
    Flash(cfg, LruState([0], map[0 := s]), index, size, 1, 0)
  }

  lemma StartSingle(cfg: Config)
    ensures StartFlash(cfg) == Single(cfg, FreshFile(0, cfg.fileSize, cfg.w, cfg.buffered), map[], 0)
  {
  }

  lemma InsertSingle(crc: Checksum, cfg: Config, s: FileState, index: map<Text, LBA>, size: int, k: Text, v: Text)
    requires One(k, v) && !s.eof && FlashInv(crc, Single(cfg, s, index, size))
    ensures (s.buffered ==> s.w > 0)
    ensures var r := MakeRecord(crc, k, v);
      Insert(Single(cfg, s, index, size), crc, k, v) ==
      Single(cfg, Append(s, r), IndexInsert(index, k, Address(0, s.recs + [r], |s.recs|)), size + 18)
  {
    OneSize(crc, k, v);
    OpenHasBuffers(crc, Single(cfg, s, index, size));
    hide StoreInv, Append, Serialize, IndexInsert, EncodeAll;
    assert map[0 := s][0 := Append(s, MakeRecord(crc, k, v))] == map[0 := Append(s, MakeRecord(crc, k, v))];
    assert (s.recs + [MakeRecord(crc, k, v)])[|s.recs|] == MakeRecord(crc, k, v);
  }

  function Lift(id: nat, ops: seq<FileOp>): seq<FlashOp> {
    if ops == [] then [] else [OpFile(id, ops[0])] + Lift(id, ops[1..])
  }

  /** A run of one file is a run of the cache. */
  lemma {:induction false} RunLift(crc: Checksum, f: Flash, id: nat, ops: seq<FileOp>, m: map<Text, Text>)
    requires FlashInv(crc, f) && id in f.files.items && CanRun(f.files.items[id], ops)
    requires forall i :: 0 <= i < |ops| ==> !ops[i].Put?
    ensures CanRunFlash(crc, f, Lift(id, ops))
    ensures RunFlash(crc, f, Lift(id, ops)) == SetFile(f, id, Run(f.files.items[id], ops))
    ensures RunMap(crc, m, f, Lift(id, ops)) == m && RunDebt(crc, f, Lift(id, ops)) == 0
    decreases |ops|
  {
    hide StoreInv, Apply, Enabled, Contents;
    if ops == [] {
      assert f.files.items[id := f.files.items[id]] == f.files.items;
    } else {
      var op, s := OpFile(id, ops[0]), f.files.items[id];
      var g := StepFlash(crc, f, op);
      assert g == SetFile(f, id, Apply(s, ops[0]));
      StepRefines(crc, f, op);
      RunLift(crc, g, id, ops[1..], m);
      RunFlashFirst(crc, f, op, Lift(id, ops[1..]), m);
      SetTwice(f, id, Apply(s, ops[0]), Run(s, ops));
    }
  }

  lemma SetTwice(f: Flash, id: nat, s: FileState, t: FileState)
    ensures SetFile(SetFile(f, id, s), id, t) == SetFile(f, id, t)
  {
    assert f.files.items[id := s][id := t] == f.files.items[id := t];
  }

  lemma SetSingle(cfg: Config, s: FileState, t: FileState, index: map<Text, LBA>, size: int)
    ensures SetFile(Single(cfg, s, index, size), 0, t) == Single(cfg, t, index, size)
  {
    assert map[0 := s][0 := t] == map[0 := t];
  }

  lemma RunFlashFirst(crc: Checksum, f: Flash, op: FlashOp, ops: seq<FlashOp>, m: map<Text, Text>)
    requires FlashInv(crc, f) && CanStep(f, op)
    requires (StepRefines(crc, f, op); CanRunFlash(crc, StepFlash(crc, f, op), ops))
    ensures CanRunFlash(crc, f, [op] + ops)
    ensures (StepRefines(crc, f, op);
      var g := StepFlash(crc, f, op);
      && RunFlash(crc, f, [op] + ops) == RunFlash(crc, g, ops)
      && RunMap(crc, m, f, [op] + ops) == RunMap(crc, StepMap(m, f, op), g, ops)
      && RunDebt(crc, f, [op] + ops) == StepDebt(f, op) + RunDebt(crc, g, ops))
  {
    hide StoreInv, CanStep, StepFlash, StepMap, StepDebt, Contents;
    assert ([op] + ops)[1..] == ops;
    StepRefines(crc, f, op);
  }

  lemma {:induction false} DebtJoin(crc: Checksum, f: Flash, a: seq<FlashOp>, b: seq<FlashOp>)
    requires FlashInv(crc, f) && CanRunFlash(crc, f, a)
    requires (RunRefines(crc, f, a); CanRunFlash(crc, RunFlash(crc, f, a), b))
    ensures (RunRefines(crc, f, a); RunFlashJoin(crc, f, a, b);
      RunDebt(crc, f, a + b) == RunDebt(crc, f, a) + RunDebt(crc, RunFlash(crc, f, a), b))
    decreases |a|
  {
    hide StoreInv, CanStep, StepFlash, StepDebt, Contents;
    RunRefines(crc, f, a);
    RunFlashJoin(crc, f, a, b);
    if a == [] {
      assert a + b == b;
    } else {
      StepRefines(crc, f, a[0]);
      DebtJoin(crc, StepFlash(crc, f, a[0]), a[1..], b);
      RunRefines(crc, StepFlash(crc, f, a[0]), a[1..]);
      assert (a + b)[0] == a[0] && (a + b)[1..] == a[1..] + b;
    }
  }

  /** Two inserts, and the writer's run that loses the tail. */
  function LosingRun(a: Text, va: Text, b: Text, vb: Text): seq<FlashOp> {
    [OpInsert(a, va)] + ([OpInsert(b, vb)] + Lift(0, DRAIN))
  }

  /** One insert into the only file, in front of a run. */
  lemma InsertFirst(crc: Checksum, cfg: Config, s: FileState, index: map<Text, LBA>, size: int, k: Text, v: Text,
                    ops: seq<FlashOp>, m: map<Text, Text>)
    returns (index': map<Text, LBA>)
    requires One(k, v) && !s.eof && s.stage.Idle? && FlashInv(crc, Single(cfg, s, index, size))
    requires (s.buffered ==> s.w > 0) && k !in m
    ensures index' == IndexInsert(index, k, Address(0, s.recs + [MakeRecord(crc, k, v)], |s.recs|))
    ensures var f, g := Single(cfg, s, index, size), Single(cfg, Append(s, MakeRecord(crc, k, v)), index', size + 18);
      && FlashInv(crc, g)
      && (CanRunFlash(crc, g, ops) ==>
            && CanRunFlash(crc, f, [OpInsert(k, v)] + ops)
            && RunFlash(crc, f, [OpInsert(k, v)] + ops) == RunFlash(crc, g, ops)
            && RunMap(crc, m, f, [OpInsert(k, v)] + ops) == RunMap(crc, m[k := v], g, ops)
            && RunDebt(crc, f, [OpInsert(k, v)] + ops) == RunDebt(crc, g, ops))
  {
    hide StoreInv, Append, Serialize, IndexInsert, EncodeAll, Contents, RunFlash, CanRunFlash, RunMap, RunDebt,
         Insert, Storable, Address, CanStep, StepFlash, StepMap, StepDebt, MakeRecord;
    InsertSingle(crc, cfg, s, index, size, k, v);
    index' := IndexInsert(index, k, Address(0, s.recs + [MakeRecord(crc, k, v)], |s.recs|));
    var f := Single(cfg, s, index, size);
    var g := Single(cfg, Append(s, MakeRecord(crc, k, v)), index', size + 18);
    InsertStep(crc, f, k, v, m);
    StepRefines(crc, f, OpInsert(k, v));
    if CanRunFlash(crc, g, ops) {
      RunFlashFirst(crc, f, OpInsert(k, v), ops, m);
    }
  }

  lemma InsertStep(crc: Checksum, f: Flash, k: Text, v: Text, m: map<Text, Text>)
    requires FlashInv(crc, f) && One(k, v) && k !in m && CurIdle(f)
    ensures CanStep(f, OpInsert(k, v)) && StepFlash(crc, f, OpInsert(k, v)) == Insert(f, crc, k, v)
    ensures StepMap(m, f, OpInsert(k, v)) == m[k := v] && StepDebt(f, OpInsert(k, v)) == 0
  {
    hide StoreInv, Insert;
  }

  /** The state after it. */
  lemma LosingState(crc: Checksum, a: Text, va: Text, b: Text, vb: Text) returns (t: FileState, index: map<Text, LBA>)
    requires One(a, va) && One(b, vb) && a != b
    ensures (StartInv(crc, Small());
      var f := StartFlash(Small());
      && CanRunFlash(crc, f, LosingRun(a, va, b, vb))
      && RunFlash(crc, f, LosingRun(a, va, b, vb)) == Single(Small(), t, index, 36)
      && RunMap(crc, map[], f, LosingRun(a, va, b, vb)) == map[][a := va][b := vb]
      && RunDebt(crc, f, LosingRun(a, va, b, vb)) == 0)
    ensures t.pc.Exited? && t.eof && t.buffered && t.stage.Idle? && !t.cut && |t.disk| == 32 && |t.Stream()| == 36
    ensures t.id == 0
    ensures t.recs == [MakeRecord(crc, a, va), MakeRecord(crc, b, vb)]
    ensures b in index && index[b] == LBA(0, 18, 18)
  {
    hide FlashInv, Append, Serialize, EncodeAll, Contents, RunFlash, CanRunFlash, RunMap, RunDebt, DRAIN, Lift, Run,
         Leads, CanRun, SizeExact, StartFlash, Storable, MakeRecord;
    var r, q := MakeRecord(crc, a, va), MakeRecord(crc, b, vb);
    OneSize(crc, a, va);
    OneSize(crc, b, vb);
    FillTwo(r, q);
    t := DrainTwo(r, q);
    SameLead(Filled(r, q), DRAIN, t);
    StartInv(crc, Small());
    StartSingle(Small());
    var s0 := FreshFile(0, 30, 16, true);
    var s1 := Append(s0, r);
    var index1 := InsertFirst(crc, Small(), s0, map[], 0, a, va, [OpInsert(b, vb)] + Lift(0, DRAIN), map[]);
    index := InsertFirst(crc, Small(), s1, index1, 18, b, vb, Lift(0, DRAIN), map[][a := va]);
    DrainHasNoAdd();
    RunLift(crc, Single(Small(), Filled(r, q), index, 36), 0, DRAIN, map[][a := va][b := vb]);
    SetSingle(Small(), Filled(r, q), t, index, 36);
    SecondAddress(r, q);
  }

  lemma SecondAddress(r: Record, q: Record)
    requires |Serialize(r)| == |Serialize(q)| == 18
    ensures Address(0, [r] + [q], 1) == LBA(0, 18, 18) && Address(0, [] + [r], 0) == LBA(0, 0, 18)
  {
    Lengths(r, q);
    hide EncodeAll, Serialize;
    assert ([r] + [q])[..1] == [r] && ([] + [r])[..0] == [];
  }

  lemma DrainHasNoAdd()
    ensures forall i :: 0 <= i < |DRAIN| ==> !DRAIN[i].Put?
  {
  }

  /** A value set, never deleted nor evicted, and gone: the abstract map holds it, lookup gives the empty string. */
  lemma LostLookup(crc: Checksum, a: Text, va: Text, b: Text, vb: Text)
    requires One(a, va) && One(b, vb) && a != b
    ensures (StartInv(crc, Small());
      var f, ops := StartFlash(Small()), LosingRun(a, va, b, vb);
      && CanRunFlash(crc, f, ops)
      && (RunRefines(crc, f, ops); IndexInRange(crc, RunFlash(crc, f, ops));
          Lookup(RunFlash(crc, f, ops), crc, b) == Some([]))
      && b in RunMap(crc, map[], f, ops) && RunMap(crc, map[], f, ops)[b] == vb)
  {
    hide StoreInv, EncodeAll, Contents, RunFlash, CanRunFlash, RunMap, LosingRun, SizeExact, StartFlash, Lookup,
         InRange, RunDebt, MakeRecord;
    var t, index := LosingState(crc, a, va, b, vb);
    StartInv(crc, Small());
    RunRefines(crc, StartFlash(Small()), LosingRun(a, va, b, vb));
    var u := Single(Small(), t, index, 36);
    LookupRefines(crc, u, b);
    IndexInRange(crc, u);
    assert !Retained(u, b);
  }

  /** And when that file is evicted (as it is for a request of ten bytes), four bytes stay counted for ever. */
  lemma LostDebt(crc: Checksum, a: Text, va: Text, b: Text, vb: Text, c: Text, vc: Text)
    requires One(a, va) && One(b, vb) && One(c, vc) && a != b
    ensures (StartInv(crc, Small());
      var f, ops := StartFlash(Small()), LosingRun(a, va, b, vb) + ([OpInsert(c, vc)] + [OpEvict]);
      && CanRunFlash(crc, f, ops) && RunDebt(crc, f, ops) == 4 && !SizeExact(RunFlash(crc, f, ops)))
  {
    hide StoreInv, EncodeAll, Contents, RunFlash, CanRunFlash, RunMap, LosingRun, StartFlash, RunDebt, SizeIs,
         CanStep, StepFlash, VictimOk, StepDebt, Storable, MakeRecord;
    var t, index := LosingState(crc, a, va, b, vb);
    StartInv(crc, Small());
    var f, ops, u := StartFlash(Small()), LosingRun(a, va, b, vb), Single(Small(), t, index, 36);
    RunRefines(crc, f, ops);
    EvictTheLost(crc, t, index, c, vc);
    var v := StepFlash(crc, u, OpInsert(c, vc));
    StepRefines(crc, u, OpInsert(c, vc));
    StepRefines(crc, v, OpEvict);
    EmptyRun(crc, StepFlash(crc, v, OpEvict));
    RunFlashFirst(crc, v, OpEvict, [], map[]);
    assert [OpEvict] + [] == [OpEvict];
    RunFlashFirst(crc, u, OpInsert(c, vc), [OpEvict], map[]);
    RunFlashJoin(crc, f, ops, [OpInsert(c, vc)] + [OpEvict]);
    DebtJoin(crc, f, ops, [OpInsert(c, vc)] + [OpEvict]);
    RunSize(crc, f, ops + ([OpInsert(c, vc)] + [OpEvict]), 0);
    NotExact(RunFlash(crc, f, ops + ([OpInsert(c, vc)] + [OpEvict])), 4);
  }

  lemma EmptyRun(crc: Checksum, f: Flash)
    requires FlashInv(crc, f)
    ensures CanRunFlash(crc, f, []) && RunFlash(crc, f, []) == f && RunDebt(crc, f, []) == 0
  {
  }

  lemma NotExact(f: Flash, debt: int)
    requires SizeIs(f, debt) && debt != 0
    ensures !SizeExact(f)
  {
  }

  lemma EvictTheLost(crc: Checksum, t: FileState, index: map<Text, LBA>, c: Text, vc: Text)
    requires FlashInv(crc, Single(Small(), t, index, 36)) && t.eof && t.pc.Exited? && !t.cut && t.stage.Idle?
    requires |t.disk| == 32 && |t.Stream()| == 36 && One(c, vc)
    ensures var u := Single(Small(), t, index, 36);
      && CanStep(u, OpInsert(c, vc)) && StepDebt(u, OpInsert(c, vc)) == 0
      && var v := StepFlash(crc, u, OpInsert(c, vc));
         CanStep(v, OpEvict) && StepDebt(v, OpEvict) == 4 && 10 + v.size > v.cfg.cacheSize
  {
    hide StoreInv, Contents, EncodeAll, Insert, KeySet, Storable;
    AddThird(crc, t, index, c, vc);
    VictimOfThree(Insert(Single(Small(), t, index, 36), crc, c, vc), t);
  }

  lemma VictimOfThree(v: Flash, t: FileState)
    requires v.files.order == [1, 0] && 0 in v.files.items && v.files.items[0] == t && v.size == 54 && v.cur == 1
    requires v.cfg == Small() && t.pc.Exited? && !t.cut && |t.disk| == 32 && |t.Stream()| == 36
    ensures VictimOk(v) && PopDebt(v) == 4 && 10 + v.size > v.cfg.cacheSize
  {
    hide EncodeAll, KeySet;
    assert Oldest(v.files) == 0;
  }

  lemma AddThird(crc: Checksum, t: FileState, index: map<Text, LBA>, c: Text, vc: Text)
    requires FlashInv(crc, Single(Small(), t, index, 36)) && t.eof && One(c, vc)
    ensures var v := Insert(Single(Small(), t, index, 36), crc, c, vc);
      && v.files.order == [1, 0] && 0 in v.files.items && v.files.items[0] == t && v.size == 54 && v.cur == 1
      && v.cfg == Small()
  {
    hide StoreInv, Append, EncodeAll, IndexInsert, Serialize, Contents, MakeRecord, Storable, InsertRecord;
    OneSize(crc, c, vc);
    var u, r := Single(Small(), t, index, 36), MakeRecord(crc, c, vc);
    RolledIsOpen(crc, u);
    OpenHasBuffers(crc, Rolled(u));
    assert Rolled(u).files.order == [1] + [0] == [1, 0];
    FirstRecord(Rolled(u), r);
  }

  lemma FirstRecord(f: Flash, r: Record)
    requires f.cur in f.files.items && f.files.items[f.cur].recs == [] && |Serialize(r)| == 18
    requires f.files.items[f.cur].buffered ==> f.files.items[f.cur].w > 0
    ensures var g := InsertRecord(f, r, true);
      && g.files.order == f.files.order && g.size == f.size + 18 && g.cur == f.cur && g.cfg == f.cfg
      && g.files.items.Keys == f.files.items.Keys
      && forall id :: id in f.files.items && id != f.cur ==> g.files.items[id] == f.files.items[id]
  {
    hide Taken, EncodeAll, Serialize, IndexInsert;
    assert ([] + [r])[0] == r;
  }

  // ---------- A file cut inside a record ----------

  /** The sizes of the first records of two. */
  lemma PrefixSizes(r: Record, q: Record, recs: seq<Record>)
    requires |Serialize(r)| == |Serialize(q)| == 18 && recs <= [r, q]
    ensures |EncodeAll(recs)| == 18 * |recs|
  {
    Lengths(r, q);
    hide EncodeAll, Serialize;
    assert recs == [r, q][..|recs|];
    assert [r, q][..0] == [] && [r, q][..1] == [r] && [r, q][..2] == [r, q];
  }

  /** A header tells the size of its record. */
  lemma SameSize(crc: Checksum, r: Record, x: Record)
    requires RecordsOk(crc, [r]) && x.hdr == r.hdr && Sized(x)
    ensures |Serialize(x)| == |Serialize(r)|
  {
    assert r == [r][0];
  }

  /** A scan that ends at its first record has read that one's header in full. */
  lemma FirstHeader(r: Record, q: Record, d: seq<byte>, recs: seq<Record>)
    requires |recs| == 1 && Scanned([r, q], d, recs) && HEADER_SIZE <= |d| != |EncodeAll(recs)|
    ensures recs[0].hdr == r.hdr && Sized(recs[0])
  {
    assert recs[..0] == [] && EncodeAll([]) == [] && Offset(recs, 0) == 0;
    hide EncodeAll, Offset;
  }

  /** Of two records of which 32 of 36 bytes are there, a scan meets both. */
  lemma MeetsBoth(crc: Checksum, r: Record, q: Record, d: seq<byte>, recs: seq<Record>)
    requires RecordsOk(crc, [r]) && |Serialize(r)| == |Serialize(q)| == 18 && |d| == 32
    requires Scanned([r, q], d, recs)
    ensures |recs| == 2 && CutOff(recs, d)
  {
    hide Serialize, EncodeAll, RecordsOk, Offset;
    if recs <= [r, q] {
      PrefixSizes(r, q, recs);
    }
    if |recs| == 1 {
      OneAlone(recs[0]);
      assert recs == [recs[0]];
      if |d| != |EncodeAll(recs)| {
        FirstHeader(r, q, d, recs);
        SameSize(crc, r, recs[0]);
      }
    }
  }

  lemma OneAlone(x: Record)
    ensures |EncodeAll([x])| == |Serialize(x)|
  {
    EncodeSnoc([], x);
    assert [] + [x] == [x];
  }

  /** And takes the second one for cut off. */
  lemma ScannedCut(crc: Checksum, r: Record, q: Record, d: seq<byte>, e: Found)
    requires RecordsOk(crc, [r]) && |Serialize(r)| == |Serialize(q)| == 18 && |d| == 32
    requires Scanned([r, q], d, e.recs) && e.bytes == d
    ensures FoundOk(crc, e) && IsCut(e) && |e.recs| == 2 && e.recs[0] == r
    ensures Readable(e) == [(r.key, r.val), (e.recs[1].key, [])]
  {
    hide Serialize, EncodeAll, Offset;
    MeetsBoth(crc, r, q, d, e.recs);
    assert [r, q][..1] == [r] && e.recs[..1] == [r];
    assert e.recs[0] == e.recs[..1][0];
  }

  lemma LosingRecord(crc: Checksum, a: Text, va: Text)
    requires One(a, va)
    ensures RecordsOk(crc, [MakeRecord(crc, a, va)])
  {
  }

  lemma FirstOfTwo(a: Text, va: Text, b: Text, k: Text)
    ensures FirstOf([(a, va), (b, [])], k) == if k == a then Some(va) else if k == b then Some([]) else None
  {
    var rest: seq<(Text, Text)> := [(b, [])];
    assert [(a, va), (b, [])][1..] == rest && rest[1..] == [];
    assert FirstOf(rest, k) == if k == b then Some([]) else None;
  }

  /** The run that loses a tail, and a restart over the 32 bytes: the second record is indexed although its end is
      missing, under whatever key was in memory, and a lookup of that key gives the empty string. It may be the key
      that was stored, or any other. */
  lemma CutReopened(crc: Checksum, a: Text, va: Text, b: Text, vb: Text, found: seq<Found>, k: Text)
    requires One(a, va) && One(b, vb) && a != b
    ensures (StartInv(crc, Small());
      var f, ops := StartFlash(Small()), LosingRun(a, va, b, vb);
      && CanRunFlash(crc, f, ops)
      && var t := RunFlash(crc, f, ops);
      && |DiskDir(t)| == 1 && |DiskDir(t)[0].1| == 32
      && (DirMatches(DiskDir(t), Appended(t), found) ==>
            && |found| == 1 && |found[0].recs| == 2
            && var u := OpenDir(Small(), found);
            && FlashInv(crc, u) && (k in u.index ==> InRange(u, k))
            && Lookup(u, crc, k) ==
                 (if k == a then Some(va) else if k == found[0].recs[1].key then Some([]) else None)))
  {
    hide FlashInv, Serialize, EncodeAll, Contents, RunFlash, CanRunFlash, RunMap, RunDebt, LosingRun, Single, Scanned,
         SizeExact, StartFlash, Storable, MakeRecord, FoundOk, Readable, FirstOf, Lookup, InRange, OpenDir, IsCut;
    var t, index := LosingState(crc, a, va, b, vb);
    StartInv(crc, Small());
    var r, q := MakeRecord(crc, a, va), MakeRecord(crc, b, vb);
    OneSize(crc, a, va);
    OneSize(crc, b, vb);
    LosingRecord(crc, a, va);
    SingleDir(Small(), t, index, 36);
    var v := Single(Small(), t, index, 36);
    if DirMatches(DiskDir(v), Appended(v), found) {
      ScannedCut(crc, r, q, t.disk, found[0]);
      RestartShows(crc, Small(), found, k);
      LogOne(found);
      FirstOfTwo(a, va, found[0].recs[1].key, k);
    }
  }

  lemma SingleDir(cfg: Config, s: FileState, index: map<Text, LBA>, size: int)
    ensures var f := Single(cfg, s, index, size); DiskDir(f) == [(0, s.disk)] && Appended(f) == [s.recs]
  {
  }

  lemma LogOne(found: seq<Found>)
    requires |found| == 1
    ensures Log(found) == Readable(found[0])
  {
    hide Readable;
    assert found[..0] == [];
    assert Log(found) == [] + Readable(found[0]);
  }

  // ---------- An evicted key that is back ----------

  /** Files of one record each, and room for two of them. */
  function Tiny(): Config {
    Config(40, 10, 16, true)
  }

  /** A file that one record has filled; and what its writer makes of it. */
  function FullOne(id: nat, r: Record): FileState {
    FileState(id, 10, 16, true, false, [r], [], true, 2, 0, true, 1, Waiting, Idle)
  }

  function Done(id: nat, r: Record): FileState {
    FileState(id, 10, 16, true, false, [r], EncodeAll([r]), true, 2, 2, false, 0, Exited, Idle)
  }

  lemma FillOne(id: nat, r: Record)
    requires |Serialize(r)| == 18
    ensures Append(FreshFile(id, 10, 16, true), r) == FullOne(id, r)
  {
    Lengths(r, r);
    hide EncodeAll, Serialize;
    assert [] + [r] == [r] && Full(18, 16) == 1;
  }

  lemma DrainOne(id: nat, r: Record)
    requires |Serialize(r)| == 18
    ensures Leads(FullOne(id, r), DRAIN, Done(id, r))
  {
    Lengths(r, r);
    hide EncodeAll, Serialize, Leads;
    var s := FullOne(id, r);
    assert NumBufs(18, 16) == 2;
    hide NumBufs;
    var e := EncodeAll([r]);
    var s1 := Apply(s, Wake);
    var s2 := Apply(s1, Flush);
    var s3 := Apply(s2, Flush);
    assert [] + e[0..16] + e[16..18] == e;
    hide Segment;
    var s4 := Apply(s3, Leave);
    var s5 := Apply(s4, Finish);
    var t := Apply(s5, Check);
    assert t == Done(id, r);
    LeadsNowhere(t);
    LeadsFirst(s5, Check, [], t);
    LeadsFirst(s4, Finish, [Check] + [], t);
    LeadsFirst(s3, Leave, [Finish] + ([Check] + []), t);
    LeadsFirst(s2, Flush, [Leave] + ([Finish] + ([Check] + [])), t);
    LeadsFirst(s1, Flush, [Flush] + ([Leave] + ([Finish] + ([Check] + []))), t);
    LeadsFirst(s, Wake, [Flush] + ([Flush] + ([Leave] + ([Finish] + ([Check] + [])))), t);
  }

  /** Two files of one record each, the first one all on flash. */
  function Pair(r: Record, s: FileState, index: map<Text, LBA>): Flash {
    Flash(Tiny(), LruState([1, 0], map[0 := Done(0, r), 1 := s]), index, 36, 2, 1)
  }

  lemma StartIdle(cfg: Config)
    ensures var f := StartFlash(cfg); f.cur in f.files.items && CurIdle(f)
  {
  }

  function FirstIndex(r: Record, k: Text): map<Text, LBA> {
    IndexInsert(map[], k, Address(0, [] + [r], 0))
  }

  lemma FirstIndexKeys(r: Record, k: Text)
    ensures FirstIndex(r, k).Keys == {k}
  {
    hide Address;
  }

  lemma FirstInsert(crc: Checksum, k: Text, v: Text)
    requires One(k, v) && FlashInv(crc, StartFlash(Tiny()))
    ensures var r := MakeRecord(crc, k, v);
      Insert(StartFlash(Tiny()), crc, k, v) == Single(Tiny(), FullOne(0, r), FirstIndex(r, k), 18)
  {
    StartSingle(Tiny());
    var r := MakeRecord(crc, k, v);
    OneSize(crc, k, v);
    FillOne(0, r);
    hide FlashInv, Append, Insert, MakeRecord, StartFlash, EncodeAll, Serialize, FullOne, Address, IndexInsert, Single,
         Storable;
    InsertSingle(crc, Tiny(), FreshFile(0, 10, 16, true), map[], 0, k, v);
  }

  lemma SecondInsert(crc: Checksum, r: Record, k: Text, v: Text) returns (index: map<Text, LBA>)
    requires One(k, v) && FlashInv(crc, Single(Tiny(), Done(0, r), map[], 18))
    ensures var f := Single(Tiny(), Done(0, r), map[], 18);
      && CanStep(f, OpInsert(k, v))
      && StepFlash(crc, f, OpInsert(k, v)) == Pair(r, FullOne(1, MakeRecord(crc, k, v)), index)
  {
    hide StoreInv, Append, Contents, MakeRecord, EncodeAll, Serialize, Address, IndexInsert;
    OneSize(crc, k, v);
    FillOne(1, MakeRecord(crc, k, v));
    var f := Single(Tiny(), Done(0, r), map[], 18);
    var g, q := Rolled(f), MakeRecord(crc, k, v);
    assert g.files.order == [1] + [0] == [1, 0];
    assert g.files.items[1] == FreshFile(1, 10, 16, true);
    var lba := Address(1, [] + [q], 0);
    SecondOffset(q);
    index := IndexInsert(map[], k, lba);
    assert g.files.items[1 := FullOne(1, q)] == map[0 := Done(0, r), 1 := FullOne(1, q)];
  }

  lemma SecondOffset(q: Record)
    requires |Serialize(q)| == 18
    ensures Address(1, [] + [q], 0).size == 18
  {
    assert ([] + [q])[0] == q;
  }

  /** Set a key; let its file be written; delete the key, as a promotion does; set it anew, which takes a second file;
      let that be written; and evict the first file, as for a request of ten bytes. */
  function ComeBack(k: Text, v: Text, v': Text): seq<FlashOp> {
    [OpInsert(k, v)]
    + (Lift(0, DRAIN) + ([OpDelete(k)] + ([OpInsert(k, v')] + (Lift(1, DRAIN) + ([OpEvict] + [])))))
  }

  lemma EvictFirst(crc: Checksum, r: Record, q: Record, index: map<Text, LBA>)
    requires FlashInv(crc, Pair(r, Done(1, q), index)) && |Serialize(r)| == 18 && r.key == q.key
    ensures var f := Pair(r, Done(1, q), index);
      && CanStep(f, OpEvict) && 10 + f.size > f.cfg.cacheSize
      && var t := StepFlash(crc, f, OpEvict);
         t.files.items == map[1 := Done(1, q)] && t.cfg == Tiny() && q.key !in t.index
  {
    Lengths(r, r);
    hide EncodeAll, Serialize, StoreInv, Contents;
    var f := Pair(r, Done(1, q), index);
    var e := EvictOne(f);
    assert Oldest(f.files) == 0 && e.size == 18;
    assert map[0 := Done(0, r), 1 := Done(1, q)] - {0} == map[1 := Done(1, q)];
    assert KeysOf([r])[0] == r.key;
  }

  lemma DeleteOnly(crc: Checksum, s: FileState, index: map<Text, LBA>, k: Text)
    requires index.Keys == {k} && FlashInv(crc, Single(Tiny(), s, index, 18))
    ensures var f := Single(Tiny(), s, index, 18);
      CanStep(f, OpDelete(k)) && StepFlash(crc, f, OpDelete(k)) == Single(Tiny(), s, map[], 18)
  {
    hide StoreInv;
    assert index - {k} == map[];
  }

  lemma SetPair(r: Record, q: Record, index: map<Text, LBA>)
    ensures SetFile(Pair(r, FullOne(1, q), index), 1, Done(1, q)) == Pair(r, Done(1, q), index)
  {
    hide EncodeAll, Done, FullOne;
    assert map[0 := Done(0, r), 1 := FullOne(1, q)][1 := Done(1, q)] == map[0 := Done(0, r), 1 := Done(1, q)];
  }

  /** The states that this run goes through. */
  lemma ComeBackRun(crc: Checksum, k: Text, v: Text, v': Text)
    requires One(k, v) && One(k, v')
    ensures (StartInv(crc, Tiny());
      && CanRunFlash(crc, StartFlash(Tiny()), ComeBack(k, v, v'))
      && var t := RunFlash(crc, StartFlash(Tiny()), ComeBack(k, v, v'));
         && FlashInv(crc, t) && t.files.items == map[1 := Done(1, MakeRecord(crc, k, v'))]
         && t.cfg == Tiny() && k !in t.index)
  {
    hide StoreInv, EncodeAll, Serialize, Contents, RunFlash, CanRunFlash, CanStep, StepFlash, MakeRecord, SizeExact,
         StartFlash, DRAIN, Lift, Leads, FullOne, Done, FirstIndex, RunDebt, RunMap, StepDebt, StepMap;
    StartInv(crc, Tiny());
    var r, q := MakeRecord(crc, k, v), MakeRecord(crc, k, v');
    OneSize(crc, k, v);
    OneSize(crc, k, v');
    var f0 := StartFlash(Tiny());
    var i1 := FirstIndex(r, k);
    FirstInsert(crc, k, v);
    FirstIndexKeys(r, k);
    StartIdle(Tiny());
    InsertStep(crc, f0, k, v, map[]);
    var f1 := Single(Tiny(), FullOne(0, r), i1, 18);
    StepRefines(crc, f0, OpInsert(k, v));
    DrainOne(0, r);
    SameLead(FullOne(0, r), DRAIN, Done(0, r));
    DrainHasNoAdd();
    RunLift(crc, f1, 0, DRAIN, map[]);
    SetSingle(Tiny(), FullOne(0, r), Done(0, r), i1, 18);
    var f2 := Single(Tiny(), Done(0, r), i1, 18);
    RunRefines(crc, f1, Lift(0, DRAIN));
    DeleteOnly(crc, Done(0, r), i1, k);
    StepRefines(crc, f2, OpDelete(k));
    var f3 := Single(Tiny(), Done(0, r), map[], 18);
    var i2 := SecondInsert(crc, r, k, v');
    StepRefines(crc, f3, OpInsert(k, v'));
    var f4, f5 := Pair(r, FullOne(1, q), i2), Pair(r, Done(1, q), i2);
    DrainOne(1, q);
    SameLead(FullOne(1, q), DRAIN, Done(1, q));
    RunLift(crc, f4, 1, DRAIN, map[]);
    SetPair(r, q, i2);
    RunRefines(crc, f4, Lift(1, DRAIN));
    EvictFirst(crc, r, q, i2);
    StepRefines(crc, f5, OpEvict);
    EmptyRun(crc, StepFlash(crc, f5, OpEvict));
    RunFlashFirst(crc, f5, OpEvict, [], map[]);
    RunFlashJoin(crc, f4, Lift(1, DRAIN), [OpEvict] + []);
    RunFlashFirst(crc, f3, OpInsert(k, v'), Lift(1, DRAIN) + ([OpEvict] + []), map[]);
    RunFlashFirst(crc, f2, OpDelete(k), [OpInsert(k, v')] + (Lift(1, DRAIN) + ([OpEvict] + [])), map[]);
    RunFlashJoin(crc, f1, Lift(0, DRAIN),
      [OpDelete(k)] + ([OpInsert(k, v')] + (Lift(1, DRAIN) + ([OpEvict] + []))));
    RunFlashFirst(crc, f0, OpInsert(k, v),
      Lift(0, DRAIN) + ([OpDelete(k)] + ([OpInsert(k, v')] + (Lift(1, DRAIN) + ([OpEvict] + [])))), map[]);
  }

  lemma DifferentIds(dir: seq<(nat, seq<byte>)>)
    requires |dir| > 1 && forall i, j :: 0 <= i < j < |dir| ==> dir[i].0 != dir[j].0
    ensures dir[0].0 != dir[1].0
  {
  }

  lemma LastFileFound(crc: Checksum, t: Flash, q: Record, dir: seq<(nat, seq<byte>)>, all: seq<seq<Record>>,
                      found: seq<Found>)
    requires FlashInv(crc, t) && t.files.items == map[1 := Done(1, q)] && RecordsOk(crc, [q])
    requires ListsLive(t, dir, all) && DirMatches(dir, all, found)
    ensures DirOk(crc, found) && |found| == 1 && Readable(found[0]) == [(q.key, q.val)]
  {
    hide FlashInv, EncodeAll, Scanned, RecordsOk;
    assert 1 in t.files.items;
    assert forall i :: 0 <= i < |dir| ==> dir[i].0 == 1;
    if |dir| > 1 {
      DifferentIds(dir);
    }
    FoundLive(crc, t, dir, all, found, 0);
  }

  /** A key that is set, promoted, set anew and flushed to a newer file is erased with the older file when that is
      evicted, and is back, with its newer value, after a restart. */
  lemma EvictedComesBack(crc: Checksum, k: Text, v: Text, v': Text, dir: seq<(nat, seq<byte>)>, all: seq<seq<Record>>,
                         found: seq<Found>)
    requires One(k, v) && One(k, v')
    ensures (StartInv(crc, Tiny());
      && CanRunFlash(crc, StartFlash(Tiny()), ComeBack(k, v, v'))
      && var t := RunFlash(crc, StartFlash(Tiny()), ComeBack(k, v, v'));
      && k !in t.index
      && (ListsLive(t, dir, all) && DirMatches(dir, all, found) ==>
            var u := OpenDir(Tiny(), found);
            FlashInv(crc, u) && (k in u.index ==> InRange(u, k)) && Lookup(u, crc, k) == Some(v')))
  {
    hide StoreInv, EncodeAll, Contents, RunFlash, CanRunFlash, MakeRecord, SizeExact, StartFlash, ComeBack, Lookup,
         InRange, OpenDir, ListsLive, DirMatches, DirOk, Readable, Done;
    StartInv(crc, Tiny());
    ComeBackRun(crc, k, v, v');
    var t, q := RunFlash(crc, StartFlash(Tiny()), ComeBack(k, v, v')), MakeRecord(crc, k, v');
    LosingRecord(crc, k, v');
    OneSize(crc, k, v');
    if ListsLive(t, dir, all) && DirMatches(dir, all, found) {
      LastFileFound(crc, t, q, dir, all, found);
      RestartShows(crc, Tiny(), found, k);
      LogOne(found);
      assert [(k, v')][0] == (k, v');
    }
  }
}
