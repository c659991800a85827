/** The LRU index: a recency list and a map, kept in step by hand. */
module Lru {
  import opened CacheRecord

  /** Abstract value: keys from most to least recent, and the stored values.
      A key in items but not in order has been evicted and not yet erased. */
  datatype LruState<K(==), V> = LruState(order: seq<K>, items: map<K, V>)

  ghost predicate NoDup<K>(s: seq<K>) {
    forall i, j :: 0 <= i < j < |s| ==> s[i] != s[j]
  }

  function Without<K(==)>(s: seq<K>, k: K): (r: seq<K>)
    ensures forall x :: x in r ==> x in s && x != k
    ensures forall x :: x in s && x != k ==> x in r
    ensures |r| <= |s|
  {
    if s == [] then [] else (if s[0] == k then [] else [s[0]]) + Without(s[1..], k)
  }

  function LruInsert<K, V>(c: LruState<K, V>, k: K, v: V): LruState<K, V> {
    if k in c.items then c else LruState([k] + c.order, c.items[k := v])
  }

  function LruTouch<K, V>(c: LruState<K, V>, k: K): LruState<K, V> {
    if k in c.order then LruState([k] + Without(c.order, k), c.items) else c
  }

  function Oldest<K, V>(c: LruState<K, V>): K
    requires c.order != []
  {
    c.order[|c.order| - 1]
  }

  function LruEvict<K, V>(c: LruState<K, V>): LruState<K, V>
    requires c.order != []
  {
    LruState(c.order[..|c.order| - 1], c.items)
  }

  function LruErase<K, V>(c: LruState<K, V>, k: K): LruState<K, V> {
    LruState(c.order, c.items - {k})
  }

  ghost predicate LruInv<K, V>(c: LruState<K, V>) {
    NoDup(c.order) && forall k :: k in c.order ==> k in c.items
  }

  lemma {:induction false} WithoutNoDup<K>(s: seq<K>, k: K)
    requires NoDup(s)
    ensures NoDup(Without(s, k))
  {
    if s != [] {
      assert NoDup(s[1..]);
      WithoutNoDup(s[1..], k);
      assert s[0] !in s[1..];
    }
  }

  /** Removing the single occurrence of s[i] is cutting position i out. */
  lemma {:induction false} WithoutAt<K>(s: seq<K>, i: nat)
    requires NoDup(s) && i < |s|
    ensures Without(s, s[i]) == s[..i] + s[i + 1..]
  {
    if i == 0 {
      WithoutAbsent(s[1..], s[0]);
    } else {
      assert NoDup(s[1..]);
      WithoutAt(s[1..], i - 1);
      assert s[1..][..i - 1] == s[1..i] && s[..i] == [s[0]] + s[1..i];
    }
  }

  lemma {:induction false} WithoutAbsent<K>(s: seq<K>, k: K)
    requires k !in s
    ensures Without(s, k) == s
  {
    if s != [] {
      WithoutAbsent(s[1..], k);
    }
  }

  // ---------- The class lru_cache ----------

  class ListNode<K> {
    const key: K
    constructor (key: K)
      ensures this.key == key
    {
      this.key := key;
    }
  }

  function Keys<K>(nodes: seq<ListNode<K>>): (r: seq<K>)
    ensures |r| == |nodes|
    ensures forall i :: 0 <= i < |nodes| ==> r[i] == nodes[i].key
  {
    seq(|nodes|, i requires 0 <= i < |nodes| => nodes[i].key)
  }

  ghost predicate Linked<K, V>(mapping: map<K, (V, ListNode<K>)>, list: seq<ListNode<K>>) {
    NoDup(list) && forall i :: 0 <= i < |list| ==> list[i].key in mapping && mapping[list[i].key].1 == list[i]
  }

  lemma RelinkValid<K, V>(mapping: map<K, (V, ListNode<K>)>, list: seq<ListNode<K>>, i: nat, node: ListNode<K>)
    requires Linked(mapping, list) && i < |list| && node !in list && node.key == list[i].key
    ensures Linked(mapping[node.key := (mapping[node.key].0, node)], [node] + (list[..i] + list[i + 1..]))
  {
    var rest := list[..i] + list[i + 1..];
    assert forall x :: 0 <= x < |rest| ==> rest[x] == list[if x < i then x else x + 1];
    assert forall x :: 0 <= x < |list| && x != i ==> list[x].key != node.key;
    assert NoDup(rest);
  }

  lemma FrontKeys<K>(nodes: seq<ListNode<K>>, i: nat, node: ListNode<K>)
    requires NoDup(Keys(nodes)) && i < |nodes| && node.key == nodes[i].key
    ensures Keys([node] + (nodes[..i] + nodes[i + 1..])) == [node.key] + Without(Keys(nodes), node.key)
    ensures i == 0 ==> Keys(nodes) == [node.key] + Without(Keys(nodes), node.key)
  {
    WithoutAt(Keys(nodes), i);
  }

  class LruCache<K(==), V> {
    var mapping: map<K, (V, ListNode<K>)>  // each value with an iterator into the list
    var list: seq<ListNode<K>>

    ghost function Abs(): LruState<K, V>
      reads this
    {
      LruState(Keys(list), map k | k in mapping :: mapping[k].0)
    }

    /** Every listed key is mapped, and to its own list node. */
    ghost predicate Valid()
      reads this
    {
      Linked(mapping, list)
    }

    /** The stored iterator of k may be dereferenced. */
    ghost predicate Alive(k: K)
      reads this
    {
      k in mapping ==> mapping[k].1 in list && mapping[k].1.key == k
    }

    lemma ValidAbs()
      requires Valid()
      ensures LruInv(Abs())
      ensures forall k :: k in Abs().items ==> (Alive(k) <==> k in Abs().order)
    {
      forall i, j | 0 <= i < j < |list|
        ensures list[i].key != list[j].key
      {
        assert mapping[list[i].key].1 == list[i];
      }
      forall k | k in mapping
        ensures Alive(k) <==> k in Keys(list)
      {
        if k in Keys(list) {
          var i :| 0 <= i < |list| && Keys(list)[i] == k;
          assert mapping[list[i].key].1 == list[i];
        }
        if Alive(k) {
          var i :| 0 <= i < |list| && list[i] == mapping[k].1;
          assert Keys(list)[i] == k;
        }
      }
    }

    constructor ()
      ensures Valid() && Abs() == LruState([], map[])
    {
      mapping := map[];
      list := [];
    }

    function Size(): nat
      reads this
    {
      |list|
    }

    method Insert(key: K, value: V)
      requires Valid()
      modifies this
      ensures Valid() && Abs() == LruInsert(old(Abs()), key, value)
    {
      if key !in mapping {
        var node := new ListNode(key);
        assert node !in list;
        list := [node] + list;
        mapping := mapping[key := (value, node)];
        assert Abs().order == [key] + old(Abs()).order;
      }
    }

    method Get(key: K) returns (r: Option<V>)
      requires Valid() && Alive(key)
      modifies this
      ensures Valid() && Abs() == LruTouch(old(Abs()), key)
      ensures r == if key in old(Abs()).items then Some(old(Abs()).items[key]) else None
    {
      ValidAbs();
      if key !in mapping {
        return None;
      }
      var (value, j) := mapping[key];
      r := Some(value);
      var i :| 0 <= i < |list| && list[i] == j;
      FrontKeys(list, i, j);
      if i != 0 {
        MoveToFront(i);
      }
    }

    /** Drop the list node at i and push a new one for the same key in front. */
    method MoveToFront(i: nat)
      requires Valid() && i < |list|
      modifies this
      ensures Valid() && Abs() == LruTouch(old(Abs()), old(list[i].key))
    {
      ValidAbs();
      var key := list[i].key;
      var node := new ListNode(key);
      FrontKeys(list, i, node);
      ghost var was := list;
      RelinkValid(mapping, list, i, node);
      list := [node] + (list[..i] + list[i + 1..]);
      mapping := mapping[key := (mapping[key].0, node)];
      hide Without;
      assert Abs().items == old(Abs().items);
      assert Keys(was)[i] == key;
    }

    method Evict() returns (value: V)
      requires Valid() && list != []
      modifies this
      ensures Valid() && Abs() == LruEvict(old(Abs()))
      ensures value == old(Abs()).items[Oldest(old(Abs()))]
    {
      var n := |list| - 1;
      value := mapping[list[n].key].0;
      list := list[..n];
      assert Keys(list) == old(Keys(list))[..n];
    }

    /** Erasing a key that is still listed would leave its list node behind. */
    method Erase(key: K)
      requires Valid() && key !in Abs().order
      modifies this
      ensures Valid() && Abs() == LruErase(old(Abs()), key)
    {
      assert forall i :: 0 <= i < |list| ==> list[i].key == Keys(list)[i];
      mapping := mapping - {key};
    }
  }

  // ---------- Recency over all runs ----------

  datatype LruOp<K, V> = AddKey(k: K, v: V) | TouchKey(k: K) | DropOldest

  function Step<K, V>(c: LruState<K, V>, op: LruOp<K, V>): LruState<K, V> {
    match op
    case AddKey(k, v) => LruInsert(c, k, v)
    case TouchKey(k) => LruTouch(c, k)
    case DropOldest => if c.order == [] then c else LruErase(LruEvict(c), Oldest(c))
  }

  function RunLru<K(==), V>(ops: seq<LruOp<K, V>>): LruState<K, V> {
    if ops == [] then LruState([], map[]) else Step(RunLru(ops[..|ops| - 1]), ops[|ops| - 1])
  }

  /** The operation inserts k anew or finds it. */
  predicate Touches<K(==), V>(c: LruState<K, V>, op: LruOp<K, V>, k: K) {
    (op.AddKey? && op.k == k && k !in c.items) || (op.TouchKey? && op.k == k && k in c.items)
  }

  /** Time of the last insertion or successful get of k in a run. */
  function LastTouch<K(==), V>(ops: seq<LruOp<K, V>>, k: K): nat {
    if ops == [] then 0
    else if Touches(RunLru(ops[..|ops| - 1]), ops[|ops| - 1], k) then |ops|
    else LastTouch(ops[..|ops| - 1], k)
  }

  lemma {:induction false} LastTouchBound<K(!new), V>(ops: seq<LruOp<K, V>>, k: K)
    ensures LastTouch(ops, k) <= |ops|
  {
    if ops != [] {
      LastTouchBound(ops[..|ops| - 1], k);
    }
  }

  lemma UseKeepsInv<K(!new), V>(c: LruState<K, V>, op: LruOp<K, V>)
    requires LruInv(c) && forall k :: k in c.items ==> k in c.order
    ensures LruInv(Step(c, op)) && forall k :: k in Step(c, op).items ==> k in Step(c, op).order
  {
    match op
    case AddKey(k, v) =>
    case TouchKey(k) => WithoutNoDup(c.order, k);
    case DropOldest =>
      if c.order != [] {
        assert forall k :: k in c.order ==> k in c.order[..|c.order| - 1] || k == Oldest(c);
      }
  }

  ghost predicate ByRecency<K(!new), V>(s: seq<K>, ops: seq<LruOp<K, V>>) {
    forall i, j :: 0 <= i < j < |s| ==> LastTouch(ops, s[i]) > LastTouch(ops, s[j])
  }

  /** Without keeps the relative order of what stays. */
  lemma {:induction false} WithoutSorted<K(!new), V>(s: seq<K>, k: K, ops: seq<LruOp<K, V>>)
    requires ByRecency(s, ops)
    ensures ByRecency(Without(s, k), ops)
  {
    hide LastTouch;
    if s != [] {
      assert ByRecency(s[1..], ops);
      WithoutSorted(s[1..], k, ops);
      var r := Without(s[1..], k);
      assert forall j :: 0 <= j < |r| ==> r[j] in s[1..];
    }
  }

  /** A key touched just now goes in front of keys touched before. */
  lemma FrontByRecency<K(!new), V>(ops: seq<LruOp<K, V>>, before: seq<LruOp<K, V>>, k: K, rest: seq<K>)
    requires ByRecency(rest, before) && k !in rest && LastTouch(ops, k) == |ops|
    requires forall x :: x in rest ==> LastTouch(ops, x) == LastTouch(before, x) < |ops|
    ensures ByRecency([k] + rest, ops)
  {
    hide LastTouch;
  }

  /** Without a touch the order stays, also of the first keys of the list. */
  lemma SameByRecency<K(!new), V>(ops: seq<LruOp<K, V>>, before: seq<LruOp<K, V>>, s: seq<K>, t: seq<K>)
    requires ByRecency(s, before) && t <= s && forall x :: x in s ==> LastTouch(ops, x) == LastTouch(before, x)
    ensures ByRecency(t, ops)
  {
    hide LastTouch;
  }

  lemma LastTouchSnoc<K(!new), V>(ops: seq<LruOp<K, V>>, k: K)
    requires ops != []
    ensures var before, op := ops[..|ops| - 1], ops[|ops| - 1];
      && LastTouch(before, k) < |ops|
      && LastTouch(ops, k) == if Touches(RunLru(before), op, k) then |ops| else LastTouch(before, k)
  {
    LastTouchBound(ops[..|ops| - 1], k);
  }

  lemma {:induction false} StepKeepsRecency<K(!new), V>(ops: seq<LruOp<K, V>>)
    requires ops != []
    requires var b := RunLru(ops[..|ops| - 1]);
      LruInv(b) && ByRecency(b.order, ops[..|ops| - 1]) && forall k :: k in b.items ==> k in b.order
    ensures ByRecency(RunLru(ops).order, ops)
  {
    var before, op := ops[..|ops| - 1], ops[|ops| - 1];
    var b := RunLru(before);
    assert RunLru(ops) == Step(b, op);
    forall k: K
      ensures LastTouch(before, k) < |ops|
      ensures LastTouch(ops, k) == if Touches(b, op, k) then |ops| else LastTouch(before, k)
    {
      LastTouchSnoc(ops, k);
    }
    hide LastTouch, RunLru, ByRecency, Without;
    match op
    case AddKey(k, _) =>
      if k in b.items {
        SameByRecency(ops, before, b.order, b.order);
      } else {
        FrontByRecency(ops, before, k, b.order);
      }
    case TouchKey(k) =>
      if k in b.items {
        WithoutSorted(b.order, k, before);
        FrontByRecency(ops, before, k, Without(b.order, k));
      } else {
        SameByRecency(ops, before, b.order, b.order);
      }
    case DropOldest => SameByRecency(ops, before, b.order, Step(b, op).order);
  }

  /** In a list ordered by recency, the last key is the one touched longest ago. */
  lemma LastIsOldest<K(!new), V>(c: LruState<K, V>, ops: seq<LruOp<K, V>>, k: K)
    requires ByRecency(c.order, ops) && k in c.order && k != Oldest(c)
    ensures LastTouch(ops, Oldest(c)) < LastTouch(ops, k)
  {
    hide LastTouch;
    var i :| 0 <= i < |c.order| && c.order[i] == k;
  }

  /** In every run the list is exactly the mapped keys, without duplicates, by falling time of
      last touch; so its last key, the one evicted, is the one touched longest ago. */
  lemma {:induction false} ListIsRecencyOrder<K(!new), V>(ops: seq<LruOp<K, V>>)
    ensures var c := RunLru(ops);
      && LruInv(c)
      && (forall k :: k in c.items ==> k in c.order)
      && ByRecency(c.order, ops)
      && (c.order != [] ==> forall k :: k in c.items && k != Oldest(c) ==>
            LastTouch(ops, Oldest(c)) < LastTouch(ops, k))
    decreases |ops|
  {
    if ops != [] {
      ListIsRecencyOrder(ops[..|ops| - 1]);
      UseKeepsInv(RunLru(ops[..|ops| - 1]), ops[|ops| - 1]);
      StepKeepsRecency(ops);
    }
    hide LastTouch, ByRecency;
    var c := RunLru(ops);
    if c.order != [] {
      forall k | k in c.items && k != Oldest(c)
        ensures LastTouch(ops, Oldest(c)) < LastTouch(ops, k)
      {
        LastIsOldest(c, ops, k);
      }
    }
  }
}
