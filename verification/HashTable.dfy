/** The chained hash table: entries linked through `next` from a slot array, unlinked in place. */
module HashTable {
  import opened Arith
  import opened Bytes

  // ---------- Hashing ----------

  /** A char converted to unsigned int: bytes from 128 on are negative chars. */
  function CharWord(b: byte): uint32 {
    if b < 128 then b else 0x1_0000_0000 - 256 + b
  }

  /** The char at i of a NUL-terminated string. */
  function CharAt(s: Text, i: nat): byte {
    if i < |s| then s[i] else 0
  }

  /** The loop of get_hash_key from turn i on: it goes on while i is below the char it looks at. */
  function HashFrom(s: Text, i: nat, code: uint32): uint32
    decreases |s| - i
  {
    if i >= |s| || i >= CharWord(s[i]) then code
    else HashFrom(s, i + 1, (code * 33 + CharWord(s[i])) % 0x1_0000_0000)
  }

  function HashKey(s: Text): uint32 {
    HashFrom(s, 0, 5381)
  }

  /** The first index that is not below its char. */
  function HashStop(s: Text, i: nat): (n: nat)
    requires i <= |s|
    ensures i <= n <= |s| && (forall j :: i <= j < n ==> j < CharWord(s[j])) && (n < |s| ==> n >= CharWord(s[n]))
    decreases |s| - i
  {
    if i == |s| || i >= CharWord(s[i]) then i else HashStop(s, i + 1)
  }

  /** The chars from i to n as the digits of a number to the base of 33. */
  function Base33(s: Text, i: nat, n: nat): nat
    requires n <= |s|
    decreases n - i
  {
    if i >= n then 0 else CharWord(s[i]) * Pow(33, n - 1 - i) + Base33(s, i + 1, n)
  }

  /** A number in front of these digits, cut to 32 bits. */
  function InFront(code: nat, s: Text, i: nat, n: nat): uint32
    requires i <= n <= |s|
  {
    (code * Pow(33, n - i) + Base33(s, i, n)) % 0x1_0000_0000
  }

  lemma InFrontOfNone(code: uint32, s: Text, n: nat)
    requires n <= |s|
    ensures InFront(code, s, n, n) == code
  {
  }

  lemma OneDigitMore(code: nat, p: nat)
    ensures code * 33 * p == code * (33 * p)
  {
  }

  /** One turn takes the next digit to the number, and cuts already. */
  lemma HashTurn(code: nat, s: Text, i: nat, n: nat)
    requires i < n <= |s|
    ensures InFront((code * 33 + CharWord(s[i])) % 0x1_0000_0000, s, i + 1, n) == InFront(code, s, i, n)
  {
    hide CharWord;
    var c: nat, p := CharWord(s[i]), Pow(33, n - i - 1);
    ModEarly(code * 33 + c, p, Base33(s, i + 1, n), 0x1_0000_0000);
    Distribute(code * 33, c, p);
    OneDigitMore(code, p);
  }

  lemma {:induction false} HashFromIs(s: Text, i: nat, code: uint32)
    requires i <= |s|
    ensures HashFrom(s, i, code) == InFront(code, s, i, HashStop(s, i))
    decreases |s| - i
  {
    hide CharWord, InFront;
    var n := HashStop(s, i);
    if i < n {
      HashFromIs(s, i + 1, (code * 33 + CharWord(s[i])) % 0x1_0000_0000);
      HashTurn(code, s, i, n);
    } else {
      InFrontOfNone(code, s, i);
    }
  }

  /** The hash in closed form: the chars up to the first one that is not above its index, behind 5381, as
      the digits of a number to the base of 33, cut to 32 bits. */
  lemma HashKeyIs(s: Text)
    ensures var n := HashStop(s, 0);
            HashKey(s) == (5381 * Pow(33, n) + Base33(s, 0, n)) % 0x1_0000_0000
  {
    HashFromIs(s, 0, 5381);
  }

  /** The conversion of a char extends its sign: the bits from 7 on are all the same. */
  lemma CharWordBits(b: byte, k: nat)
    requires k < 32
    ensures Bit(CharWord(b), k) == Bit(b, if k < 7 then k else 7)
  {
    var high := if b < 128 then 0 else Pow(2, 25) - 1;
    assert Pow(2, 7) == 128 && Pow(2, 25) == 0x200_0000 by { PowersOfTwo(); }
    assert CharWord(b) == 128 * high + b % 128 && b == 128 * (b / 128) + b % 128;
    BitSplit(high, b % 128, 7, k);
    BitSplit(b / 128, b % 128, 7, if k < 7 then k else 7);
    if k >= 7 {
      if b < 128 {
        ZeroBits(k - 7);
      } else {
        OnesBits(25, k - 7);
      }
    }
  }

  /** The loop's own guard stops it at the terminator at the latest. */
  method GetHashKey(str: Text) returns (code: uint32)
    ensures code == HashKey(str)
    ensures var n := HashStop(str, 0);
            code == (5381 * Pow(33, n) + Base33(str, 0, n)) % 0x1_0000_0000
  {
    HashKeyIs(str);
    code := 5381;
    var i := 0;
    while i < CharWord(CharAt(str, i))
      invariant i <= |str| && HashFrom(str, i, code) == HashKey(str)
      decreases |str| - i
    {
      code := (code * 33 + CharWord(CharAt(str, i))) % 0x1_0000_0000;
      i := i + 1;
    }
  }

  /** Two keys that agree up to and including a char that is at most its own index collide. */
  lemma {:induction false} HashIgnoresTail(s: Text, t: Text, i: nat, stop: nat, code: uint32)
    requires i <= stop < |s| && stop < |t| && s[..stop + 1] == t[..stop + 1]
    requires CharWord(s[stop]) <= stop
    ensures HashFrom(s, i, code) == HashFrom(t, i, code)
    decreases stop - i
  {
    assert s[i] == s[..stop + 1][i] == t[i] && s[stop] == t[..stop + 1][stop];
    if i < stop && i < CharWord(s[i]) {
      HashIgnoresTail(s, t, i + 1, stop, (code * 33 + CharWord(s[i])) % 0x1_0000_0000);
    }
  }

  /** Bitwise and. */
  function And(x: nat, y: nat): nat
    decreases x
  {
    if x == 0 || y == 0 then 0 else 2 * And(x / 2, y / 2) + (x % 2) * (y % 2)
  }

  /** Bit for bit: And has a one where both have one. */
  lemma {:induction false} AndBits(x: nat, y: nat, k: nat)
    ensures Bit(And(x, y), k) == Bit(x, k) * Bit(y, k)
    decreases k
  {
    if x == 0 || y == 0 {
      ZeroBits(k);
    } else {
      var rest, low := And(x / 2, y / 2), x % 2 * (y % 2);
      assert low < 2;
      assert (2 * rest + low) / 2 == rest && (2 * rest + low) % 2 == low;
      if k > 0 {
        AndBits(x / 2, y / 2, k - 1);
      }
    }
  }

  lemma {:induction false} AndAtMost(x: nat, y: nat)
    ensures And(x, y) <= y
    decreases x
  {
    if x != 0 && y != 0 {
      AndAtMost(x / 2, y / 2);
    }
  }

  lemma {:induction false} AndSelf(x: nat)
    ensures And(x, x) == x
  {
    if x != 0 {
      AndSelf(x / 2);
    }
  }

  /** A table takes every hash exactly when it has more slots than the mask. */
  lemma EverySlotExists(sizemask: uint32, size: nat)
    ensures (forall h: uint32 :: And(h, sizemask) < size) <==> sizemask < size
  {
    AndSelf(sizemask);
    forall h: uint32
      ensures And(h, sizemask) <= sizemask
    {
      AndAtMost(h, sizemask);
    }
  }

  // ---------- The table ----------

  class HashEntry<V> {
    const key: Text
    var val: V
    var next: HashEntry?<V>

    constructor (key: Text, val: V, next: HashEntry?<V>)
      ensures this.key == key && this.val == val && this.next == next
    {
      this.key, this.val, this.next := key, val, next;
    }
  }

  function SlotOf(key: Text, sizemask: uint32): nat {
    And(HashKey(key), sizemask)
  }

  function At<V>(chain: seq<HashEntry<V>>, j: nat): HashEntry?<V> {
    if j < |chain| then chain[j] else null
  }

  function Without<T>(s: seq<T>, at: nat): (r: seq<T>)
    requires at < |s|
    ensures |r| == |s| - 1 && forall j :: 0 <= j < |r| ==> r[j] == if j < at then s[j] else s[j + 1]
  {
    s[..at] + s[at + 1..]
  }

  ghost predicate Has<V>(chain: seq<HashEntry<V>>, key: Text) {
    exists j :: 0 <= j < |chain| && chain[j].key == key
  }

  /** Everything about the entries of one slot but how they are linked: each is in the slot of its
      key, none has the key of another, and the map gives its value. */
  ghost predicate Filed<V(!new)>(chain: seq<HashEntry<V>>, slot: nat, sizemask: uint32, contents: map<Text, V>)
    reads chain`val
  {
    && (forall j :: 0 <= j < |chain| ==> SlotOf(chain[j].key, sizemask) == slot)
    && (forall j, k :: 0 <= j < k < |chain| ==> chain[j].key != chain[k].key)
    && (forall j :: 0 <= j < |chain| ==> chain[j].key in contents && contents[chain[j].key] == chain[j].val)
  }

  ghost predicate Linked<V>(head: HashEntry?<V>, chain: seq<HashEntry<V>>)
    reads chain
  {
    head == At(chain, 0) && forall j :: 0 <= j < |chain| ==> chain[j].next == At(chain, j + 1)
  }

  /** Every key of the map has an entry in its slot. */
  ghost predicate Complete<V>(chains: seq<seq<HashEntry<V>>>, sizemask: uint32, contents: map<Text, V>) {
    forall key :: key in contents ==> SlotOf(key, sizemask) < |chains| && Has(chains[SlotOf(key, sizemask)], key)
  }

  ghost function EntriesOf<V>(chains: seq<seq<HashEntry<V>>>): set<HashEntry<V>> {
    set i, j | 0 <= i < |chains| && 0 <= j < |chains[i]| :: chains[i][j]
  }

  /** The slots from which the chains can be read off, and the map they hold; slot `but` aside. */
  ghost predicate SlotsOk<V(!new)>(slots: seq<HashEntry?<V>>, chains: seq<seq<HashEntry<V>>>, sizemask: uint32,
                                   contents: map<Text, V>, but: int)
    requires |slots| == |chains|
    reads set i, j | 0 <= i < |chains| && i != but && 0 <= j < |chains[i]| :: chains[i][j]
  {
    forall i :: 0 <= i < |chains| && i != but ==>
      Linked(slots[i], chains[i]) && Filed(chains[i], i, sizemask, contents)
  }

  lemma OtherSlots<V(!new)>(slots: seq<HashEntry?<V>>, chains: seq<seq<HashEntry<V>>>, sizemask: uint32,
                            contents: map<Text, V>, idx: nat, e: HashEntry<V>)
    requires |slots| == |chains| && SlotsOk(slots, chains, sizemask, contents, -1)
    requires idx < |chains| && e in chains[idx]
    ensures Linked(slots[idx], chains[idx]) && Filed(chains[idx], idx, sizemask, contents)
    ensures SlotsOk(slots, chains, sizemask, contents, idx)
    ensures forall i :: 0 <= i < |chains| && i != idx ==> e !in chains[i]
  {
    hide SlotOf, Linked;
    assert Filed(chains[idx], idx, sizemask, contents);
    forall i | 0 <= i < |chains| && i != idx
      ensures e !in chains[i]
    {
      assert Filed(chains[i], i, sizemask, contents);
    }
  }

  function KeysOf<V>(es: set<HashEntry<V>>): set<Text> {
    set e | e in es :: e.key
  }

  lemma {:induction false} DistinctKeys<V>(es: set<HashEntry<V>>)
    requires forall e, f :: e in es && f in es && e.key == f.key ==> e == f
    ensures |KeysOf(es)| == |es|
    decreases |es|
  {
    if es != {} {
      var e :| e in es;
      DistinctKeys(es - {e});
      assert KeysOf(es) == KeysOf(es - {e}) + {e.key};
      assert e.key !in KeysOf(es - {e});
    }
  }

  /** No entry is on two chains, and there is one entry for each key of the map. */
  lemma OneEntryPerKey<V(!new)>(slots: seq<HashEntry?<V>>, chains: seq<seq<HashEntry<V>>>, sizemask: uint32,
                                contents: map<Text, V>)
    requires |slots| == |chains| && SlotsOk(slots, chains, sizemask, contents, -1)
    requires Complete(chains, sizemask, contents)
    ensures forall i, k, e :: 0 <= i < |chains| && 0 <= k < |chains| && e in chains[i] && e in chains[k] ==> i == k
    ensures KeysOf(EntriesOf(chains)) == contents.Keys
    ensures |EntriesOf(chains)| == |contents|
  {
    hide SlotOf, Linked;
    forall i | 0 <= i < |chains|
      ensures Filed(chains[i], i, sizemask, contents)
    {
      assert Linked(slots[i], chains[i]) && Filed(chains[i], i, sizemask, contents);
    }
    forall i, k, e | 0 <= i < |chains| && 0 <= k < |chains| && e in chains[i] && e in chains[k]
      ensures i == k
    {
      assert SlotOf(e.key, sizemask) == i && SlotOf(e.key, sizemask) == k;
    }
    forall key
      ensures key in KeysOf(EntriesOf(chains)) <==> key in contents.Keys
    {
      if key in contents {
        var i := SlotOf(key, sizemask);
        assert Has(chains[i], key);
        var j :| 0 <= j < |chains[i]| && chains[i][j].key == key;
        assert chains[i][j] in EntriesOf(chains);
      }
    }
    DistinctKeys(EntriesOf(chains));
    assert |contents| == |contents.Keys|;
  }

  lemma FiledAdd<V(!new)>(chain: seq<HashEntry<V>>, slot: nat, sizemask: uint32, contents: map<Text, V>,
                             key: Text, val: V)
    requires Filed(chain, slot, sizemask, contents) && key !in contents
    ensures Filed(chain, slot, sizemask, contents[key := val]) && !Has(chain, key)
  {
    hide SlotOf;
  }

  lemma FiledCons<V(!new)>(entry: HashEntry<V>, chain: seq<HashEntry<V>>, slot: nat, sizemask: uint32,
                           contents: map<Text, V>)
    requires Filed(chain, slot, sizemask, contents) && Linked(entry.next, chain) && !Has(chain, entry.key)
    requires SlotOf(entry.key, sizemask) == slot && entry.key in contents && contents[entry.key] == entry.val
    ensures Filed([entry] + chain, slot, sizemask, contents) && Linked(entry, [entry] + chain)
  {
    hide SlotOf;
    var longer := [entry] + chain;
    assert forall j :: 0 < j < |longer| ==> longer[j] == chain[j - 1];
  }

  /** The slots after a new entry is put in front of its chain. */
  lemma SlotsAdd<V(!new)>(slots: seq<HashEntry?<V>>, chains: seq<seq<HashEntry<V>>>, sizemask: uint32,
                          contents: map<Text, V>, entry: HashEntry<V>)
    requires |slots| == |chains| && SlotsOk(slots, chains, sizemask, contents, -1)
    requires Complete(chains, sizemask, contents)
    requires var i := SlotOf(entry.key, sizemask); i < |slots| && entry.next == slots[i] && entry.key !in contents
    ensures var i := SlotOf(entry.key, sizemask);
            var chains', contents' := chains[i := [entry] + chains[i]], contents[entry.key := entry.val];
            SlotsOk(slots[i := entry], chains', sizemask, contents', -1) && Complete(chains', sizemask, contents')
  {
    hide SlotOf, Linked, Filed, Has;
    var i := SlotOf(entry.key, sizemask);
    var contents' := contents[entry.key := entry.val];
    forall k | 0 <= k < |chains|
      ensures Linked(slots[k], chains[k]) && Filed(chains[k], k, sizemask, contents') && !Has(chains[k], entry.key)
    {
      FiledAdd(chains[k], k, sizemask, contents, entry.key, entry.val);
    }
    FiledCons(entry, chains[i], i, sizemask, contents');
    forall key
      ensures Has([entry] + chains[i], key) <==> key == entry.key || Has(chains[i], key)
    {
      HasCons(entry, chains[i], key);
    }
  }

  lemma HasCons<V>(entry: HashEntry<V>, chain: seq<HashEntry<V>>, key: Text)
    ensures Has([entry] + chain, key) <==> key == entry.key || Has(chain, key)
  {
    var longer := [entry] + chain;
    assert longer[0] == entry && forall j :: 0 <= j < |chain| ==> chain[j] == longer[j + 1];
  }

  lemma HasWithout<V>(chain: seq<HashEntry<V>>, at: nat, key: Text)
    requires at < |chain| && Has(chain, key) && key != chain[at].key
    ensures Has(Without(chain, at), key)
  {
    var j :| 0 <= j < |chain| && chain[j].key == key;
    assert Without(chain, at)[if j < at then j else j - 1] == chain[j];
  }

  lemma FiledRemove<V(!new)>(chain: seq<HashEntry<V>>, slot: nat, sizemask: uint32, contents: map<Text, V>, key: Text)
    requires Filed(chain, slot, sizemask, contents) && SlotOf(key, sizemask) != slot
    ensures Filed(chain, slot, sizemask, contents - {key})
  {
    hide SlotOf;
  }

  lemma FiledWithout<V(!new)>(chain: seq<HashEntry<V>>, at: nat, slot: nat, sizemask: uint32, contents: map<Text, V>)
    requires at < |chain| && Filed(chain, slot, sizemask, contents)
    ensures Filed(Without(chain, at), slot, sizemask, contents - {chain[at].key})
  {
    hide SlotOf;
    var shorter := Without(chain, at);
    forall j | 0 <= j < |shorter|
      ensures SlotOf(shorter[j].key, sizemask) == slot && shorter[j].key != chain[at].key
      ensures shorter[j].key in contents && contents[shorter[j].key] == shorter[j].val
    {
      var k := if j < at then j else j + 1;
      assert shorter[j] == chain[k];
    }
  }

  lemma AtWithout<V>(chain: seq<HashEntry<V>>, at: nat, m: nat)
    requires at < |chain|
    ensures At(Without(chain, at), m) == At(chain, if m < at then m else m + 1)
    ensures |Without(chain, at)| == |chain| - 1
  {
  }

  lemma AtInside<V>(chain: seq<HashEntry<V>>, j: nat)
    requires j < |chain|
    ensures At(chain, j) == chain[j]
  {
  }

  /** One pointer skips an entry: the links that are left. */
  lemma LinkedWithout<V>(head: HashEntry?<V>, chain: seq<HashEntry<V>>, at: nat)
    requires at < |chain|
    requires head == if at == 0 then At(chain, 1) else chain[0]
    requires forall j :: 0 <= j < |chain| ==> chain[j].next == At(chain, if j + 1 == at then j + 2 else j + 1)
    ensures Linked(head, Without(chain, at))
  {
    hide Without, At;
    var shorter := Without(chain, at);
    AtInside(chain, 0);
    AtWithout(chain, at, 0);
    forall j | 0 <= j < |shorter|
      ensures shorter[j].next == At(shorter, j + 1)
    {
      var k := if j < at then j else j + 1;
      AtInside(shorter, j);
      AtWithout(chain, at, j);
      AtInside(chain, k);
      AtWithout(chain, at, j + 1);
      assert shorter[j] == chain[k];
    }
  }

  /** The slots after an entry is unlinked from its chain. */
  lemma SlotsRemove<V(!new)>(slots: seq<HashEntry?<V>>, chains: seq<seq<HashEntry<V>>>, sizemask: uint32,
                             contents: map<Text, V>, idx: nat, at: nat)
    requires |slots| == |chains| && idx < |chains| && at < |chains[idx]|
    requires SlotsOk(slots, chains, sizemask, contents, idx) && Filed(chains[idx], idx, sizemask, contents)
    requires Linked(slots[idx], Without(chains[idx], at)) && Complete(chains, sizemask, contents)
    requires SlotOf(chains[idx][at].key, sizemask) == idx
    ensures var chains', contents' := chains[idx := Without(chains[idx], at)], contents - {chains[idx][at].key};
            SlotsOk(slots, chains', sizemask, contents', -1) && Complete(chains', sizemask, contents')
  {
    hide SlotOf, Linked, Filed, Has, Without;
    var key := chains[idx][at].key;
    forall i | 0 <= i < |chains| && i != idx
      ensures Filed(chains[i], i, sizemask, contents - {key})
    {
      FiledRemove(chains[i], i, sizemask, contents, key);
    }
    FiledWithout(chains[idx], at, idx, sizemask, contents);
    forall k | k in contents - {key} && SlotOf(k, sizemask) == idx
      ensures Has(Without(chains[idx], at), k)
    {
      HasWithout(chains[idx], at, k);
    }
  }

  lemma RemoveSize<K, V>(m: map<K, V>, key: K)
    requires key in m
    ensures |m - {key}| == |m| - 1
  {
    assert (m - {key}).Keys == m.Keys - {key};
    assert |m.Keys - {key}| == |m.Keys| - 1;
  }

  class Hash<V(!new)> {
    const table: array<HashEntry?<V>>
    const sizemask: uint32
    var used: nat
    ghost var chains: seq<seq<HashEntry<V>>>
    ghost var contents: map<Text, V>

    /** The table holds the map: chains are disjoint and end, an entry is only in the slot of its key,
        each key of the map has one entry, and `used` counts them. */
    ghost predicate Valid()
      reads this, table, EntriesOf(chains)
    {
      && sizemask < table.Length == |chains|
      && used == |contents|
      && SlotsOk(table[..], chains, sizemask, contents, -1)
      && Complete(chains, sizemask, contents)
    }

    constructor (size: nat, sizemask: uint32)
      requires sizemask < size
      ensures Valid() && contents == map[] && fresh(table) && table.Length == size && this.sizemask == sizemask
    {
      table := new HashEntry?<V>[size](_ => null);
      this.sizemask := sizemask;
      used := 0;
      chains := seq(size, _ => []);
      contents := map[];
    }

    /** used counts the entries, and no two of them have the same key. */
    lemma UsedCountsEntries()
      requires Valid()
      ensures used == |EntriesOf(chains)| && KeysOf(EntriesOf(chains)) == contents.Keys
    {
      OneEntryPerKey(table[..], chains, sizemask, contents);
    }

    method Slot(key: Text) returns (idx: nat)
      ensures idx == SlotOf(key, sizemask) <= sizemask
      ensures forall k: nat :: Bit(idx, k) == Bit(HashKey(key), k) * Bit(sizemask, k)
    {
      var hashKey := GetHashKey(key);
      AndAtMost(hashKey, sizemask);
      forall k: nat
        ensures Bit(And(hashKey, sizemask), k) == Bit(hashKey, k) * Bit(sizemask, k)
      {
        AndBits(hashKey, sizemask, k);
      }
      idx := And(hashKey, sizemask);
    }

    /** Walk a slot. What comes back is the entry of the key, with its place in the chain. */
    method Walk(idx: nat, key: Text) returns (prev: HashEntry?<V>, he: HashEntry?<V>, ghost at: nat)
      requires Valid() && idx == SlotOf(key, sizemask) < table.Length
      ensures he != null <==> key in contents
      ensures he != null ==> at < |chains[idx]| && he == chains[idx][at] && he.key == key && he.val == contents[key]
      ensures he != null ==> prev == if at == 0 then null else chains[idx][at - 1]
    {
      hide SlotOf;
      prev, he, at := null, table[idx], 0;
      ghost var chain := chains[idx];
      assert Linked(table[..][idx], chain) && Filed(chain, idx, sizemask, contents);
      while he != null
        invariant at <= |chain| && he == At(chain, at)
        invariant prev == if at == 0 then null else chain[at - 1]
        invariant forall j :: 0 <= j < at ==> chain[j].key != key
        decreases |chain| - at
      {
        if he.key == key {
          return;
        }
        prev, he, at := he, he.next, at + 1;
      }
    }

    /** The slot for a new key, or -1 if the key is there. */
    method GetHash(str: Text) returns (idx: int)
      requires Valid()
      ensures str in contents ==> idx == -1
      ensures str !in contents ==> idx == SlotOf(str, sizemask) < table.Length
      ensures str !in contents ==> forall k: nat :: Bit(idx, k) == Bit(HashKey(str), k) * Bit(sizemask, k)
    {
      idx := Slot(str);
      var _, he, _ := Walk(idx, str);
      if he != null {
        idx := -1;
      }
    }

    /** Insert-if-absent; a new entry goes to the front of its chain. */
    method HashAdd(key: Text, val: V) returns (ok: bool)
      requires Valid()
      modifies this, table
      ensures Valid() && ok == (key !in old(contents))
      ensures contents == if ok then old(contents)[key := val] else old(contents)
      ensures !ok ==> chains == old(chains)
      ensures ok ==> var i := SlotOf(key, sizemask);
                && |chains| == |old(chains)| && chains[i] != [] && fresh(chains[i][0])
                && chains == old(chains)[i := [chains[i][0]] + old(chains)[i]]
    {
      hide SlotOf, SlotsOk, Complete;
      var index := GetHash(key);
      if index == -1 {
        return false;
      }
      var entry := new HashEntry(key, val, table[index]);
      SlotsAdd(table[..], chains, sizemask, contents, entry);
      ghost var slots := table[..][index := entry];
      table[index] := entry;
      assert table[..] == slots;
      used := used + 1;
      chains := chains[index := [entry] + chains[index]];
      contents := contents[key := val];
      ok := true;
    }

    method EntryFind(key: Text) returns (he: HashEntry?<V>)
      requires Valid()
      ensures he != null <==> key in contents
      ensures he != null ==> he in chains[SlotOf(key, sizemask)] && he.key == key && he.val == contents[key]
    {
      hide SlotOf, SlotsOk, Complete;
      var idx := Slot(key);
      var _, e, at := Walk(idx, key);
      he := e;
    }

    /** Unlink in place: the one pointer to the entry now skips it. */
    method HashDelete(key: Text) returns (ok: bool)
      requires Valid()
      modifies this, table, EntriesOf(chains)
      ensures Valid() && ok == (key in old(contents))
      ensures contents == old(contents) - {key}
      ensures !ok ==> chains == old(chains)
      ensures ok ==> var i := SlotOf(key, sizemask);
                && |chains| == |old(chains)|
                && exists at :: 0 <= at < |old(chains)[i]| && old(chains)[i][at].key == key
                        && chains == old(chains)[i := Without(old(chains)[i], at)]
    {
      hide SlotOf, SlotsOk, Complete, Without;
      if used > 0 {
        var idx := Slot(key);
        var prevHe, he, at := Walk(idx, key);
        if he != null {
          Unlink(idx, prevHe, he, at);
          return true;
        }
      }
      ok := false;
    }

    method Unlink(idx: nat, prevHe: HashEntry?<V>, he: HashEntry<V>, ghost at: nat)
      requires Valid() && idx == SlotOf(he.key, sizemask) < table.Length && he.key in contents
      requires at < |chains[idx]| && he == chains[idx][at]
      requires prevHe == if at == 0 then null else chains[idx][at - 1]
      modifies this, table, EntriesOf(chains)
      ensures Valid() && contents == old(contents) - {he.key}
      ensures chains == old(chains)[idx := Without(old(chains)[idx], at)]
    {
      hide SlotOf, SlotsOk, Complete, Without, Filed, Linked;
      RemoveSize(contents, he.key);
      OtherSlots(table[..], chains, sizemask, contents, idx, if at == 0 then he else prevHe);
      Skip(idx, prevHe, he, at);
      SlotsRemove(table[..], chains, sizemask, contents, idx, at);
      chains := chains[idx := Without(chains[idx], at)];
      contents := contents - {he.key};
      used := used - 1;
    }

    /** The one pointer that changes, and the slots it leaves alone. */
    method Skip(idx: nat, prevHe: HashEntry?<V>, he: HashEntry<V>, ghost at: nat)
      requires idx < table.Length == |chains| && at < |chains[idx]| && he == chains[idx][at]
      requires prevHe == if at == 0 then null else chains[idx][at - 1]
      requires Linked(table[idx], chains[idx]) && Filed(chains[idx], idx, sizemask, contents)
      requires SlotsOk(table[..], chains, sizemask, contents, idx)
      requires forall i :: 0 <= i < |chains| && i != idx && at > 0 ==> prevHe !in chains[i]
      modifies table, if at == 0 then {} else {chains[idx][at - 1]}
      ensures Linked(table[idx], Without(chains[idx], at)) && Filed(chains[idx], idx, sizemask, contents)
      ensures SlotsOk(table[..], chains, sizemask, contents, idx)
    {
      hide SlotOf, Without;
      ghost var slots, chain := table[..], chains[idx];
      if prevHe != null {
        prevHe.next := he.next;
      } else {
        table[idx] := he.next;
      }
      LinkedWithout(table[idx], chain, at);
      forall i | 0 <= i < |chains| && i != idx
        ensures Linked(table[..][i], chains[i]) && Filed(chains[i], i, sizemask, contents)
      {
        assert Linked(slots[i], chains[i]);
      }
    }
  }
}
