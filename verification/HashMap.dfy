/** The open-addressing hash table of dpdk-nfs/nf/lib/containers/map-impl.c and map.c. Each
    bucket counts, in chns, the keys whose probe path crosses it, so that a lookup can stop at
    a bucket that nothing crosses. */
module HashMaps {
  import opened AssocList
  import Modulo

  // ----- the index arithmetic

  /** Two's complement a & m for a mask m >= 0. */
  function BitAnd(a: int, m: nat): nat
    decreases m
  {
    if m == 0 then 0 else 2 * BitAnd(a / 2, m / 2) + if m % 2 == 1 then a % 2 else 0
  }

  predicate PowerOfTwo(n: nat) {
    n == 1 || (n > 0 && n % 2 == 0 && PowerOfTwo(n / 2))
  }

  /** The fast modulo of `loop`. */
  function Loop(k: int, capacity: nat): nat
    requires capacity > 0
  {
    BitAnd(BitAnd(k, capacity - 1) + capacity, capacity - 1)
  }

  lemma {:induction false} AndMask(a: int, n: nat)
    requires PowerOfTwo(n)
    ensures BitAnd(a, n - 1) == a % n
    decreases n
  {
    if n > 1 {
      var h := n / 2;
      AndMask(a / 2, h);
      OddMask(a, h);
      DoubleMod(a, h);
    }
  }

  lemma OddMask(a: int, h: nat)
    requires h > 0
    ensures BitAnd(a, 2 * h - 1) == 2 * BitAnd(a / 2, h - 1) + a % 2
  {
    assert (2 * h - 1) / 2 == h - 1;
  }

  lemma DoubleMod(a: int, h: nat)
    requires h > 0
    ensures a % (2 * h) == 2 * ((a / 2) % h) + a % 2
  {
    var q, r := (a / 2) / h, (a / 2) % h;
    Halved(a, h, q, r);
    Modulo.Mod(a, 2 * h, q, 2 * r + a % 2);
  }

  lemma Halved(a: int, h: int, q: int, r: int)
    requires a / 2 == q * h + r
    ensures a == q * (2 * h) + (2 * r + a % 2)
  {
    assert q * (2 * h) == 2 * (q * h);
  }

  lemma {:induction false} AndSelf(n: nat)
    ensures BitAnd(n, n) == n
  {
    if n > 0 {
      AndSelf(n / 2);
    }
  }

  lemma {:induction false} AndPredecessorZero(n: nat)
    requires n > 0 && BitAnd(n, n - 1) == 0
    ensures PowerOfTwo(n)
  {
    if n % 2 == 0 {
      assert (n - 1) / 2 == n / 2 - 1;
      AndPredecessorZero(n / 2);
    } else if n > 1 {
      assert (n - 1) / 2 == n / 2;
      AndSelf(n / 2);
    }
  }

  /** The source annotates `loop` as the modulo for every capacity. The fast form is the modulo
      exactly for the powers of two. */
  lemma LoopIsModuloIff(capacity: nat)
    requires capacity > 0
    ensures (forall k :: Loop(k, capacity) == k % capacity) <==> PowerOfTwo(capacity)
  {
    if PowerOfTwo(capacity) {
      forall k
        ensures Loop(k, capacity) == k % capacity
      {
        FastModulo(k, capacity);
      }
    }
    if forall k :: Loop(k, capacity) == k % capacity {
      assert Loop(0, capacity) == 0 % capacity == 0;
      AndZero(capacity - 1);
      AndPredecessorZero(capacity);
    }
  }

  lemma FastModulo(k: int, capacity: nat)
    requires capacity > 0 && PowerOfTwo(capacity)
    ensures Loop(k, capacity) == k % capacity
  {
    hide BitAnd, PowerOfTwo;
    var r := k % capacity;
    AndMask(k, capacity);
    AndMask(r + capacity, capacity);
    Modulo.AddMultiple(r, 1, capacity);
    Modulo.Mod(r, capacity, 0, r);
  }

  lemma {:induction false} AndTwice(a: int, m: nat)
    ensures BitAnd(a, m) <= m && BitAnd(BitAnd(a, m), m) == BitAnd(a, m)
    decreases m
  {
    if m > 0 {
      AndTwice(a / 2, m / 2);
      AndStep(a, m);
      AndStep(BitAnd(a, m), m);
    }
  }

  lemma AndStep(a: int, m: nat)
    requires m > 0
    ensures BitAnd(a, m) / 2 == BitAnd(a / 2, m / 2) && BitAnd(a, m) % 2 == if m % 2 == 1 then a % 2 else 0
  {
  }

  /** A mask that leaves every smaller number alone is one less than a power of two. */
  lemma {:induction false} FullMask(m: nat)
    requires forall j :: 0 <= j <= m ==> BitAnd(j, m) == j
    ensures PowerOfTwo(m + 1)
  {
    hide BitAnd;
    if m > 0 {
      MaskIsOdd(m);
      forall j | 0 <= j <= m / 2
        ensures BitAnd(j, m / 2) == j
      {
        HalfMask(m, j);
      }
      FullMask(m / 2);
      assert m + 1 == 2 * (m / 2 + 1);
    }
  }

  lemma MaskIsOdd(m: nat)
    requires m > 0 && BitAnd(1, m) == 1
    ensures m % 2 == 1
  {
    AndStep(1, m);
  }

  lemma HalfMask(m: nat, j: nat)
    requires m > 0 && BitAnd(2 * j, m) == 2 * j
    ensures BitAnd(j, m / 2) == j
  {
    hide BitAnd;
    AndStep(2 * j, m);
  }

  ghost predicate Reached(capacity: nat, j: int)
    requires capacity > 0
  {
    exists k :: Loop(k, capacity) == j
  }

  lemma LoopRange(k: int, capacity: nat)
    requires capacity > 0
    ensures Loop(k, capacity) < capacity && BitAnd(Loop(k, capacity), capacity - 1) == Loop(k, capacity)
  {
    hide BitAnd;
    AndTwice(BitAnd(k, capacity - 1) + capacity, capacity - 1);
  }

  /** With any other capacity the index stays in range, but some bucket is never reached. */
  lemma AllReachedIff(capacity: nat)
    requires capacity > 0
    ensures forall k :: 0 <= Loop(k, capacity) < capacity
    ensures (forall j :: 0 <= j < capacity ==> Reached(capacity, j)) <==> PowerOfTwo(capacity)
  {
    hide BitAnd, Loop;
    forall k
      ensures 0 <= Loop(k, capacity) < capacity
    {
      LoopRange(k, capacity);
    }
    if PowerOfTwo(capacity) {
      forall j | 0 <= j < capacity
        ensures Reached(capacity, j)
      {
        FastModulo(j, capacity);
        Modulo.Mod(j, capacity, 0, j);
        assert Loop(j, capacity) == j;
      }
    }
    if forall j :: 0 <= j < capacity ==> Reached(capacity, j) {
      var m := capacity - 1;
      forall j | 0 <= j <= m
        ensures BitAnd(j, m) == j
      {
        assert Reached(capacity, j);
        var k :| Loop(k, capacity) == j;
        LoopRange(k, capacity);
      }
      FullMask(m);
    }
  }

  lemma {:induction false} AndZero(m: nat)
    ensures BitAnd(0, m) == 0
  {
    if m > 0 {
      AndZero(m / 2);
    }
  }

  // ----- probe paths

  /** The d-th bucket on the probe path from start. */
  function Probe(start: int, d: int, capacity: int): int {
    if start + d < capacity then start + d else start + d - capacity
  }

  /** How far bucket j is from start on the probe path. */
  function Dist(start: int, j: int, capacity: int): int {
    if start <= j then j - start else j - start + capacity
  }

  lemma LoopIsProbe(start: int, d: int, capacity: nat)
    requires PowerOfTwo(capacity) && 0 <= start < capacity && 0 <= d < capacity
    ensures Loop(start + d, capacity) == Probe(start, d, capacity)
  {
    LoopIsModuloIff(capacity);
    Modulo.Mod(start + d, capacity, if start + d < capacity then 0 else 1, Probe(start, d, capacity));
  }

  /** The busy buckets whose key's probe path passes bucket i before it ends. */
  ghost function Crossing(busy: seq<bool>, homes: seq<int>, i: int): set<int>
    requires |busy| == |homes|
  {
    set j | 0 <= j < |busy| && busy[j] && Dist(homes[j], i, |busy|) < Dist(homes[j], j, |busy|)
  }

  ghost function Busy(busy: seq<bool>): set<int> {
    set j | 0 <= j < |busy| && busy[j]
  }

  lemma {:induction false} AllBusy(busy: seq<bool>)
    requires forall j :: 0 <= j < |busy| ==> busy[j]
    ensures |Busy(busy)| == |busy|
  {
    if busy != [] {
      var n := |busy| - 1;
      AllBusy(busy[..n]);
      assert Busy(busy) == Busy(busy[..n]) + {n};
    }
  }

  /** A table with fewer keys than buckets has an empty bucket. */
  lemma SomeBucketEmpty(busy: seq<bool>)
    requires |Busy(busy)| < |busy|
    ensures exists j :: 0 <= j < |busy| && !busy[j]
  {
    if forall j :: 0 <= j < |busy| ==> busy[j] {
      AllBusy(busy);
    }
  }

  /** Not every bucket is busy, but every bucket that a probe path can reach: find_empty returns -1 for
      every hash, and map_impl_put stores the next key at that index. */
  ghost predicate Stuck(busy: seq<bool>, capacity: nat)
    requires capacity > 0
  {
    && |busy| == capacity && |Busy(busy)| < capacity
    && forall k :: 0 <= Loop(k, capacity) < capacity && busy[Loop(k, capacity)]
  }

  /** A table can get stuck below its capacity exactly when the capacity is not a power of two. */
  lemma StuckIff(capacity: nat)
    requires capacity > 0
    ensures (exists busy :: Stuck(busy, capacity)) <==> !PowerOfTwo(capacity)
  {
    hide Loop, PowerOfTwo;
    AllReachedIff(capacity);
    if PowerOfTwo(capacity) {
      if busy :| Stuck(busy, capacity) {
        forall j | 0 <= j < capacity
          ensures busy[j]
        {
          assert Reached(capacity, j);
        }
        AllBusy(busy);
      }
    } else {
      var j :| 0 <= j < capacity && !Reached(capacity, j);
      var all := seq(capacity, _ => true);
      AllBusy(all);
      assert Busy(all[j := false]) == Busy(all) - {j};
      assert Stuck(all[j := false], capacity);
    }
  }

  /** A snapshot of the table: busy bits, keys, their hashes and values. */
  datatype Buckets<K> = Buckets(busy: seq<bool>, keys: seq<K>, khs: seq<int>, vals: seq<int>) {
    ghost predicate Sized(n: nat) {
      |busy| == |keys| == |khs| == |vals| == n
    }

    function Fill(i: int, k: K, kh: int, v: int): Buckets<K>
      requires Sized(|busy|) && 0 <= i < |busy|
    {
      Buckets(busy[i := true], keys[i := k], khs[i := kh], vals[i := v])
    }
  }

  /** Slots and busy buckets are inverse to each other; slots carry the list's values. */
  ghost predicate Stored<K(!new)>(b: Buckets<K>, hash: K -> int, slot: map<K, int>, entries: Alist<K>)
    requires b.Sized(|b.busy|)
  {
    && (forall k :: k in slot ==> 0 <= slot[k] < |b.busy| && b.busy[slot[k]] && b.keys[slot[k]] == k)
    && (forall j :: 0 <= j < |b.busy| && b.busy[j] ==>
          b.keys[j] in slot && slot[b.keys[j]] == j && b.khs[j] == hash(b.keys[j]))
    && (forall k :: k in slot <==> Has(entries, k))
    && (forall k :: k in slot ==> b.vals[slot[k]] == Get(entries, k))
  }

  lemma FillKeepsStored<K(!new)>(b: Buckets<K>, hash: K -> int, slot: map<K, int>, entries: Alist<K>,
                                 i: int, k: K, v: int)
    requires b.Sized(|b.busy|) && Stored(b, hash, slot, entries) && NoDupKeys(entries)
    requires 0 <= i < |b.busy| && !b.busy[i] && !Has(entries, k)
    ensures Stored(b.Fill(i, k, hash(k), v), hash, slot[k := i], Put(entries, k, v))
  {
    PutAdds(entries, k, v);
  }

  lemma FreeKeepsStored<K(!new)>(b: Buckets<K>, hash: K -> int, slot: map<K, int>, entries: Alist<K>, k: K)
    requires b.Sized(|b.busy|) && Stored(b, hash, slot, entries) && NoDupKeys(entries)
    requires k in slot
    ensures Stored(b.(busy := b.busy[slot[k] := false]), hash, slot - {k}, Erase(entries, k))
  {
    EraseDrops(entries, k);
    forall x | x != k
      ensures Has(Erase(entries, k), x) == Has(entries, x) && Get(Erase(entries, k), x) == Get(entries, x)
    {
      EraseKeepsOthers(entries, k, x);
    }
  }

  class HashMap<K(==, 0, !new)> {
    const capacity: nat
    const hash: K -> int
    const busybits: array<bool>
    const keys: array<K>
    const khs: array<int>
    const chns: array<int>
    const vals: array<int>
    var size: int
    ghost var entries: Alist<K>
    ghost var slot: map<K, int>

    ghost const Repr: set<object>

    ghost predicate Shape() {
      && Repr == {this, busybits, keys, khs, chns, vals}
      && PowerOfTwo(capacity)
      && busybits.Length == keys.Length == khs.Length == chns.Length == vals.Length == capacity
      && busybits as object != keys && busybits as object !in {khs, chns, vals}
      && keys as object !in {khs, chns, vals}
      && khs != chns && khs != vals && chns != vals
    }

    ghost function Home(k: K): int
      requires capacity > 0
    {
      Loop(hash(k), capacity)
    }

    /** Where the busy buckets' probe paths start. */
    ghost function Homes(): seq<int>
      requires Shape()
      reads khs
    {
      seq(capacity, j requires 0 <= j < capacity reads khs => Loop(khs[j], capacity))
    }

    ghost function Snapshot(): Buckets<K>
      reads busybits, keys, khs, vals
    {
      Buckets(busybits[..], keys[..], khs[..], vals[..])
    }

    /** Each bucket's counter is the number of probe paths that cross it. */
    ghost predicate Counted()
      requires Shape()
      reads khs, chns, busybits
    {
      forall i :: 0 <= i < capacity ==> chns[i] == |Crossing(busybits[..], Homes(), i)|
    }

    ghost predicate Valid()
      reads this, Repr
      ensures Valid() ==> this in Repr
    {
      && Shape()
      && NoDupKeys(entries)
      && size == |entries| == |Busy(busybits[..])|
      && Stored(Snapshot(), hash, slot, entries)
      && Counted()
    }

    /** map_impl_init. Any capacity is accepted, but only with a power of two is the result a map (StuckIff). */
    constructor (cap: nat, hash: K -> int)
      requires cap > 0
      ensures (Valid() <==> PowerOfTwo(cap)) && fresh(Repr)
      ensures capacity == cap && this.hash == hash && entries == []
      ensures size == 0 && busybits.Length == cap && forall i :: 0 <= i < cap ==> !busybits[i]
    {
      hide PowerOfTwo;
      capacity := cap;
      this.hash := hash;
      busybits := new bool[cap](_ => false);
      keys := new K[cap];
      khs := new int[cap];
      chns := new int[cap](_ => 0);
      vals := new int[cap];
      size := 0;
      Repr := {this, busybits, keys, khs, chns, vals};
      entries, slot := [], map[];
      new;
      assert Busy(busybits[..]) == {};
      if PowerOfTwo(cap) {
        forall i | 0 <= i < capacity
          ensures Crossing(busybits[..], Homes(), i) == {}
        {
        }
      }
    }

    /** If a key is stored, the bucket holding it crosses every earlier bucket on its path. */
    lemma StoredKeyCrosses(k: K, d: nat)
      requires Valid() && k in slot
      requires d < Dist(Home(k), slot[k], capacity)
      ensures chns[Probe(Home(k), d, capacity)] > 0
    {
      var i := Probe(Home(k), d, capacity);
      LoopIsModuloIff(capacity);
      assert slot[k] in Crossing(busybits[..], Homes(), i);
    }

    /** Bucket x has the hash of k but holds another key. */
    ghost predicate CollidesAt(k: K, keyHash: int, x: int)
      requires Shape() && 0 <= x < capacity
      reads busybits, keys, khs
    {
      busybits[x] && khs[x] == keyHash && keys[x] != k
    }

    /** A search for k ends at bucket x: it holds k, or it has another hash and nothing crosses it. */
    ghost predicate StopsAt(k: K, keyHash: int, x: int)
      requires Shape() && 0 <= x < capacity
      reads busybits, keys, khs, chns
    {
      if busybits[x] && khs[x] == keyHash then keys[x] == k else chns[x] == 0
    }

    /** The collisions on the first n buckets of the probe path from start. */
    ghost function Collisions(k: K, keyHash: int, start: int, n: nat): (r: nat)
      requires Shape() && 0 <= start < capacity && n <= capacity
      reads busybits, keys, khs
      ensures r <= n
    {
      if n == 0 then 0
      else Collisions(k, keyHash, start, n - 1) + if CollidesAt(k, keyHash, Probe(start, n - 1, capacity)) then 1 else 0
    }

    /** The search from start ends after exactly n buckets. */
    ghost predicate SearchLength(k: K, keyHash: int, start: int, n: nat)
      requires Shape() && 0 <= start < capacity
      reads busybits, keys, khs, chns
    {
      && 1 <= n <= capacity
      && (forall d :: 0 <= d < n - 1 ==> !StopsAt(k, keyHash, Probe(start, d, capacity)))
      && (n < capacity ==> StopsAt(k, keyHash, Probe(start, n - 1, capacity)))
    }

    ghost predicate HoldsAt(k: K, keyHash: int, x: int)
      requires Shape() && 0 <= x < capacity
      reads busybits, keys, khs
    {
      busybits[x] && khs[x] == keyHash && keys[x] == k
    }

    /** The walk of find_key, whatever the buckets hold. Also returns the two counters its
        instrumentation prints: the buckets traversed and the collisions. */
    method Search(k: K, keyHash: int) returns (index: int, traversed: nat, collisions: nat)
      requires Shape()
      ensures var start := Loop(keyHash, capacity);
              && 0 <= start < capacity && SearchLength(k, keyHash, start, traversed)
              && collisions == Collisions(k, keyHash, start, traversed)
              && var last := Probe(start, traversed - 1, capacity);
                 index == if HoldsAt(k, keyHash, last) then last else -1
    {
      LoopRange(keyHash, capacity);
      hide Loop, BitAnd, PowerOfTwo;
      var start := Loop(keyHash, capacity);
      var i := 0;
      traversed, collisions := 0, 0;
      while i < capacity
        invariant 0 <= i <= capacity && traversed == i
        invariant collisions == Collisions(k, keyHash, start, i)
        invariant forall d :: 0 <= d < i ==> !StopsAt(k, keyHash, Probe(start, d, capacity))
      {
        traversed := traversed + 1;
        LoopIsProbe(start, i, capacity);
        index := Loop(start + i, capacity);
        var chn := chns[index];
        if busybits[index] && khs[index] == keyHash {
          if keys[index] == k {
            return;
          }
          collisions := collisions + 1;
        } else {
          if chn == 0 {
            index := -1;
            return;
          }
        }
        i := i + 1;
      }
      index := -1;
    }

    /** A walk that stops where it must ends at the key's bucket, if it has one. */
    lemma SearchFinds(k: K, n: nat)
      requires Valid() && 0 <= Home(k) < capacity && SearchLength(k, hash(k), Home(k), n)
      ensures var last := Probe(Home(k), n - 1, capacity);
              && (HoldsAt(k, hash(k), last) <==> k in slot)
              && (k in slot ==> last == slot[k] && n == Dist(Home(k), slot[k], capacity) + 1)
    {
      hide Loop, BitAnd, PowerOfTwo, Crossing, Busy;
      if k in slot {
        var far := Dist(Home(k), slot[k], capacity);
        assert StopsAt(k, hash(k), Probe(Home(k), far, capacity));
        if n - 1 < far {
          StoredKeyCrosses(k, n - 1);
        }
      }
    }

    /** find_key. */
    method FindKey(k: K, keyHash: int) returns (index: int, traversed: nat, collisions: nat)
      requires Valid() && keyHash == hash(k)
      ensures index == if k in slot then slot[k] else -1
      ensures 0 <= Home(k) < capacity && SearchLength(k, keyHash, Home(k), traversed)
      ensures collisions == Collisions(k, keyHash, Home(k), traversed)
      ensures k in slot ==> traversed == Dist(Home(k), slot[k], capacity) + 1
    {
      hide Loop, PowerOfTwo, Stored, Counted, Busy, HoldsAt, SearchLength, Collisions, Probe;
      index, traversed, collisions := Search(k, keyHash);
      SearchFinds(k, traversed);
    }

    /** find_empty: the first empty bucket on the path; the buckets before it count one more
        crossing. */
    method FindEmpty(start: int) returns (index: int)
      requires Shape() && 0 <= start < capacity
      requires exists j :: 0 <= j < capacity && !busybits[j]
      modifies chns
      ensures 0 <= index < capacity && !busybits[index]
      ensures forall x :: 0 <= x < capacity ==>
                chns[x] == old(chns[x]) + if Dist(start, x, capacity) < Dist(start, index, capacity) then 1 else 0
    {
      hide Loop, BitAnd, PowerOfTwo;
      ghost var empty :| 0 <= empty < capacity && !busybits[empty];
      var i := 0;
      index := -1;
      while i < capacity
        invariant 0 <= i <= Dist(start, empty, capacity)
        invariant forall x :: 0 <= x < capacity ==>
                    chns[x] == old(chns[x]) + if Dist(start, x, capacity) < i then 1 else 0
      {
        LoopIsProbe(start, i, capacity);
        index := Loop(start + i, capacity);
        if !busybits[index] {
          break;
        }
        chns[index] := chns[index] + 1;
        i := i + 1;
      }
    }

    /** find_key_remove_chain: frees the key's bucket; the buckets before it on the path count
        one crossing less. */
    method FindKeyRemoveChain(k: K, keyHash: int) returns (index: int)
      requires Shape() && Stored(Snapshot(), hash, slot, entries) && keyHash == hash(k) && k in slot
      modifies busybits, chns
      ensures index == slot[k]
      ensures busybits[..] == old(busybits[..])[index := false]
      ensures forall x :: 0 <= x < capacity ==>
                chns[x] == old(chns[x]) - if Dist(Home(k), x, capacity) < Dist(Home(k), index, capacity) then 1 else 0
    {
      hide Loop, BitAnd;
      LoopIsModuloIff(capacity);
      var start := Loop(keyHash, capacity);
      var i := 0;
      index := -1;
      while i < capacity
        invariant 0 <= i <= Dist(start, slot[k], capacity)
        invariant busybits[..] == old(busybits[..])
        invariant forall x :: 0 <= x < capacity ==>
                    chns[x] == old(chns[x]) - if Dist(start, x, capacity) < i then 1 else 0
      {
        LoopIsProbe(start, i, capacity);
        index := Loop(start + i, capacity);
        assert busybits[index] == busybits[..][index];
        if busybits[index] && khs[index] == keyHash && keys[index] == k {
          break;
        }
        chns[index] := chns[index] - 1;
        i := i + 1;
      }
      busybits[index] := false;
    }

    method Get(k: K) returns (found: bool, value: int)
      requires Valid()
      ensures found <==> Has(entries, k)
      ensures found ==> value == AssocList.Get(entries, k)
    {
      var index, _, _ := FindKey(k, hash(k));
      if index == -1 {
        return false, -1;
      }
      return true, vals[index];
    }

    /** Taking an empty bucket adds one crossing to the buckets before it on the key's path. */
    lemma TakenCrossing(busy: seq<bool>, homes: seq<int>, homes': seq<int>, index: int, i: int)
      requires |busy| == |homes| == |homes'| && 0 <= index < |busy| && !busy[index]
      requires forall j :: 0 <= j < |busy| && j != index ==> homes[j] == homes'[j]
      ensures |Crossing(busy[index := true], homes', i)|
              == |Crossing(busy, homes, i)|
                 + if Dist(homes'[index], i, |busy|) < Dist(homes'[index], index, |busy|) then 1 else 0
      ensures |Busy(busy[index := true])| == |Busy(busy)| + 1
    {
      assert Busy(busy[index := true]) == Busy(busy) + {index};
      var more := Crossing(busy[index := true], homes', i);
      if Dist(homes'[index], i, |busy|) < Dist(homes'[index], index, |busy|) {
        assert more == Crossing(busy, homes, i) + {index};
      } else {
        assert more == Crossing(busy, homes, i);
      }
    }

    /** map_impl_put: fill the first empty bucket on the path. */
    method ImplPut(k: K, keyHash: int, value: int) returns (index: int)
      requires Shape() && exists j :: 0 <= j < capacity && !busybits[j]
      modifies busybits, keys, khs, chns, vals
      ensures 0 <= index < capacity && !old(busybits[index])
      ensures busybits[..] == old(busybits[..])[index := true]
      ensures keys[..] == old(keys[..])[index := k]
      ensures khs[..] == old(khs[..])[index := keyHash]
      ensures vals[..] == old(vals[..])[index := value]
      ensures var start := Loop(keyHash, capacity);
              forall x :: 0 <= x < capacity ==>
                chns[x] == old(chns[x]) + if Dist(start, x, capacity) < Dist(start, index, capacity) then 1 else 0
    {
      LoopIsModuloIff(capacity);
      var start := Loop(keyHash, capacity);
      index := FindEmpty(start);
      busybits[index] := true;
      keys[index] := k;
      khs[index] := keyHash;
      vals[index] := value;
    }

    method Put(k: K, value: int)
      requires Valid() && |entries| < capacity && !Has(entries, k)
      modifies Repr
      ensures Valid() && entries == AssocList.Put(old(entries), k, value)
    {
      hide Loop, BitAnd, PowerOfTwo, Crossing;
      SomeBucketEmpty(busybits[..]);
      ghost var busy, homes := busybits[..], Homes();
      ghost var b := Snapshot();
      var index := ImplPut(k, hash(k), value);
      FillKeepsStored(b, hash, slot, entries, index, k, value);
      assert Snapshot() == b.Fill(index, k, hash(k), value);
      size := size + 1;
      assert Homes() == homes[index := Home(k)];
      TakenCrossing(busy, homes, Homes(), index, 0);
      forall i | 0 <= i < capacity
        ensures chns[i] == |Crossing(busybits[..], Homes(), i)|
      {
        TakenCrossing(busy, homes, Homes(), index, i);
      }
      PutAdds(entries, k, value);
      entries := AssocList.Put(entries, k, value);
      slot := slot[k := index];
    }

    method Erase(k: K)
      requires Valid() && Has(entries, k)
      modifies Repr
      ensures Valid() && entries == AssocList.Erase(old(entries), k)
    {
      ghost var busy, homes, b := busybits[..], Homes(), Snapshot();
      var index := FindKeyRemoveChain(k, hash(k));
      size := size - 1;
      EraseDrops(entries, k);
      FreeKeepsStored(b, hash, slot, entries, k);
      assert Snapshot() == b.(busy := busy[index := false]);
      entries := AssocList.Erase(entries, k);
      slot := slot - {k};
      assert busybits[..] == busy[index := false];
      assert busy == busybits[..][index := true];
      TakenCrossing(busybits[..], homes, homes, index, 0);
      forall i | 0 <= i < capacity
        ensures chns[i] == |Crossing(busybits[..], Homes(), i)|
      {
        TakenCrossing(busybits[..], homes, homes, index, i);
      }
    }
  }
}
