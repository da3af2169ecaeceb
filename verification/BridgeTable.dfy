/** The abstract MAC table of dpdk-nfs/nf/lib/bridge-abstract-state.h, the coherence of map, key
    vector and chain, and the refinement lemmas that dpdk-nfs/nf/bridge/abstract-state.c and
    dpdk-nfs/nf/lib/coherence.c state but leave unproved. */
module BridgeTable {
  import opened ChainSpec
  import M = AssocList

  type Mac = m: nat | m < 0x1_0000_0000_0000
  type Port = p: nat | p < 0x1_0000

  datatype DynEntry = DynEntry(addr: Mac, port: Port, time: int)

  type Table = seq<DynEntry>

  predicate HasKey(table: Table, key: Mac) {
    table != [] && (table[0].addr == key || HasKey(table[1..], key))
  }

  function GetPort(table: Table, key: Mac): Port {
    if table == [] then 0 else if table[0].addr == key then table[0].port else GetPort(table[1..], key)
  }

  predicate OutOfSpace(table: Table, capacity: nat) {
    capacity <= |table|
  }

  function AddDynEntry(table: Table, addr: Mac, port: Port, time: int): Table {
    [DynEntry(addr, port, time)] + table
  }

  function RejuvenateDynEntry(table: Table, addr: Mac, time: int): Table {
    if table == [] then []
    else if table[0].addr == addr then [table[0].(time := time)] + table[1..]
    else [table[0]] + RejuvenateDynEntry(table[1..], addr, time)
  }

  function ExpireAddresses(table: Table, time: int): Table {
    if table == [] then []
    else if table[0].time < time then ExpireAddresses(table[1..], time)
    else [table[0]] + ExpireAddresses(table[1..], time)
  }

  ghost predicate SetEq<T(!new)>(a: seq<T>, b: seq<T>) {
    forall x :: x in a <==> x in b
  }

  // ----- the abstraction function

  function EntryOf(p: (Mac, int), values: seq<Port>, al: Alist): DynEntry {
    DynEntry(p.0, if 0 <= p.1 < |values| then values[p.1] else 0, TimeOf(al, p.1))
  }

  function GenDynEntries(m: M.Alist<Mac>, values: seq<Port>, al: Alist): Table {
    if m == [] then [] else [EntryOf(m[0], values, al)] + GenDynEntries(m[1..], values, al)
  }

  /** Map, key vector and chain agree: the map's values are exactly the allocated indices, and
      the key vector inverts the map. */
  ghost predicate Coherent(m: M.Alist<Mac>, keys: seq<Mac>, al: Alist) {
    && M.NoDupKeys(m) && NoDups(al) && InRange(al, |keys|)
    && (forall k :: M.Has(m, k) ==> Allocated(al, M.Get(m, k)) && keys[M.Get(m, k)] == k)
    && (forall i :: Allocated(al, i) ==> M.Has(m, keys[i]) && M.Get(m, keys[i]) == i)
  }

  lemma CoherentPair(m: M.Alist<Mac>, keys: seq<Mac>, al: Alist, p: (Mac, int))
    requires Coherent(m, keys, al)
    ensures p in m <==> Allocated(al, p.1) && keys[p.1] == p.0
  {
    M.PairIsBinding(m, p.0, p.1);
  }

  lemma CoherentHas(m: M.Alist<Mac>, keys: seq<Mac>, al: Alist, i: int)
    requires Coherent(m, keys, al) && Allocated(al, i)
    ensures 0 <= i < |keys| && M.Has(m, keys[i])
  {
  }

  // ----- coherence is kept (coherence.c, coherence.h)

  lemma CoherentEmpty(keys: seq<Mac>)
    ensures Coherent([], keys, [])
  {
  }

  lemma CoherentPut(m: M.Alist<Mac>, keys: seq<Mac>, al: Alist, index: int, key: Mac, time: int)
    requires Coherent(m, keys, al)
    requires !Allocated(al, index) && 0 <= index < |keys| && !M.Has(m, key)
    ensures Coherent(M.Put(m, key, index), keys[index := key], Allocate(al, index, time))
  {
    M.PutAdds(m, key, index);
    AllocateAdds(al, index, time, |keys|);
  }

  lemma CoherentExpireOne(m: M.Alist<Mac>, keys: seq<Mac>, al: Alist, p: nat)
    requires Coherent(m, keys, al) && p < |al|
    ensures Coherent(M.Erase(m, keys[al[p].index]), keys, RemoveByIndex(al, al[p].index))
    ensures |M.Erase(m, keys[al[p].index])| == |m| - 1
  {
    var i, k := al[p].index, keys[al[p].index];
    var m', al' := M.Erase(m, k), RemoveByIndex(al, i);
    CoherentHas(m, keys, al, i);
    M.EraseDrops(m, k);
    RemoveOne(al, p, |keys|);
    hide M.Erase, RemoveByIndex;
    forall x | M.Has(m', x)
      ensures Allocated(al', M.Get(m', x)) && keys[M.Get(m', x)] == x
    {
      assert x != k;
      M.EraseKeepsOthers(m, k, x);
    }
    forall j | Allocated(al', j)
      ensures M.Has(m', keys[j]) && M.Get(m', keys[j]) == j
    {
      assert keys[j] != k;
      M.EraseKeepsOthers(m, k, keys[j]);
    }
  }

  lemma RemoveOne(al: Alist, p: nat, range: nat)
    requires NoDups(al) && InRange(al, range) && p < |al|
    ensures Allocated(al, al[p].index)
    ensures var r := RemoveByIndex(al, al[p].index);
            && NoDups(r) && InRange(r, range)
            && forall x :: Allocated(r, x) <==> Allocated(al, x) && x != al[p].index
  {
    RemoveAt(al, p);
    hide RemoveByIndex;
    var rest := al[..p] + al[p + 1..];
    assert RemoveByIndex(al, al[p].index) == rest;
    WithoutKeeps(al, p, range);
    forall x
      ensures Allocated(rest, x) <==> Allocated(al, x) && x != al[p].index
    {
      AllocatedWithout(al, p, x);
    }
  }

  lemma WithoutKeeps(al: Alist, p: nat, range: nat)
    requires NoDups(al) && InRange(al, range) && p < |al|
    ensures NoDups(al[..p] + al[p + 1..]) && InRange(al[..p] + al[p + 1..], range)
  {
    var rest := al[..p] + al[p + 1..];
    forall k | 0 <= k < |rest|
      ensures rest[k] == al[if k < p then k else k + 1]
    {
    }
  }

  lemma AllocatedWithout(al: Alist, p: nat, x: int)
    requires NoDups(al) && p < |al|
    ensures Allocated(al[..p] + al[p + 1..], x) <==> Allocated(al, x) && x != al[p].index
  {
    var rest := al[..p] + al[p + 1..];
    if k :| 0 <= k < |rest| && rest[k].index == x {
      assert rest[k] == al[if k < p then k else k + 1];
    }
    if k :| 0 <= k < |al| && al[k].index == x && k != p {
      assert rest[if k < p then k else k - 1] == al[k];
    }
  }

  lemma CoherentRejuvenate(m: M.Alist<Mac>, keys: seq<Mac>, al: Alist, index: int, time: int)
    requires Coherent(m, keys, al) && Allocated(al, index)
    ensures Coherent(m, keys, Rejuvenate(al, index, time))
  {
    var p :| 0 <= p < |al| && al[p].index == index;
    RejuvenateAt(al, p, time);
    forall x
      ensures Allocated(Rejuvenate(al, index, time), x) <==> Allocated(al, x)
    {
      RejuvenateTimes(al, index, time, x);
    }
  }

  /** The map holds as many keys as the chain has allocated indices. */
  lemma {:induction false} CoherentSameSize(m: M.Alist<Mac>, keys: seq<Mac>, al: Alist)
    requires Coherent(m, keys, al)
    ensures |m| == |al|
    decreases |al|
  {
    if al == [] {
      if m != [] {
        M.GetAt(m, 0);
        assert false;
      }
    } else {
      CoherentExpireOne(m, keys, al, 0);
      RemoveAt(al, 0);
      CoherentSameSize(M.Erase(m, keys[al[0].index]), keys, RemoveByIndex(al, al[0].index));
    }
  }

  /** The chain runs out of indices exactly when the abstract table is full. */
  lemma OutOfSpaceAgrees(m: M.Alist<Mac>, keys: seq<Mac>, al: Alist, values: seq<Port>)
    requires Coherent(m, keys, al)
    ensures |keys| <= |al| <==> OutOfSpace(GenDynEntries(m, values, al), |keys|)
  {
    CoherentSameSize(m, keys, al);
    GenAt(m, values, al);
  }

  // ----- lookups commute with the abstraction

  lemma {:induction false} GenAt(m: M.Alist<Mac>, values: seq<Port>, al: Alist)
    ensures |GenDynEntries(m, values, al)| == |m|
    ensures forall i :: 0 <= i < |m| ==> GenDynEntries(m, values, al)[i] == EntryOf(m[i], values, al)
  {
    if m != [] {
      GenAt(m[1..], values, al);
    }
  }

  lemma {:induction false} DynMapHas(m: M.Alist<Mac>, values: seq<Port>, al: Alist, key: Mac)
    ensures M.Has(m, key) == HasKey(GenDynEntries(m, values, al), key)
  {
    if m != [] {
      DynMapHas(m[1..], values, al, key);
      assert GenDynEntries(m, values, al)[1..] == GenDynEntries(m[1..], values, al);
    }
  }

  lemma {:induction false} DynMapHasGet(m: M.Alist<Mac>, values: seq<Port>, al: Alist, key: Mac)
    requires HasKey(GenDynEntries(m, values, al), key)
    ensures M.Has(m, key)
    ensures GetPort(GenDynEntries(m, values, al), key)
            == if 0 <= M.Get(m, key) < |values| then values[M.Get(m, key)] else 0
  {
    assert GenDynEntries(m, values, al)[1..] == GenDynEntries(m[1..], values, al);
    if m[0].0 != key {
      DynMapHasGet(m[1..], values, al, key);
    }
  }

  // ----- the three updates commute with the abstraction

  /** Learning an address: the new table is the old one with one entry in front. */
  lemma BridgeAddEntry(m: M.Alist<Mac>, keys: seq<Mac>, values: seq<Port>, al: Alist,
                       addr: Mac, index: int, port: Port, time: int)
    requires Coherent(m, keys, al) && |values| == |keys|
    requires 0 <= index < |values| && !Allocated(al, index)
    ensures GenDynEntries(M.Put(m, addr, index), values[index := port], Allocate(al, index, time))
            == AddDynEntry(GenDynEntries(m, values, al), addr, port, time)
  {
    var al', values' := Allocate(al, index, time), values[index := port];
    AllocateAdds(al, index, time, |keys|);
    GenAt(m, values, al);
    GenAt(m, values', al');
    forall i | 0 <= i < |m|
      ensures GenDynEntries(m, values', al')[i] == GenDynEntries(m, values, al)[i]
    {
      CoherentPair(m, keys, al, m[i]);
    }
    assert GenDynEntries(m, values', al') == GenDynEntries(m, values, al);
    assert M.Put(m, addr, index)[1..] == m;
  }

  /** Refreshing a known address. */
  lemma BridgeRejuvEntry(m: M.Alist<Mac>, keys: seq<Mac>, values: seq<Port>, al: Alist, addr: Mac, time: int)
    requires Coherent(m, keys, al) && M.Has(m, addr)
    ensures GenDynEntries(m, values, Rejuvenate(al, M.Get(m, addr), time))
            == RejuvenateDynEntry(GenDynEntries(m, values, al), addr, time)
  {
    var index := M.Get(m, addr);
    forall i | 0 <= i < |m|
      ensures EntryOf(m[i], values, Rejuvenate(al, index, time))
              == if m[i].0 == addr then EntryOf(m[i], values, al).(time := time) else EntryOf(m[i], values, al)
    {
      CoherentPair(m, keys, al, m[i]);
      RejuvenateTimes(al, index, time, m[i].1);
    }
    GenRejuvenated(m, values, al, Rejuvenate(al, index, time), addr, time);
  }

  lemma GenSame(m: M.Alist<Mac>, values: seq<Port>, al: Alist, al': Alist)
    requires forall i :: 0 <= i < |m| ==> EntryOf(m[i], values, al') == EntryOf(m[i], values, al)
    ensures GenDynEntries(m, values, al') == GenDynEntries(m, values, al)
  {
    hide EntryOf, GenDynEntries;
    GenAt(m, values, al);
    GenAt(m, values, al');
  }

  lemma {:induction false} GenRejuvenated(m: M.Alist<Mac>, values: seq<Port>, al: Alist, al': Alist,
                                          addr: Mac, time: int)
    requires M.NoDupKeys(m)
    requires forall i :: 0 <= i < |m| ==>
               EntryOf(m[i], values, al')
               == if m[i].0 == addr then EntryOf(m[i], values, al).(time := time) else EntryOf(m[i], values, al)
    ensures GenDynEntries(m, values, al') == RejuvenateDynEntry(GenDynEntries(m, values, al), addr, time)
  {
    if m != [] {
      var rest := GenDynEntries(m[1..], values, al);
      assert GenDynEntries(m, values, al)[1..] == rest;
      if m[0].0 == addr {
        assert forall i :: 0 <= i < |m[1..]| ==> m[1..][i] == m[i + 1] && m[i + 1].0 != addr;
        GenSame(m[1..], values, al, al');
      } else {
        GenRejuvenated(m[1..], values, al, al', addr, time);
      }
    }
  }

  /** The keys stored at the given indices. */
  function KeysAt(keys: seq<Mac>, indexes: seq<int>): seq<Mac>
    requires forall j :: 0 <= j < |indexes| ==> 0 <= indexes[j] < |keys|
  {
    seq(|indexes|, j requires 0 <= j < |indexes| => keys[indexes[j]])
  }

  lemma {:induction false} ExpiredMember(al: Alist, time: int, i: int)
    requires NoDups(al)
    ensures i in ExpiredIndexes(al, time) <==> Allocated(al, i) && TimeOf(al, i) < time
  {
    if al != [] {
      var rest := al[1..];
      ExpiredMember(rest, time, i);
      PopAllocated(al, i);
    }
  }

  lemma PopAllocated(al: Alist, i: int)
    requires NoDups(al) && al != []
    ensures Allocated(al, i) <==> al[0].index == i || Allocated(al[1..], i)
    ensures al[0].index == i ==> !Allocated(al[1..], i)
  {
    if k :| 0 <= k < |al| && al[k].index == i && k > 0 {
      assert al[1..][k - 1].index == i;
    }
    if k :| 0 <= k < |al[1..]| && al[1..][k].index == i {
      assert al[k + 1].index == i;
    }
  }

  lemma ExpiredInRange(al: Alist, time: int, range: nat)
    requires NoDups(al) && InRange(al, range)
    ensures forall j :: 0 <= j < |ExpiredIndexes(al, time)| ==> 0 <= ExpiredIndexes(al, time)[j] < range
  {
    forall j | 0 <= j < |ExpiredIndexes(al, time)|
      ensures 0 <= ExpiredIndexes(al, time)[j] < range
    {
      ExpiredMember(al, time, ExpiredIndexes(al, time)[j]);
    }
  }

  lemma {:induction false} RemoveAllTime(al: Alist, indexes: seq<int>, i: int)
    requires NoDups(al) && i !in indexes
    ensures TimeOf(RemoveAll(al, indexes), i) == TimeOf(al, i)
    decreases |indexes|
  {
    if indexes != [] {
      RemoveKeepsTime(al, indexes[0], i);
      if p :| 0 <= p < |al| && al[p].index == indexes[0] {
        RemoveAt(al, p);
      } else {
        RemoveAbsent(al, indexes[0]);
      }
      RemoveAllTime(RemoveByIndex(al, indexes[0]), indexes[1..], i);
    }
  }

  lemma {:induction false} RemoveKeepsTime(al: Alist, j: int, i: int)
    requires i != j
    ensures TimeOf(RemoveByIndex(al, j), i) == TimeOf(al, i)
  {
    if al != [] && al[0].index != j {
      RemoveKeepsTime(al[1..], j, i);
      assert ([al[0]] + RemoveByIndex(al[1..], j))[1..] == RemoveByIndex(al[1..], j);
    }
  }

  /** Keeping the pairs whose key is not listed. */
  function KeepOthers(m: M.Alist<Mac>, keys: seq<Mac>): M.Alist<Mac> {
    if m == [] then []
    else if m[0].0 in keys then KeepOthers(m[1..], keys)
    else [m[0]] + KeepOthers(m[1..], keys)
  }

  lemma {:induction false} EraseAllKeepsOthers(m: M.Alist<Mac>, keys: seq<Mac>)
    requires M.NoDupKeys(m)
    ensures M.EraseAll(m, keys) == KeepOthers(m, keys)
    decreases |keys|
  {
    if keys == [] {
      KeepAll(m);
    } else {
      EraseAllKeepsOthers(m, keys[1..]);
      EraseKept(m, keys);
    }
  }

  lemma {:induction false} KeepAll(m: M.Alist<Mac>)
    ensures KeepOthers(m, []) == m
  {
    if m != [] {
      KeepAll(m[1..]);
    }
  }

  lemma {:induction false} EraseKept(m: M.Alist<Mac>, keys: seq<Mac>)
    requires M.NoDupKeys(m) && keys != []
    ensures M.Erase(KeepOthers(m, keys[1..]), keys[0]) == KeepOthers(m, keys)
  {
    assert keys == [keys[0]] + keys[1..];
    if m != [] {
      EraseKept(m[1..], keys);
      var rest := KeepOthers(m[1..], keys[1..]);
      assert ([m[0]] + rest)[1..] == rest;
      if m[0].0 == keys[0] {
        KeptWithout(m[1..], keys);
      }
    }
  }

  lemma {:induction false} KeptWithout(m: M.Alist<Mac>, keys: seq<Mac>)
    requires keys != [] && forall i :: 0 <= i < |m| ==> m[i].0 != keys[0]
    ensures KeepOthers(m, keys[1..]) == KeepOthers(m, keys)
  {
    assert keys == [keys[0]] + keys[1..];
    if m != [] {
      KeptWithout(m[1..], keys);
    }
  }

  lemma {:induction false} GenKept(m: M.Alist<Mac>, values: seq<Port>, al: Alist, al': Alist, keys: seq<Mac>, time: int)
    requires forall i :: 0 <= i < |m| ==> (m[i].0 in keys <==> TimeOf(al, m[i].1) < time)
    requires forall i :: 0 <= i < |m| && m[i].0 !in keys ==> TimeOf(al', m[i].1) == TimeOf(al, m[i].1)
    ensures GenDynEntries(KeepOthers(m, keys), values, al') == ExpireAddresses(GenDynEntries(m, values, al), time)
  {
    if m != [] {
      GenKept(m[1..], values, al, al', keys, time);
      assert GenDynEntries(m, values, al)[1..] == GenDynEntries(m[1..], values, al);
      var kept := KeepOthers(m[1..], keys);
      assert ([m[0]] + kept)[1..] == kept;
    }
  }

  ghost predicate StaleInRange(keys: seq<Mac>, al: Alist, time: int) {
    forall j :: 0 <= j < |ExpiredIndexes(al, time)| ==> 0 <= ExpiredIndexes(al, time)[j] < |keys|
  }

  /** The map and chain after expiry, as a table. */
  ghost function TableAfterExpiry(m: M.Alist<Mac>, keys: seq<Mac>, values: seq<Port>, al: Alist, time: int): Table
    requires StaleInRange(keys, al, time)
  {
    GenDynEntries(M.EraseAll(m, KeysAt(keys, ExpiredIndexes(al, time))), values, ExpireOld(al, time))
  }

  /** Of every binding: its key is named by a stale index exactly when its own index is stale, and if it
      is not named, expiry leaves the time of its index alone. */
  ghost predicate ExpiryMatches(m: M.Alist<Mac>, keys: seq<Mac>, al: Alist, time: int)
    requires StaleInRange(keys, al, time)
  {
    var gone := KeysAt(keys, ExpiredIndexes(al, time));
    forall i :: 0 <= i < |m| ==>
                  && (m[i].0 in gone <==> TimeOf(al, m[i].1) < time)
                  && (m[i].0 !in gone ==> TimeOf(ExpireOld(al, time), m[i].1) == TimeOf(al, m[i].1))
  }

  lemma CoherentMatches(m: M.Alist<Mac>, keys: seq<Mac>, al: Alist, time: int)
    requires Coherent(m, keys, al)
    ensures StaleInRange(keys, al, time) && ExpiryMatches(m, keys, al, time)
  {
    ExpiredInRange(al, time, |keys|);
    var stale := ExpiredIndexes(al, time);
    var gone := KeysAt(keys, stale);
    forall i | 0 <= i < |m|
      ensures m[i].0 in gone <==> TimeOf(al, m[i].1) < time
      ensures m[i].0 !in gone ==> TimeOf(ExpireOld(al, time), m[i].1) == TimeOf(al, m[i].1)
    {
      CoherentPair(m, keys, al, m[i]);
      ExpiredMember(al, time, m[i].1);
      if m[i].1 in stale {
        var j :| 0 <= j < |stale| && stale[j] == m[i].1;
        assert gone[j] == m[i].0;
      } else {
        RemoveAllTime(al, stale, m[i].1);
      }
      if j :| 0 <= j < |gone| && gone[j] == m[i].0 {
        ExpiredMember(al, time, stale[j]);
        M.GetAt(m, i);
      }
    }
  }

  lemma {:induction false} KeptMember(m: M.Alist<Mac>, keys: seq<Mac>, p: (Mac, int))
    ensures p in KeepOthers(m, keys) <==> p in m && p.0 !in keys
  {
    if m != [] {
      KeptMember(m[1..], keys, p);
      assert m == [m[0]] + m[1..];
    }
  }

  lemma {:induction false} UnexpiredMember(table: Table, time: int, e: DynEntry)
    ensures e in ExpireAddresses(table, time) <==> e in table && time <= e.time
  {
    if table != [] {
      UnexpiredMember(table[1..], time, e);
      assert table == [table[0]] + table[1..];
    }
  }

  lemma GenMember(m: M.Alist<Mac>, values: seq<Port>, al: Alist, e: DynEntry)
    ensures e in GenDynEntries(m, values, al) <==> exists p :: p in m && e == EntryOf(p, values, al)
  {
    GenAt(m, values, al);
    if p :| p in m && e == EntryOf(p, values, al) {
      var i :| 0 <= i < |m| && m[i] == p;
      assert GenDynEntries(m, values, al)[i] == e;
    }
    if i :| 0 <= i < |m| && GenDynEntries(m, values, al)[i] == e {
      assert m[i] in m && e == EntryOf(m[i], values, al);
    }
  }

  /** The one entry of a binding's address on either side. */
  lemma SidesOf(m: M.Alist<Mac>, keys: seq<Mac>, values: seq<Port>, al: Alist, time: int, p: (Mac, int), e: DynEntry)
    requires StaleInRange(keys, al, time) && M.NoDupKeys(m) && p in m && e.addr == p.0
    ensures e in TableAfterExpiry(m, keys, values, al, time)
            <==> p.0 !in KeysAt(keys, ExpiredIndexes(al, time)) && e == EntryOf(p, values, ExpireOld(al, time))
    ensures e in ExpireAddresses(GenDynEntries(m, values, al), time)
            <==> time <= TimeOf(al, p.1) && e == EntryOf(p, values, al)
  {
    hide GenDynEntries, ExpireAddresses, KeepOthers, M.EraseAll, KeysAt, ExpiredIndexes, ExpireOld;
    var gone := KeysAt(keys, ExpiredIndexes(al, time));
    assert forall q :: q in m && q.0 == p.0 ==> q == p;
    EraseAllKeepsOthers(m, gone);
    var kept := KeepOthers(m, gone);
    GenMember(kept, values, ExpireOld(al, time), e);
    GenMember(m, values, al, e);
    UnexpiredMember(GenDynEntries(m, values, al), time, e);
    KeptMember(m, gone, p);
    forall q | q in kept
      ensures q in m
    {
      KeptMember(m, gone, q);
    }
  }

  /** Expiry of map and chain is expiry of the table exactly when every binding matches; then the tables
      are even equal as lists. */
  lemma ExpireAbstractIff(m: M.Alist<Mac>, keys: seq<Mac>, values: seq<Port>, al: Alist, time: int)
    requires M.NoDupKeys(m) && StaleInRange(keys, al, time)
    ensures SetEq(TableAfterExpiry(m, keys, values, al, time), ExpireAddresses(GenDynEntries(m, values, al), time))
            <==> ExpiryMatches(m, keys, al, time)
    ensures ExpiryMatches(m, keys, al, time) ==>
              TableAfterExpiry(m, keys, values, al, time) == ExpireAddresses(GenDynEntries(m, values, al), time)
  {
    var gone := KeysAt(keys, ExpiredIndexes(al, time));
    EraseAllKeepsOthers(m, gone);
    if ExpiryMatches(m, keys, al, time) {
      GenKept(m, values, al, ExpireOld(al, time), gone, time);
    } else {
      var i :| 0 <= i < |m| && !((m[i].0 in gone <==> TimeOf(al, m[i].1) < time)
                                 && (m[i].0 !in gone ==> TimeOf(ExpireOld(al, time), m[i].1) == TimeOf(al, m[i].1)));
      SidesDiffer(m, keys, values, al, time, m[i]);
    }
  }

  lemma SidesDiffer(m: M.Alist<Mac>, keys: seq<Mac>, values: seq<Port>, al: Alist, time: int, p: (Mac, int))
    requires StaleInRange(keys, al, time) && M.NoDupKeys(m) && p in m
    requires var gone := KeysAt(keys, ExpiredIndexes(al, time));
             !((p.0 in gone <==> TimeOf(al, p.1) < time)
               && (p.0 !in gone ==> TimeOf(ExpireOld(al, time), p.1) == TimeOf(al, p.1)))
    ensures !SetEq(TableAfterExpiry(m, keys, values, al, time), ExpireAddresses(GenDynEntries(m, values, al), time))
  {
    hide TableAfterExpiry, ExpireAddresses, GenDynEntries, KeysAt, ExpiredIndexes, ExpireOld;
    var gone := KeysAt(keys, ExpiredIndexes(al, time));
    var e := EntryOf(p, values, if p.0 in gone then al else ExpireOld(al, time));
    SidesOf(m, keys, values, al, time, p, e);
  }

  /** Under coherence every binding matches, so expiry of the map and the chain removes from the table
      exactly the entries older than time. The source asks no coherence. */
  lemma BridgeExpireAbstract(m: M.Alist<Mac>, keys: seq<Mac>, values: seq<Port>, al: Alist, time: int)
    requires Coherent(m, keys, al)
    ensures StaleInRange(keys, al, time)
    ensures TableAfterExpiry(m, keys, values, al, time) == ExpireAddresses(GenDynEntries(m, values, al), time)
  {
    CoherentMatches(m, keys, al, time);
    ExpireAbstractIff(m, keys, values, al, time);
  }

  /** Two addresses on one index: erasing only the one the key vector names leaves the other. */
  lemma ExpireAbstractNeedsCoherence()
    ensures var m: M.Alist<Mac> := [(1, 0), (2, 0)];
            var keys: seq<Mac>, values: seq<Port>, al := [1], [7], [Stamp(0, 5)];
            && KeysAt(keys, ExpiredIndexes(al, 6)) == [1]
            && !SetEq(GenDynEntries(M.EraseAll(m, [1]), values, ExpireOld(al, 6)),
                      ExpireAddresses(GenDynEntries(m, values, al), 6))
  {
    var m: M.Alist<Mac> := [(1, 0), (2, 0)];
    var values: seq<Port>, al := [7], [Stamp(0, 5)];
    assert ExpiredIndexes(al, 6) == [0] by {
      assert al[1..] == [];
    }
    assert [0][1..] == [];
    assert M.EraseAll(m, [1]) == [(2, 0)] by {
      assert [1 as Mac][1..] == [];
      assert M.EraseAll(m, []) == m;
      assert m[1..] == [(2, 0)];
    }
    var left := GenDynEntries([(2, 0)], values, ExpireOld(al, 6));
    assert left[0].addr == 2 && left[0] in left;
    var full := GenDynEntries(m, values, al);
    assert m[1..] == [(2, 0)] && m[1..][1..] == [];
    assert full == [DynEntry(1, 7, 5), DynEntry(2, 7, 5)];
    assert full[1..] == [DynEntry(2, 7, 5)] && full[1..][1..] == [];
    assert ExpireAddresses(full[1..], 6) == ExpireAddresses(full[1..][1..], 6) == [];
    assert ExpireAddresses(full, 6) == [];
  }

  // ----- updates on tables that hold the same entries in another order

  ghost predicate DistinctAddrs(table: Table) {
    forall i, j :: 0 <= i < j < |table| ==> table[i].addr != table[j].addr
  }

  lemma BridgeAddEntrySetEq(t1: Table, t2: Table, addr: Mac, port: Port, time: int)
    requires SetEq(t1, t2)
    ensures SetEq(AddDynEntry(t1, addr, port, time), AddDynEntry(t2, addr, port, time))
  {
  }

  lemma {:induction false} RejuvenateMember(table: Table, addr: Mac, time: int, e: DynEntry)
    requires DistinctAddrs(table)
    ensures e in RejuvenateDynEntry(table, addr, time)
            <==> if e.addr != addr then e in table
                 else e.time == time && exists x :: x in table && x.(time := time) == e
  {
    if table != [] {
      var rest := table[1..];
      assert table == [table[0]] + rest;
      RejuvenateMember(rest, addr, time, e);
      if table[0].addr == addr {
        assert forall x :: x in rest ==> x.addr != addr;
      }
    }
  }

  /** The source states this for every pair of tables; it needs tables without duplicate
      addresses (see RejuvSetEqIff). */
  lemma BridgeRejuvEntrySetEq(t1: Table, t2: Table, addr: Mac, time: int)
    requires SetEq(t1, t2) && DistinctAddrs(t1) && DistinctAddrs(t2)
    ensures SetEq(RejuvenateDynEntry(t1, addr, time), RejuvenateDynEntry(t2, addr, time))
  {
    forall e
      ensures e in RejuvenateDynEntry(t1, addr, time) <==> e in RejuvenateDynEntry(t2, addr, time)
    {
      RejuvenateMember(t1, addr, time, e);
      RejuvenateMember(t2, addr, time, e);
    }
  }

  ghost predicate UpToDate(table: Table, addr: Mac, time: int) {
    forall e :: e in table && e.addr == addr ==> e.time == time
  }

  lemma {:induction false} RejuvenateUpToDate(table: Table, addr: Mac, time: int)
    requires UpToDate(table, addr, time)
    ensures RejuvenateDynEntry(table, addr, time) == table
  {
    if table != [] {
      assert table[0] in table;
      forall e | e in table[1..]
        ensures e in table
      {
      }
      RejuvenateUpToDate(table[1..], addr, time);
    }
  }

  function DropEntry(table: Table, e: DynEntry): (r: Table)
    ensures forall x :: x in r <==> x in table && x != e
  {
    if table == [] then []
    else
      var r := DropEntry(table[1..], e);
      assert table == [table[0]] + table[1..];
      if table[0] == e then r else [table[0]] + r
  }

  /** Without assuming distinct addresses, refreshing an address treats all tables with the same
      entries alike exactly when every entry of that address already carries the new time. */
  lemma RejuvSetEqIff(t1: Table, addr: Mac, time: int)
    ensures (forall t2 :: SetEq(t1, t2) ==>
               SetEq(RejuvenateDynEntry(t1, addr, time), RejuvenateDynEntry(t2, addr, time)))
            <==> UpToDate(t1, addr, time)
  {
    if UpToDate(t1, addr, time) {
      RejuvenateUpToDate(t1, addr, time);
      forall t2 | SetEq(t1, t2)
        ensures SetEq(RejuvenateDynEntry(t1, addr, time), RejuvenateDynEntry(t2, addr, time))
      {
        RejuvenateUpToDate(t2, addr, time);
      }
    } else {
      var e :| e in t1 && e.addr == addr && e.time != time;
      var twice, once := [e] + ([e] + t1), [e] + DropEntry(t1, e);
      assert SetEq(t1, twice) && SetEq(t1, once);
      assert twice[1..] == [e] + t1 && once[1..] == DropEntry(t1, e);
      assert e in RejuvenateDynEntry(twice, addr, time);
      assert e !in RejuvenateDynEntry(once, addr, time);
    }
  }
}
