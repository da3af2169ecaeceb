/** The learning bridge of dpdk-nfs/nf/bridge/bridge_forward.c with the expirator of
    dpdk-nfs/nf/lib/expirator.c, over the containers of HashMaps and DoubleChains. */
module Bridges {
  import opened ChainSpec
  import opened BridgeTable
  import opened HashMaps
  import opened DoubleChains
  import M = AssocList

  const FLOOD_FRAME: int := 0xFFFF

  const TWO_63: int := 0x8000_0000_0000_0000
  const TWO_64: int := 0x1_0000_0000_0000_0000

  datatype Frame = Frame(src: Mac, dst: Mac, port: Port, time: int)

  /** A time stamp is a non-negative int64_t. */
  ghost predicate IsTime(t: int) {
    0 <= t < TWO_63
  }

  // ----- the abstract step

  function LearnOrRefresh(table: Table, capacity: nat, src: Mac, port: Port, time: int): Table {
    if HasKey(table, src) then RejuvenateDynEntry(table, src, time)
    else if OutOfSpace(table, capacity) then table
    else AddDynEntry(table, src, port, time)
  }

  function Step(table: Table, capacity: nat, expiration: int, f: Frame): Table {
    LearnOrRefresh(ExpireAddresses(table, f.time - expiration), capacity, f.src, f.port, f.time)
  }

  function Output(table: Table, dst: Mac): int {
    if HasKey(table, dst) then GetPort(table, dst) else FLOOD_FRAME
  }

  function Run(table: Table, capacity: nat, expiration: int, fs: seq<Frame>): Table {
    if fs == [] then table
    else Step(Run(table, capacity, expiration, fs[..|fs| - 1]), capacity, expiration, fs[|fs| - 1])
  }

  function Outputs(table: Table, capacity: nat, expiration: int, fs: seq<Frame>): seq<int> {
    seq(|fs|, i requires 0 <= i < |fs| => Output(Run(table, capacity, expiration, fs[..i + 1]), fs[i].dst))
  }

  /** Frames arrive at 64-bit times, in order, the first not before last. */
  ghost predicate Timely(fs: seq<Frame>, last: int) {
    && (forall i :: 0 <= i < |fs| ==> IsTime(fs[i].time) && last <= fs[i].time)
    && (forall i, j :: 0 <= i < j < |fs| ==> fs[i].time <= fs[j].time)
  }

  lemma TimelyAt(fs: seq<Frame>, last: int, n: nat)
    requires Timely(fs, last) && n < |fs|
    ensures IsTime(fs[n].time) && (if n == 0 then last else fs[n - 1].time) <= fs[n].time
  {
  }

  lemma RunNothing(table: Table, capacity: nat, expiration: int, fs: seq<Frame>)
    ensures Run(table, capacity, expiration, fs[..0]) == table && Outputs(table, capacity, expiration, fs[..0]) == []
  {
  }

  lemma RunStep(table: Table, capacity: nat, expiration: int, fs: seq<Frame>, n: nat)
    requires n < |fs|
    ensures Run(table, capacity, expiration, fs[..n + 1])
            == Step(Run(table, capacity, expiration, fs[..n]), capacity, expiration, fs[n])
    ensures Outputs(table, capacity, expiration, fs[..n + 1])
            == Outputs(table, capacity, expiration, fs[..n])
               + [Output(Run(table, capacity, expiration, fs[..n + 1]), fs[n].dst)]
  {
    hide Step, Output;
    assert fs[..n + 1][..n] == fs[..n];
    forall k | 0 < k <= n
      ensures fs[..n + 1][..k] == fs[..n][..k]
    {
    }
    assert fs[..n + 1][..n + 1] == fs[..n + 1];
  }

  // ----- the expiry threshold

  /** The conversions of bridge_expire_entries: unsigned subtraction, then back to signed. */
  function MinTime(time: int, expiration: int): int {
    var u := (time - expiration) % TWO_64;
    if u < TWO_63 then u else u - TWO_64
  }

  /** The unsigned detour never changes the threshold, even before the first expiration. */
  lemma MinTimeIsDifference(time: int, expiration: int)
    requires IsTime(time) && 0 <= expiration < 0x1_0000_0000
    ensures MinTime(time, expiration) == time - expiration
  {
  }

  // ----- popping stale entries

  ghost function StaleKeys(keys: seq<Mac>, al: Alist, time: int): (r: seq<Mac>)
    requires Sorted(al) && NoDups(al) && InRange(al, |keys|)
    ensures |r| == StaleCount(al, time)
    ensures forall j :: 0 <= j < |r| ==> r[j] == keys[al[j].index]
  {
    ExpiredIsPrefix(al, time);
    KeysAt(keys, ExpiredIndexes(al, time))
  }

  /** After n pops: the n oldest keys are erased, and what is left is coherent. */
  ghost predicate Popped(m: M.Alist<Mac>, keys: seq<Mac>, al: Alist, time: int, n: nat, m': M.Alist<Mac>) {
    && Sorted(al) && NoDups(al) && InRange(al, |keys|)
    && n <= StaleCount(al, time)
    && m' == M.EraseAll(m, StaleKeys(keys, al, time)[..n])
    && Coherent(m', keys, al[n..])
  }

  lemma PoppedAtStart(m: M.Alist<Mac>, keys: seq<Mac>, al: Alist, time: int)
    requires Coherent(m, keys, al) && Sorted(al)
    ensures Popped(m, keys, al, time, 0, m)
  {
    assert al[0..] == al;
    assert StaleKeys(keys, al, time)[..0] == [];
  }

  /** Erasing the key of the next stale entry keeps coherence at every pop. */
  lemma PoppedOneMore(m: M.Alist<Mac>, keys: seq<Mac>, al: Alist, time: int, n: nat, m': M.Alist<Mac>)
    requires Popped(m, keys, al, time, n, m') && n < StaleCount(al, time)
    ensures var key := keys[al[n].index];
            0 <= al[n].index < |keys| && M.Has(m', key) && Popped(m, keys, al, time, n + 1, M.Erase(m', key))
  {
    hide Coherent, StaleCount, StaleKeys, Sorted, M.EraseAll, M.Erase;
    var key := keys[al[n].index];
    var stale := StaleKeys(keys, al, time);
    assert al[n..][0] == al[n];
    assert Allocated(al[n..], al[n].index);
    CoherentHas(m', keys, al[n..], al[n].index);
    CoherentExpireOne(m', keys, al[n..], 0);
    RemoveAt(al[n..], 0);
    assert al[n..][..0] + al[n..][1..] == al[n + 1..];
    M.EraseAnotherOne(m, stale[..n], key);
    assert stale[..n] + [key] == stale[..n + 1];
  }

  lemma PoppedAll(m: M.Alist<Mac>, keys: seq<Mac>, values: seq<Port>, al: Alist, time: int, m': M.Alist<Mac>)
    requires Coherent(m, keys, al)
    requires Popped(m, keys, al, time, StaleCount(al, time), m')
    ensures al[StaleCount(al, time)..] == ExpireOld(al, time)
    ensures StaleCount(al, time) == |ExpiredIndexes(al, time)|
    ensures Coherent(m', keys, ExpireOld(al, time)) && Sorted(ExpireOld(al, time))
    ensures forall t :: BoundedBy(al, t) ==> BoundedBy(ExpireOld(al, time), t)
    ensures GenDynEntries(m', values, ExpireOld(al, time)) == ExpireAddresses(GenDynEntries(m, values, al), time)
  {
    var n := StaleCount(al, time);
    ExpireOldIsSuffix(al, time);
    BridgeExpireAbstract(m, keys, values, al, time);
    ExpiredIsPrefix(al, time);
    assert StaleKeys(keys, al, time)[..n] == KeysAt(keys, ExpiredIndexes(al, time));
  }

  // ----- the bridge

  class Bridge {
    const macs: HashMap<Mac>
    const heap: DoubleChain
    const keys: array<Mac>
    const values: array<Port>
    const expiration: int
    ghost var lastTime: int
    /** The abstract table. */
    ghost var table: Table

    ghost predicate Separate() {
      && {this, keys, values} !! macs.Repr !! heap.Repr
      && keys as object != values
    }

    ghost function Capacity(): nat {
      keys.Length
    }

    /** The invariant. It is Inv under another name: Dafny unfolds a predicate that stands alone in a
        contract, and comparing with true keeps Inv folded where a method hides it. */
    ghost predicate Valid()
      reads this, keys, values, macs, macs.Repr, heap, heap.Repr
    {
      Inv() == true
    }

    /** bridge_loop_invariant of dpdk-nfs/nf/bridge/bridge_loop.h, without the static table. */
    ghost predicate Inv()
      reads this, keys, values, macs, macs.Repr, heap, heap.Repr
    {
      && Separate()
      && macs.Valid() && heap.Valid()
      && 0 <= expiration < 0x1_0000_0000
      && heap.Range() == macs.capacity == keys.Length == values.Length
      && Coherent(macs.entries, keys[..], heap.value)
      && Sorted(heap.value)
      && BoundedBy(heap.value, lastTime)
      && table == GenDynEntries(macs.entries, values[..], heap.value)
    }

    /** nf_core_init. Any capacity is accepted; the bridge works with a power of two. */
    constructor (capacity: nat, expirationTime: int, hash: Mac -> int)
      requires capacity > 0 && 0 <= expirationTime < 0x1_0000_0000
      ensures Valid() <==> PowerOfTwo(capacity)
      ensures fresh(keys) && fresh(values) && fresh(macs.Repr) && fresh(heap.Repr)
      ensures table == [] && Capacity() == capacity && expiration == expirationTime && lastTime == 0
    {
      hide HashMaps.HashMap.Valid, DoubleChains.DoubleChain.Valid;
      CoherentEmpty(seq(capacity, _ => 0));
      var m := new HashMap(capacity, hash);
      var h := new DoubleChain(capacity);
      macs, heap := m, h;
      keys := new Mac[capacity](_ => 0);
      values := new Port[capacity](_ => 0);
      expiration := expirationTime;
      lastTime := 0;
      table := [];
      new;
      assert Separate();
      assert keys[..] == seq(capacity, _ => 0);
      hide Coherent;
      assert Inv() <==> PowerOfTwo(capacity);
    }

    /** expire_items_single_map: pop stale indices off the chain, erasing each one's key. */
    method ExpireItemsSingleMap(time: int) returns (count: nat)
      requires Valid()
      modifies this`table, macs.Repr, heap.Repr
      ensures Valid() && lastTime == old(lastTime)
      ensures heap.value == ExpireOld(old(heap.value), time)
      ensures count == |ExpiredIndexes(old(heap.value), time)|
      ensures table == ExpireAddresses(old(table), time)
    {
      hide HashMaps.HashMap.Valid, DoubleChains.DoubleChain.Valid, Popped, Coherent, StaleCount;
      hide ExpireOld, ExpiredIndexes, ExpireAddresses, GenDynEntries, Sorted, BoundedBy;
      ghost var al, m := heap.value, macs.entries;
      PoppedAtStart(m, keys[..], al, time);
      count := 0;
      var more, index := heap.ExpireOneIndex(time);
      while more
        invariant macs.Valid() && heap.Valid() && table == old(table)
        invariant count <= StaleCount(al, time)
        invariant Popped(m, keys[..], al, time, count, macs.entries)
        invariant more <==> count < StaleCount(al, time)
        invariant more ==> index == al[count].index
        invariant heap.value == al[if more then count + 1 else count..]
        decreases StaleCount(al, time) - count
      {
        PoppedOneMore(m, keys[..], al, time, count, macs.entries);
        var key := keys[index];
        macs.Erase(key);
        count := count + 1;
        more, index := heap.ExpireOneIndex(time);
      }
      PoppedAll(m, keys[..], values[..], al, time, macs.entries);
      table := ExpireAddresses(table, time);
    }

    method ExpireEntries(time: int) returns (count: nat)
      requires Valid() && IsTime(time)
      modifies this`table, macs.Repr, heap.Repr
      ensures Valid() && lastTime == old(lastTime)
      ensures table == ExpireAddresses(old(table), time - expiration)
      ensures count == |ExpiredIndexes(old(heap.value), time - expiration)|
    {
      hide HashMaps.HashMap.Valid, DoubleChains.DoubleChain.Valid;
      MinTimeIsDifference(time, expiration);
      count := ExpireItemsSingleMap(MinTime(time, expiration));
    }

    method GetDevice(dst: Mac) returns (device: int)
      requires Valid()
      ensures device == if HasKey(table, dst) then GetPort(table, dst) else -1
    {
      DynMapHas(macs.entries, values[..], heap.value, dst);
      var present, index := macs.Get(dst);
      if present {
        DynMapHasGet(macs.entries, values[..], heap.value, dst);
        return values[index];
      }
      return -1;
    }

    /** The source is known: refresh its index. */
    method Refresh(src: Mac, index: int, time: int)
      requires Valid() && lastTime <= time
      requires M.Has(macs.entries, src) && index == M.Get(macs.entries, src)
      modifies this`table, this`lastTime, heap.Repr
      ensures Valid() && lastTime == time
      ensures table == RejuvenateDynEntry(old(table), src, time)
    {
      hide HashMaps.HashMap.Valid, DoubleChains.DoubleChain.Valid;
      ghost var m, al, ks := macs.entries, heap.value, keys[..];
      BridgeRejuvEntry(m, ks, values[..], al, src, time);
      CoherentRejuvenate(m, ks, al, index, time);
      RejuvenateKeepsOrder(al, index, time, |ks|);
      var _ := heap.RejuvenateIndex(index, time);
      lastTime, table := time, RejuvenateDynEntry(table, src, time);
    }

    /** The source is new and got an index: store its address and port. */
    method Learn(src: Mac, srcDevice: Port, index: int, time: int, ghost al: Alist)
      requires Separate() && macs.Valid() && heap.Valid()
      requires heap.Range() == macs.capacity == keys.Length == values.Length
      requires 0 <= expiration < 0x1_0000_0000
      requires Coherent(macs.entries, keys[..], al) && Sorted(al) && BoundedBy(al, time)
      requires table == GenDynEntries(macs.entries, values[..], al)
      requires 0 <= index < keys.Length && !Allocated(al, index) && |al| < keys.Length
      requires heap.value == Allocate(al, index, time) && !M.Has(macs.entries, src)
      modifies this`table, this`lastTime, keys, values, macs.Repr
      ensures Valid() && lastTime == time
      ensures table == AddDynEntry(old(table), src, srcDevice, time)
    {
      hide HashMaps.HashMap.Valid, DoubleChains.DoubleChain.Valid;
      ghost var m, ks, vs := macs.entries, keys[..], values[..];
      CoherentSameSize(m, ks, al);
      BridgeAddEntry(m, ks, vs, al, src, index, srcDevice, time);
      CoherentPut(m, ks, al, index, src, time);
      AllocateKeepsOrder(al, index, time);
      keys[index] := src;
      values[index] := srcDevice;
      assert keys[..] == ks[index := src] && values[..] == vs[index := srcDevice];
      macs.Put(src, index);
      lastTime, table := time, AddDynEntry(table, src, srcDevice, time);
    }

    method PutUpdateEntry(src: Mac, srcDevice: Port, time: int)
      requires Valid() && lastTime <= time
      modifies this, keys, values, macs.Repr, heap.Repr
      ensures Valid() && lastTime == time
      ensures table == LearnOrRefresh(old(table), Capacity(), src, srcDevice, time)
    {
      hide HashMaps.HashMap.Valid, DoubleChains.DoubleChain.Valid;
      ghost var al := heap.value;
      DynMapHas(macs.entries, values[..], al, src);
      OutOfSpaceAgrees(macs.entries, keys[..], al, values[..]);
      var present, index := macs.Get(src);
      if present {
        Refresh(src, index, time);
      } else {
        var ok;
        ok, index := heap.AllocateNewIndex(time);
        if ok {
          Learn(src, srcDevice, index, time, al);
        } else {
          lastTime := time;
        }
      }
    }

    /** nf_core_process: expire, learn, look up. */
    method Process(f: Frame) returns (device: int)
      requires Valid() && IsTime(f.time) && lastTime <= f.time
      modifies this, keys, values, macs.Repr, heap.Repr
      ensures Valid() && lastTime == f.time
      ensures table == Step(old(table), Capacity(), expiration, f)
      ensures device == Output(table, f.dst)
    {
      hide Inv, HasKey, GetPort, ExpireAddresses, LearnOrRefresh;
      var _ := ExpireEntries(f.time);
      PutUpdateEntry(f.src, f.port, f.time);
      var dstDevice := GetDevice(f.dst);
      if dstDevice == -1 {
        return FLOOD_FRAME;
      }
      return dstDevice;
    }

    /** The processing loop: over every run of frames in time order, the concrete bridge steps
        exactly as the abstract table does and answers every frame from it. */
    method ProcessAll(fs: seq<Frame>) returns (devices: seq<int>)
      requires Valid()
      requires Timely(fs, lastTime)
      modifies this, keys, values, macs.Repr, heap.Repr
      ensures Valid()
      ensures table == Run(old(table), Capacity(), expiration, fs)
      ensures devices == Outputs(old(table), Capacity(), expiration, fs)
    {
      devices := [];
      ghost var start := table;
      RunNothing(start, Capacity(), expiration, fs);
      hide Inv, Run, Step, Output, Outputs, Timely;
      for n := 0 to |fs|
        invariant Valid()
        invariant lastTime == if n == 0 then old(lastTime) else fs[n - 1].time
        invariant table == Run(start, Capacity(), expiration, fs[..n])
        invariant devices == Outputs(start, Capacity(), expiration, fs[..n])
      {
        RunStep(start, Capacity(), expiration, fs, n);
        TimelyAt(fs, old(lastTime), n);
        var device := Process(fs[n]);
        devices := devices + [device];
      }
      assert fs[..|fs|] == fs;
    }
  }
}
