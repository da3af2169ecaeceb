/** The value of a double chain: the allocated indices with their time stamps,
    oldest first, as the specification in dpdk-nfs/nf/lib/containers/double-chain.h. */
module ChainSpec {

  datatype Stamp = Stamp(index: int, time: int)

  type Alist = seq<Stamp>

  predicate Allocated(al: Alist, i: int) {
    exists k :: 0 <= k < |al| && al[k].index == i
  }

  function Indexes(al: Alist): seq<int> {
    seq(|al|, k requires 0 <= k < |al| => al[k].index)
  }

  ghost predicate NoDups(al: Alist) {
    forall j, k :: 0 <= j < k < |al| ==> al[j].index != al[k].index
  }

  ghost predicate InRange(al: Alist, range: nat) {
    forall k :: 0 <= k < |al| ==> 0 <= al[k].index < range
  }

  ghost predicate Sorted(al: Alist) {
    forall j, k :: 0 <= j < k < |al| ==> al[j].time <= al[k].time
  }

  ghost predicate BoundedBy(al: Alist, time: int) {
    forall k :: 0 <= k < |al| ==> al[k].time <= time
  }

  function RemoveByIndex(al: Alist, i: int): Alist {
    if al == [] then []
    else if al[0].index == i then al[1..]
    else [al[0]] + RemoveByIndex(al[1..], i)
  }

  function TimeOf(al: Alist, i: int): int {
    if al == [] then 0
    else if al[0].index == i then al[0].time
    else TimeOf(al[1..], i)
  }

  function Allocate(al: Alist, i: int, time: int): Alist {
    al + [Stamp(i, time)]
  }

  function Rejuvenate(al: Alist, i: int, time: int): Alist {
    RemoveByIndex(al, i) + [Stamp(i, time)]
  }

  function ExpiredIndexes(al: Alist, time: int): seq<int> {
    if al == [] then []
    else if al[0].time < time then [al[0].index] + ExpiredIndexes(al[1..], time)
    else ExpiredIndexes(al[1..], time)
  }

  function RemoveAll(al: Alist, indexes: seq<int>): Alist
    decreases |indexes|
  {
    if indexes == [] then al else RemoveAll(RemoveByIndex(al, indexes[0]), indexes[1..])
  }

  function ExpireOld(al: Alist, time: int): Alist {
    RemoveAll(al, ExpiredIndexes(al, time))
  }

  // ----- positions

  /** Removing the index found at position p drops exactly that position. */
  lemma {:induction false} RemoveAt(al: Alist, p: nat)
    requires NoDups(al) && p < |al|
    ensures RemoveByIndex(al, al[p].index) == al[..p] + al[p + 1..]
  {
    if p > 0 {
      assert al[0].index != al[p].index;
      RemoveAt(al[1..], p - 1);
      assert al[1..][..p - 1] == al[1..p];
      assert al == [al[0]] + al[1..];
    }
  }

  lemma {:induction false} TimeAt(al: Alist, p: nat)
    requires NoDups(al) && p < |al|
    ensures TimeOf(al, al[p].index) == al[p].time
  {
    if p > 0 {
      assert al[0].index != al[p].index;
      TimeAt(al[1..], p - 1);
    }
  }

  lemma {:induction false} RemoveAbsent(al: Alist, i: int)
    requires !Allocated(al, i)
    ensures RemoveByIndex(al, i) == al
  {
    if al != [] {
      assert forall k :: 0 <= k < |al[1..]| ==> al[1..][k] == al[k + 1];
      RemoveAbsent(al[1..], i);
    }
  }

  // ----- what a sorted chain expires

  /** In a sorted chain the expired entries are a prefix. */
  ghost function StaleCount(al: Alist, time: int): (n: nat)
    ensures n <= |al|
    ensures forall k :: 0 <= k < n ==> al[k].time < time
    ensures n < |al| ==> time <= al[n].time
  {
    if al == [] || time <= al[0].time then 0 else 1 + StaleCount(al[1..], time)
  }

  lemma {:induction false} ExpiredIsPrefix(al: Alist, time: int)
    requires Sorted(al)
    ensures ExpiredIndexes(al, time) == Indexes(al[..StaleCount(al, time)])
  {
    if al == [] {
    } else if time <= al[0].time {
      NothingExpired(al, time);
    } else {
      ExpiredIsPrefix(al[1..], time);
      var n := StaleCount(al[1..], time);
      assert Indexes(al[..n + 1]) == [al[0].index] + Indexes(al[1..][..n]);
    }
  }

  lemma {:induction false} NothingExpired(al: Alist, time: int)
    requires forall k :: 0 <= k < |al| ==> time <= al[k].time
    ensures ExpiredIndexes(al, time) == []
  {
    if al != [] {
      NothingExpired(al[1..], time);
    }
  }

  lemma {:induction false} RemovePrefix(al: Alist, n: nat)
    requires NoDups(al) && n <= |al|
    ensures RemoveAll(al, Indexes(al[..n])) == al[n..]
  {
    if n > 0 {
      FirstIndex(al, n);
      RemoveAt(al, 0);
      assert al[..0] + al[1..] == al[1..];
      assert al[1..][n - 1..] == al[n..];
      RemovePrefix(al[1..], n - 1);
      hide RemoveByIndex, Indexes, NoDups;
    }
  }

  lemma FirstIndex(al: Alist, n: nat)
    requires 0 < n <= |al|
    ensures var ixs := Indexes(al[..n]);
            |ixs| > 0 && ixs[0] == al[0].index && ixs[1..] == Indexes(al[1..][..n - 1])
  {
  }

  /** Popping stale entries off the front of a sorted chain is the same as removing every stale
      entry wherever it stands, and leaves exactly the entries that are not older than time. */
  lemma ExpireOldIsSuffix(al: Alist, time: int)
    requires Sorted(al) && NoDups(al)
    ensures ExpireOld(al, time) == al[StaleCount(al, time)..]
    ensures |ExpiredIndexes(al, time)| == StaleCount(al, time)
    ensures forall s :: s in ExpireOld(al, time) <==> s in al && time <= s.time
  {
    var n := StaleCount(al, time);
    ExpiredIsPrefix(al, time);
    RemovePrefix(al, n);
    forall s | s in al && time <= s.time
      ensures s in al[n..]
    {
      var k :| 0 <= k < |al| && al[k] == s;
      assert n <= k;
      assert al[n..][k - n] == s;
    }
    forall s | s in al[n..]
      ensures s in al && time <= s.time
    {
      var k :| 0 <= k < |al[n..]| && al[n..][k] == s;
      assert al[n].time <= al[n + k].time;
    }
  }

  // ----- what the operations keep

  /** Allocating an index makes it, and no other, allocated, at the given time. */
  lemma AllocateAdds(al: Alist, i: int, time: int, range: nat)
    requires NoDups(al) && InRange(al, range) && !Allocated(al, i) && 0 <= i < range
    ensures NoDups(Allocate(al, i, time)) && InRange(Allocate(al, i, time), range)
    ensures forall x :: Allocated(Allocate(al, i, time), x) <==> Allocated(al, x) || x == i
    ensures TimeOf(Allocate(al, i, time), i) == time
    ensures forall x :: Allocated(al, x) ==> TimeOf(Allocate(al, i, time), x) == TimeOf(al, x)
  {
    var r := Allocate(al, i, time);
    assert forall k :: 0 <= k < |al| ==> al[k].index != i;
    TimeAt(r, |al|);
    assert r[|al|].index == i;
    forall x
      ensures Allocated(r, x) <==> Allocated(al, x) || x == i
      ensures Allocated(al, x) ==> TimeOf(r, x) == TimeOf(al, x)
    {
      if k :| 0 <= k < |al| && al[k].index == x {
        assert r[k].index == x;
        TimeAt(al, k);
        TimeAt(r, k);
      }
    }
  }

  lemma AllocateKeepsOrder(al: Alist, i: int, time: int)
    requires Sorted(al) && BoundedBy(al, time)
    ensures Sorted(Allocate(al, i, time)) && BoundedBy(Allocate(al, i, time), time)
  {
  }

  /** Position by position, rejuvenation moves one entry to the end with a new time. */
  lemma RejuvenateAt(al: Alist, p: nat, time: int)
    requires NoDups(al) && p < |al|
    ensures var r := Rejuvenate(al, al[p].index, time);
            && |r| == |al|
            && (forall k :: 0 <= k < p ==> r[k] == al[k])
            && (forall k :: p <= k < |al| - 1 ==> r[k] == al[k + 1])
            && r[|al| - 1] == Stamp(al[p].index, time)
            && NoDups(r)
  {
    RemoveAt(al, p);
  }

  lemma RejuvenateKeepsOrder(al: Alist, i: int, time: int, range: nat)
    requires NoDups(al) && Sorted(al) && InRange(al, range) && BoundedBy(al, time)
    requires Allocated(al, i)
    ensures var r := Rejuvenate(al, i, time);
            |r| == |al| && NoDups(r) && Sorted(r) && InRange(r, range) && BoundedBy(r, time)
  {
    var p :| 0 <= p < |al| && al[p].index == i;
    RejuvenateAt(al, p, time);
  }

  lemma RejuvenateTimes(al: Alist, i: int, time: int, x: int)
    requires NoDups(al) && Allocated(al, i)
    ensures Allocated(Rejuvenate(al, i, time), x) <==> Allocated(al, x)
    ensures Allocated(al, x) ==>
              TimeOf(Rejuvenate(al, i, time), x) == if x == i then time else TimeOf(al, x)
  {
    var p :| 0 <= p < |al| && al[p].index == i;
    var r := Rejuvenate(al, i, time);
    RejuvenateAt(al, p, time);
    if k :| 0 <= k < |al| && al[k].index == x {
      var m := if k < p then k else if k == p then |al| - 1 else k - 1;
      assert r[m].index == x;
      TimeAt(al, k);
      TimeAt(r, m);
    }
    if m :| 0 <= m < |r| && r[m].index == x {
      assert al[if m < p then m else if m < |al| - 1 then m + 1 else p].index == x;
    }
  }
}
