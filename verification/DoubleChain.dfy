/** The index allocator of dpdk-nfs/nf/lib/containers/double-chain-impl.c and double-chain.c:
    one array of cells threads two closed lists, the allocated cells (doubly linked, oldest
    first) through cell 0 and the free cells (singly linked, both links equal) through cell 1. */
module DoubleChains {
  import opened ChainSpec

  datatype Cell = Cell(prev: int, next: int)

  const ALLOC_LIST_HEAD := 0
  const FREE_LIST_HEAD := 1
  const INDEX_SHIFT := 2

  // ----- the two lists, over a snapshot of the cells

  /** The k-th stop when walking the closed list of members from its head and back to it. */
  ghost function Stop(head: int, members: seq<int>, k: nat): int
    requires k <= |members| + 1
  {
    if k == 0 || k == |members| + 1 then head else members[k - 1]
  }

  ghost predicate Members(cells: seq<Cell>, members: seq<int>) {
    && (forall k :: 0 <= k < |members| ==> INDEX_SHIFT <= members[k] < |cells|)
    && (forall j, k :: 0 <= j < k < |members| ==> members[j] != members[k])
  }

  ghost predicate AllocRing(cells: seq<Cell>, al: seq<int>) {
    && |cells| >= INDEX_SHIFT
    && Members(cells, al)
    && (forall k :: 0 <= k <= |al| ==> cells[Stop(0, al, k)].next == Stop(0, al, k + 1))
    && (forall k :: 0 < k <= |al| + 1 ==> cells[Stop(0, al, k)].prev == Stop(0, al, k - 1))
  }

  ghost predicate FreeRing(cells: seq<Cell>, fl: seq<int>) {
    && |cells| >= INDEX_SHIFT
    && Members(cells, fl)
    && (forall k :: 0 <= k <= |fl| ==> cells[Stop(1, fl, k)].next == Stop(1, fl, k + 1))
    && (forall k :: 0 <= k <= |fl| ==> cells[Stop(1, fl, k)].prev == cells[Stop(1, fl, k)].next)
  }

  /** Every cell but the two heads is on exactly one list. */
  ghost predicate Partition(n: nat, al: seq<int>, fl: seq<int>) {
    && |al| + |fl| + INDEX_SHIFT == n
    && (forall c :: INDEX_SHIFT <= c < n ==> (c in al <==> c !in fl))
  }

  ghost function Without(s: seq<int>, p: nat): seq<int>
    requires p < |s|
  {
    s[..p] + s[p + 1..]
  }

  function SetNext(cells: seq<Cell>, c: int, next: int): seq<Cell>
    requires 0 <= c < |cells|
  {
    cells[c := cells[c].(next := next)]
  }

  function SetPrev(cells: seq<Cell>, c: int, prev: int): seq<Cell>
    requires 0 <= c < |cells|
  {
    cells[c := cells[c].(prev := prev)]
  }

  /** Walking a list meets no cell twice before it is back at the head. */
  lemma StopsDiffer(cells: seq<Cell>, head: int, members: seq<int>, j: nat, k: nat)
    requires Members(cells, members) && 0 <= head < INDEX_SHIFT
    requires j < k <= |members| + 1 && (j > 0 || k <= |members|)
    ensures Stop(head, members, j) != Stop(head, members, k)
  {
  }

  /** Bypassing the member at position p leaves the ring of the others. */
  lemma UnlinkKeepsRing(cells: seq<Cell>, al: seq<int>, p: nat)
    requires AllocRing(cells, al) && p < |al|
    ensures var prev, next := cells[al[p]].prev, cells[al[p]].next;
            && prev == Stop(0, al, p) && (prev == 0 || prev in al)
            && next == Stop(0, al, p + 2) && (next == 0 || next in al)
            && AllocRing(SetPrev(SetNext(cells, prev, next), next, prev), Without(al, p))
  {
    var x := al[p];
    assert x == Stop(0, al, p + 1);
    var prev, next := Stop(0, al, p), Stop(0, al, p + 2);
    assert cells[x].prev == prev && cells[x].next == next;
    var rest := Without(al, p);
    var after := SetPrev(SetNext(cells, prev, next), next, prev);
    forall k | 0 <= k <= |rest| + 1
      ensures Stop(0, rest, k) == Stop(0, al, if k <= p then k else k + 1)
    {
    }
    forall k | 0 <= k <= |rest|
      ensures after[Stop(0, rest, k)].next == Stop(0, rest, k + 1)
    {
      var j := if k <= p then k else k + 1;
      if j < p {
        StopsDiffer(cells, 0, al, j, p);
      } else if j > p {
        StopsDiffer(cells, 0, al, p, j);
      }
    }
    forall k | 0 < k <= |rest| + 1
      ensures after[Stop(0, rest, k)].prev == Stop(0, rest, k - 1)
    {
      var j := if k <= p then k else k + 1;
      if j < p + 2 {
        StopsDiffer(cells, 0, al, j, p + 2);
      } else if j > p + 2 {
        StopsDiffer(cells, 0, al, p + 2, j);
      }
    }
  }

  /** Linking an outside cell in before the head makes it the newest member. */
  lemma LinkLastKeepsRing(cells: seq<Cell>, al: seq<int>, x: int)
    requires AllocRing(cells, al)
    requires INDEX_SHIFT <= x < |cells| && x !in al
    ensures var last := cells[0].prev;
            && last == Stop(0, al, |al|) && (last == 0 || last in al)
            && AllocRing(SetPrev(SetNext(cells[x := Cell(last, 0)], last, x), 0, x), al + [x])
  {
    assert Stop(0, al, |al| + 1) == 0;
    var last := Stop(0, al, |al|);
    assert cells[0].prev == last;
    var more := al + [x];
    var after := SetPrev(SetNext(cells[x := Cell(last, 0)], last, x), 0, x);
    forall k | 0 <= k <= |al|
      ensures Stop(0, more, k) == Stop(0, al, k)
    {
    }
    assert Stop(0, more, |al| + 1) == x && Stop(0, more, |al| + 2) == 0;
    forall k | 0 <= k <= |more|
      ensures after[Stop(0, more, k)].next == Stop(0, more, k + 1)
    {
      if k < |al| {
        StopsDiffer(cells, 0, al, k, |al|);
      }
    }
    forall k | 0 < k <= |more| + 1
      ensures after[Stop(0, more, k)].prev == Stop(0, more, k - 1)
    {
      if k <= |al| {
        assert Stop(0, al, k) !in {0, x};
      }
    }
  }

  /** A ring depends only on its head and its members. */
  lemma AllocRingFrame(before: seq<Cell>, after: seq<Cell>, al: seq<int>)
    requires AllocRing(before, al) && |after| == |before|
    requires before[0] == after[0] && forall k :: 0 <= k < |al| ==> before[al[k]] == after[al[k]]
    ensures AllocRing(after, al)
  {
    forall k | 0 <= k <= |al| + 1
      ensures before[Stop(0, al, k)] == after[Stop(0, al, k)]
    {
    }
  }

  lemma FreeRingFrame(before: seq<Cell>, after: seq<Cell>, fl: seq<int>)
    requires FreeRing(before, fl) && |after| == |before|
    requires before[1] == after[1] && forall k :: 0 <= k < |fl| ==> before[fl[k]] == after[fl[k]]
    ensures FreeRing(after, fl)
  {
    forall k | 0 <= k <= |fl| + 1
      ensures before[Stop(1, fl, k)] == after[Stop(1, fl, k)]
    {
    }
  }

  lemma ListsAreDisjoint(cells: seq<Cell>, al: seq<int>, fl: seq<int>)
    requires Members(cells, al) && Members(cells, fl) && Partition(|cells|, al, fl)
    ensures forall k :: 0 <= k < |fl| ==> fl[k] !in al
    ensures forall k :: 0 <= k < |al| ==> al[k] !in fl
  {
  }

  /** The heads name the first member of their list, or themselves. */
  lemma HeadsNameFirst(cells: seq<Cell>, al: seq<int>, fl: seq<int>)
    requires AllocRing(cells, al) && FreeRing(cells, fl)
    ensures cells[0].next == if al == [] then 0 else al[0]
    ensures cells[1].next == if fl == [] then 1 else fl[0]
  {
    assert Stop(0, al, 0) == 0 && cells[0].next == Stop(0, al, 1);
    assert Stop(1, fl, 0) == 1 && cells[1].next == Stop(1, fl, 1);
  }

  lemma PopFreeKeepsRing(cells: seq<Cell>, fl: seq<int>)
    requires FreeRing(cells, fl) && fl != []
    ensures cells[1].next == fl[0]
    ensures FreeRing(cells[1 := Cell(cells[fl[0]].next, cells[fl[0]].next)], fl[1..])
  {
    assert Stop(1, fl, 0) == 1 && Stop(1, fl, 1) == fl[0];
    forall k | 0 < k <= |fl|
      ensures Stop(1, fl[1..], k) == Stop(1, fl, k + 1)
    {
    }
  }

  lemma PushFreeKeepsRing(cells: seq<Cell>, fl: seq<int>, x: int)
    requires FreeRing(cells, fl)
    requires INDEX_SHIFT <= x < |cells| && x !in fl
    ensures var head := cells[1].next;
            FreeRing(cells[x := Cell(head, head)][1 := Cell(x, x)], [x] + fl)
  {
    var head := cells[1].next;
    var after := cells[x := Cell(head, head)][1 := Cell(x, x)];
    assert Stop(1, fl, 0) == 1;
    forall k | 0 <= k <= |fl| + 1
      ensures Stop(1, [x] + fl, k) == if k == 0 then 1 else if k == 1 then x else Stop(1, fl, k - 1)
      ensures after[Stop(1, [x] + fl, k)].next == Stop(1, [x] + fl, k + 1)
      ensures after[Stop(1, [x] + fl, k)].prev == after[Stop(1, [x] + fl, k)].next
    {
      if k > 0 {
        assert cells[Stop(1, fl, k - 1)].next == Stop(1, fl, k) == Stop(1, [x] + fl, k + 1);
      }
      if k > 1 {
        assert Stop(1, fl, k - 1) !in {1, x};
      }
    }
  }

  function Unlink(cells: seq<Cell>, x: int): seq<Cell>
    requires 0 <= x < |cells| && 0 <= cells[x].prev < |cells| && 0 <= cells[x].next < |cells|
  {
    SetPrev(SetNext(cells, cells[x].prev, cells[x].next), cells[x].next, cells[x].prev)
  }

  function LinkLast(cells: seq<Cell>, x: int): seq<Cell>
    requires 0 <= x < |cells| && 0 <= cells[0].prev < |cells|
  {
    SetPrev(SetNext(cells[x := Cell(cells[0].prev, 0)], cells[0].prev, x), 0, x)
  }

  /** Moving a member to the end keeps both lists and every cell's place on one of them. */
  lemma MoveToEnd(cells: seq<Cell>, al: seq<int>, fl: seq<int>, p: nat)
    requires AllocRing(cells, al) && Partition(|cells|, al, fl) && p < |al|
    ensures cells[al[p]].prev == 0 || cells[al[p]].prev in al
    ensures cells[al[p]].next == 0 || cells[al[p]].next in al
    ensures var last := Unlink(cells, al[p])[0].prev; last == 0 || last in al
    ensures var moved := LinkLast(Unlink(cells, al[p]), al[p]);
            && AllocRing(moved, Without(al, p) + [al[p]])
            && Partition(|cells|, Without(al, p) + [al[p]], fl)
  {
    var x, rest := al[p], Without(al, p);
    UnlinkKeepsRing(cells, al, p);
    LinkLastKeepsRing(Unlink(cells, x), rest, x);
    assert forall c :: c in al <==> c in rest + [x];
  }

  lemma MoveKeepsFree(cells: seq<Cell>, al: seq<int>, fl: seq<int>, x: int)
    requires Members(cells, al) && FreeRing(cells, fl) && Partition(|cells|, al, fl) && x in al
    requires cells[x].prev == 0 || cells[x].prev in al
    requires cells[x].next == 0 || cells[x].next in al
    requires var last := Unlink(cells, x)[0].prev; last == 0 || last in al
    ensures FreeRing(LinkLast(Unlink(cells, x), x), fl)
  {
    ListsAreDisjoint(cells, al, fl);
    forall c | c == 1 || c in fl
      ensures 0 <= c < |cells| && LinkLast(Unlink(cells, x), x)[c] == cells[c]
    {
      Untouched(cells, x, c);
    }
    hide Unlink, LinkLast;
    FreeRingFrame(cells, LinkLast(Unlink(cells, x), x), fl);
  }

  lemma Untouched(cells: seq<Cell>, x: int, c: int)
    requires 0 <= x < |cells| && 0 <= cells[x].prev < |cells| && 0 <= cells[x].next < |cells|
    requires 0 <= Unlink(cells, x)[0].prev < |cells| && 0 < c < |cells|
    requires c !in {x, cells[x].prev, cells[x].next, Unlink(cells, x)[0].prev}
    ensures LinkLast(Unlink(cells, x), x)[c] == cells[c]
  {
  }

  /** A cell's own links tell whether it is allocated: free cells have equal links that never
      name the alloc head; an allocated cell has equal links only when it is alone. */
  lemma LinksTellAllocated(cells: seq<Cell>, al: seq<int>, fl: seq<int>, c: int)
    requires AllocRing(cells, al) && FreeRing(cells, fl) && Partition(|cells|, al, fl)
    requires INDEX_SHIFT <= c < |cells|
    ensures c in al <==> cells[c].next != cells[c].prev || cells[c].next == ALLOC_LIST_HEAD
    ensures c in al && cells[c].next == cells[c].prev ==> al == [c]
  {
    if c in al {
      var p :| 0 <= p < |al| && al[p] == c;
      assert Stop(0, al, p + 1) == c;
      assert cells[c].prev == Stop(0, al, p) && cells[c].next == Stop(0, al, p + 2);
      if |al| > 1 {
        StopsDiffer(cells, 0, al, p, p + 2);
      }
    } else {
      var p :| 0 <= p < |fl| && fl[p] == c;
      assert Stop(1, fl, p + 1) == c;
      assert cells[c].next == Stop(1, fl, p + 2);
    }
  }

  /** The cells form both lists and every cell is on one of them. */
  ghost predicate Rings(cells: seq<Cell>, al: seq<int>, fl: seq<int>) {
    AllocRing(cells, al) && FreeRing(cells, fl) && Partition(|cells|, al, fl)
  }

  /** As dchain_impl_init links them: every cell is free, in order. */
  lemma NothingAllocated(cells: seq<Cell>)
    requires |cells| > INDEX_SHIFT && cells[0] == Cell(0, 0) && cells[1] == Cell(2, 2)
    requires forall c :: INDEX_SHIFT <= c < |cells| - 1 ==> cells[c] == Cell(c + 1, c + 1)
    requires cells[|cells| - 1] == Cell(1, 1)
    ensures Rings(cells, [], seq(|cells| - INDEX_SHIFT, k => k + INDEX_SHIFT))
  {
    var fl := seq(|cells| - INDEX_SHIFT, k => k + INDEX_SHIFT);
    forall k | 0 <= k <= |fl|
      ensures cells[Stop(1, fl, k)].next == Stop(1, fl, k + 1)
      ensures cells[Stop(1, fl, k)].prev == cells[Stop(1, fl, k)].next
    {
      if k == 0 {
        assert Stop(1, fl, 1) == 2;
      } else {
        assert Stop(1, fl, k) == k + 1;
      }
    }
    forall c | INDEX_SHIFT <= c < |cells|
      ensures c in fl
    {
      assert fl[c - INDEX_SHIFT] == c;
    }
  }

  // ----- freeing any index in range

  predicate LinksInRange(cells: seq<Cell>, x: int) {
    INDEX_SHIFT <= x < |cells| && 0 <= cells[x].prev < |cells| && 0 <= cells[x].next < |cells|
  }

  /** The stores of dchain_impl_free_index on cell x, whichever list it is on. */
  function Freed(cells: seq<Cell>, x: int): (r: seq<Cell>)
    requires LinksInRange(cells, x)
    ensures |r| == |cells|
  {
    var unlinked := Unlink(cells, x);
    var head := unlinked[1].next;
    unlinked[x := Cell(head, head)][1 := Cell(x, x)]
  }

  lemma FreeMember(cells: seq<Cell>, al: seq<int>, fl: seq<int>, p: nat)
    requires Rings(cells, al, fl) && p < |al|
    ensures LinksInRange(cells, al[p])
    ensures Rings(Freed(cells, al[p]), Without(al, p), [al[p]] + fl)
  {
    var x := al[p];
    UnlinkKeepsRing(cells, al, p);
    ListsAreDisjoint(cells, al, fl);
    var unlinked := Unlink(cells, x);
    FreeRingFrame(cells, unlinked, fl);
    PushFreeKeepsRing(unlinked, fl, x);
    AllocRingFrame(unlinked, Freed(cells, x), Without(al, p));
    PartitionMoved(|cells|, al, fl, p);
  }

  lemma PartitionMoved(n: nat, al: seq<int>, fl: seq<int>, p: nat)
    requires Partition(n, al, fl) && p < |al| && INDEX_SHIFT <= al[p] < n
    requires forall j, k :: 0 <= j < k < |al| ==> al[j] != al[k]
    ensures Partition(n, Without(al, p), [al[p]] + fl)
  {
    forall c | INDEX_SHIFT <= c < n
      ensures c in Without(al, p) <==> c !in [al[p]] + fl
    {
      assert c in Without(al, p) <==> c in al && c != al[p];
    }
  }

  /** Where a free cell's two equal links point. */
  lemma FreeLinks(cells: seq<Cell>, fl: seq<int>, q: nat)
    requires FreeRing(cells, fl) && q < |fl|
    ensures LinksInRange(cells, fl[q])
    ensures cells[fl[q]].prev == cells[fl[q]].next == if q + 1 < |fl| then fl[q + 1] else 1
  {
    assert Stop(1, fl, q + 1) == fl[q];
    assert cells[fl[q]].next == Stop(1, fl, q + 2);
  }

  /** No list can hold a cell that points at itself. */
  lemma SelfLoop(cells: seq<Cell>, al: seq<int>, fl: seq<int>, c: int)
    requires INDEX_SHIFT <= c < |cells| && cells[c] == Cell(c, c)
    ensures !Rings(cells, al, fl)
  {
    if Rings(cells, al, fl) {
      LinksTellAllocated(cells, al, fl, c);
      var q :| 0 <= q < |fl| && fl[q] == c;
      FreeLinks(cells, fl, q);
      assert false;
    }
  }

  /** Freeing the last of several free cells forgets the others. */
  lemma Forgotten(cells: seq<Cell>, al: seq<int>, fl: seq<int>, x: int, y: int)
    requires INDEX_SHIFT <= x < |cells| && INDEX_SHIFT <= y < |cells| && x != y
    requires cells[1] == Cell(x, x) && cells[x] == Cell(1, 1)
    requires cells[y].prev == cells[y].next != 0
    ensures !Rings(cells, al, fl)
  {
    if Rings(cells, al, fl) {
      LinksTellAllocated(cells, al, fl, y);
      var q :| 0 <= q < |fl| && fl[q] == y;
      HeadsNameFirst(cells, al, fl);
      FreeLinks(cells, fl, 0);
      assert false;
    }
  }

  lemma FreeTwice(cells: seq<Cell>, al: seq<int>, fl: seq<int>, q: nat, al': seq<int>, fl': seq<int>)
    requires Rings(cells, al, fl) && q < |fl| && |fl| > 1
    ensures LinksInRange(cells, fl[q]) && !Rings(Freed(cells, fl[q]), al', fl')
  {
    FreeLinks(cells, fl, q);
    var x, after := fl[q], Freed(cells, fl[q]);
    if q + 1 < |fl| {
      assert after[fl[q + 1]] == Cell(fl[q + 1], fl[q + 1]);
      SelfLoop(after, al', fl', fl[q + 1]);
    } else {
      FreeLinks(cells, fl, 0);
      assert after[fl[0]] == cells[fl[0]];
      Forgotten(after, al', fl', x, fl[0]);
    }
  }

  /** The declaration promises that freeing an index that is not allocated changes nothing. The cells
      form two lists afterwards exactly when the index was allocated or the only free one. */
  lemma FreeKeepsRingsIff(cells: seq<Cell>, al: seq<int>, fl: seq<int>, x: int)
    requires Rings(cells, al, fl) && INDEX_SHIFT <= x < |cells|
    ensures LinksInRange(cells, x)
    ensures (exists al', fl' :: Rings(Freed(cells, x), al', fl')) <==> x in al || fl == [x]
    ensures fl == [x] ==> Freed(cells, x) == cells
  {
    if x in al {
      var p :| 0 <= p < |al| && al[p] == x;
      FreeMember(cells, al, fl, p);
    } else {
      var q :| 0 <= q < |fl| && fl[q] == x;
      FreeLinks(cells, fl, q);
      if |fl| == 1 {
        assert fl == [x];
        HeadsNameFirst(cells, al, fl);
        assert Stop(1, fl, 0) == 1;
        assert Freed(cells, x) == cells;
      } else {
        forall al', fl'
          ensures !Rings(Freed(cells, x), al', fl')
        {
          FreeTwice(cells, al, fl, q, al', fl');
        }
      }
    }
  }

  /** Two free cells: freeing the first leaves both pointing at themselves. */
  lemma FreeOfFreeFails()
    ensures var cells := [Cell(0, 0), Cell(2, 2), Cell(3, 3), Cell(1, 1)];
            && Rings(cells, [], [2, 3])
            && Freed(cells, 2) == [Cell(0, 0), Cell(2, 2), Cell(2, 2), Cell(3, 3)]
            && forall al, fl :: !Rings(Freed(cells, 2), al, fl)
  {
    var cells, fl := [Cell(0, 0), Cell(2, 2), Cell(3, 3), Cell(1, 1)], [2, 3];
    assert Stop(1, fl, 0) == 1 && Stop(1, fl, 1) == 2 && Stop(1, fl, 2) == 3 && Stop(1, fl, 3) == 1;
    assert fl[0] == 2 && fl[1] == 3;
    forall al', fl'
      ensures !Rings(Freed(cells, 2), al', fl')
    {
      SelfLoop(Freed(cells, 2), al', fl', 2);
    }
  }

  // ----- time stamps

  ghost predicate Stamped(al: seq<int>, n: nat) {
    && (forall k :: 0 <= k < |al| ==> INDEX_SHIFT <= al[k] < n + INDEX_SHIFT)
    && (forall j, k :: 0 <= j < k < |al| ==> al[j] != al[k])
  }

  ghost function Stamps(al: seq<int>, times: seq<int>): Alist
    requires Stamped(al, |times|)
  {
    seq(|al|, k requires 0 <= k < |al| => Stamp(al[k] - INDEX_SHIFT, times[al[k] - INDEX_SHIFT]))
  }

  lemma WithoutKeepsStamped(al: seq<int>, n: nat, p: nat)
    requires Stamped(al, n) && p < |al|
    ensures Stamped(Without(al, p) + [al[p]], n)
  {
  }

  lemma StampMovedToEnd(al: seq<int>, times: seq<int>, p: nat, time: int)
    requires Stamped(al, |times|) && p < |al|
    ensures var moved := Without(al, p) + [al[p]];
            && Stamped(moved, |times|)
            && Stamps(moved, times[al[p] - INDEX_SHIFT := time])
               == Rejuvenate(Stamps(al, times), al[p] - INDEX_SHIFT, time)
  {
    WithoutKeepsStamped(al, |times|, p);
    var before, moved := Stamps(al, times), Without(al, p) + [al[p]];
    RejuvenateAt(before, p, time);
    var i := al[p] - INDEX_SHIFT;
    assert before[p].index == i;
    var after, r := Stamps(moved, times[i := time]), Rejuvenate(before, i, time);
    assert |after| == |r|;
    forall k | 0 <= k < |al|
      ensures after[k] == r[k]
    {
      if k < p {
        assert moved[k] == al[k] != al[p];
      } else if k < |al| - 1 {
        assert moved[k] == al[k + 1] != al[p];
      }
    }
  }

  // ----- the allocator

  class DoubleChain {
    const cells: array<Cell>
    const timestamps: array<int>
    ghost var al: seq<int>
    ghost var fl: seq<int>

    /** Allocated indices and their times, oldest first. */
    ghost var value: Alist
    ghost const Repr: set<object>

    /** The lists are well formed. */
    ghost predicate Linked()
      reads this, cells
    {
      && cells.Length == timestamps.Length + INDEX_SHIFT
      && Rings(cells[..], al, fl)
    }

    ghost predicate Valid()
      reads this, Repr
      ensures Valid() ==> this in Repr
    {
      && Repr == {this, cells, timestamps}
      && Linked()
      && value == Stamps(al, timestamps[..])
    }

    ghost function Range(): nat {
      timestamps.Length
    }

    lemma AllocatedCell(index: int)
      requires Valid()
      ensures Allocated(value, index) <==> index + INDEX_SHIFT in al
    {
      if k :| 0 <= k < |al| && al[k] == index + INDEX_SHIFT {
        assert value[k].index == index;
      }
    }

    constructor (indexRange: nat)
      requires 0 < indexRange
      ensures Valid() && fresh(Repr)
      ensures Range() == indexRange && value == []
    {
      cells := new Cell[indexRange + INDEX_SHIFT](_ => Cell(0, 0));
      timestamps := new int[indexRange];
      Repr := {this, cells, timestamps};
      value := [];
      new;
      cells[ALLOC_LIST_HEAD] := Cell(0, 0);
      var i := INDEX_SHIFT;
      cells[FREE_LIST_HEAD] := Cell(i, i);
      while i < indexRange + INDEX_SHIFT - 1
        invariant INDEX_SHIFT <= i <= indexRange + INDEX_SHIFT - 1
        invariant cells[0] == Cell(0, 0) && cells[1] == Cell(2, 2)
        invariant forall c :: INDEX_SHIFT <= c < i ==> cells[c] == Cell(c + 1, c + 1)
        modifies cells
      {
        cells[i] := Cell(i + 1, i + 1);
        i := i + 1;
      }
      cells[i] := Cell(FREE_LIST_HEAD, FREE_LIST_HEAD);
      al := [];
      fl := seq(indexRange, k => k + INDEX_SHIFT);
      NothingAllocated(cells[..]);
    }

    // ----- the list surgery of double-chain-impl.c

    method ImplAllocateNewIndex() returns (ok: bool, index: int)
      requires Linked()
      modifies this`al, this`fl, cells
      ensures Linked()
      ensures ok <==> old(fl) != []
      ensures ok ==> index + INDEX_SHIFT == old(fl)[0] && al == old(al) + [old(fl)[0]]
      ensures !ok ==> al == old(al)
    {
      var taken := cells[FREE_LIST_HEAD].next;
      HeadsNameFirst(cells[..], al, fl);
      ListsAreDisjoint(cells[..], al, fl);
      if taken == FREE_LIST_HEAD {
        return false, -1;
      }
      ghost var s0 := cells[..];
      PopFreeKeepsRing(s0, fl);
      cells[FREE_LIST_HEAD] := Cell(cells[taken].next, cells[taken].next);
      ghost var s1 := cells[..];
      AllocRingFrame(s0, s1, al);
      LinkLastKeepsRing(s1, al, taken);
      var last := cells[ALLOC_LIST_HEAD].prev;
      cells[taken] := Cell(last, ALLOC_LIST_HEAD);
      cells[last] := cells[last].(next := taken);
      cells[ALLOC_LIST_HEAD] := cells[ALLOC_LIST_HEAD].(prev := taken);
      FreeRingFrame(s1, cells[..], fl[1..]);
      al, fl := al + [taken], fl[1..];
      ok, index := true, taken - INDEX_SHIFT;
    }

    method ImplRejuvenateIndex(index: int, ghost p: nat) returns (ok: bool)
      requires Linked() && 0 <= index < Range()
      requires index + INDEX_SHIFT in al ==> p < |al| && al[p] == index + INDEX_SHIFT
      modifies this`al, this`fl, cells
      ensures Linked()
      ensures ok <==> index + INDEX_SHIFT in old(al)
      ensures al == if ok then old(Without(al, p)) + [index + INDEX_SHIFT] else old(al)
    {
      var lifted := index + INDEX_SHIFT;
      var next, prev := cells[lifted].next, cells[lifted].prev;
      ghost var s0 := cells[..];
      LinksTellAllocated(s0, al, fl, lifted);
      if next == prev {
        if next != ALLOC_LIST_HEAD {
          return false;
        } else {
          assert al == [lifted];
          return true;
        }
      }
      MoveToEnd(s0, al, fl, p);
      MoveKeepsFree(s0, al, fl, al[p]);
      MoveCell(lifted);
      al := Without(al, p) + [lifted];
      ok := true;
    }

    method MoveCell(lifted: int)
      requires LinksInRange(cells[..], lifted) && 0 <= Unlink(cells[..], lifted)[0].prev < cells.Length
      modifies cells
      ensures cells[..] == LinkLast(Unlink(old(cells[..]), lifted), lifted)
    {
      var prev, next := cells[lifted].prev, cells[lifted].next;
      cells[prev] := cells[prev].(next := next);
      cells[next] := cells[next].(prev := prev);
      var last := cells[ALLOC_LIST_HEAD].prev;
      cells[lifted] := Cell(last, ALLOC_LIST_HEAD);
      cells[last] := cells[last].(next := lifted);
      cells[ALLOC_LIST_HEAD] := cells[ALLOC_LIST_HEAD].(prev := lifted);
    }

    /** The declaration in double-chain-impl.h promises 0 and no change for an index that is not
        allocated; the code makes no test and always reports 1. */
    method ImplFreeIndex(index: int, ghost p: nat) returns (r: int)
      requires Linked() && 0 <= index < Range()
      requires index + INDEX_SHIFT in al ==> p < |al| && al[p] == index + INDEX_SHIFT
      modifies this`al, this`fl, cells
      ensures r == 1
      ensures LinksInRange(old(cells[..]), index + INDEX_SHIFT)
      ensures cells[..] == Freed(old(cells[..]), index + INDEX_SHIFT)
      ensures index + INDEX_SHIFT in old(al) ==>
                Linked() && al == old(Without(al, p)) && fl == [index + INDEX_SHIFT] + old(fl)
      ensures index + INDEX_SHIFT !in old(al) ==>
                if old(fl) == [index + INDEX_SHIFT] then Linked() && al == old(al) && fl == old(fl)
                else forall al', fl' :: !Rings(cells[..], al', fl')
    {
      hide Rings;
      var freed := index + INDEX_SHIFT;
      FreeKeepsRingsIff(cells[..], al, fl, freed);
      if freed in al {
        FreeMember(cells[..], al, fl, p);
      }
      FreeCell(freed);
      if freed in al {
        al, fl := Without(al, p), [freed] + fl;
      }
      r := 1;
    }

    /** The stores themselves. */
    method FreeCell(freed: int)
      requires LinksInRange(cells[..], freed)
      modifies cells
      ensures cells[..] == Freed(old(cells[..]), freed)
    {
      var prev, next := cells[freed].prev, cells[freed].next;
      cells[prev] := cells[prev].(next := next);
      cells[next] := cells[next].(prev := prev);
      cells[freed] := Cell(cells[FREE_LIST_HEAD].next, cells[FREE_LIST_HEAD].next);
      cells[FREE_LIST_HEAD] := Cell(freed, freed);
    }

    // ----- the time-stamped allocator of double-chain.c

    method AllocateNewIndex(time: int) returns (ok: bool, index: int)
      requires Valid()
      modifies Repr
      ensures Valid()
      ensures ok <==> |old(value)| < Range()
      ensures ok ==> 0 <= index < Range() && !Allocated(old(value), index)
      ensures value == if ok then Allocate(old(value), index, time) else old(value)
    {
      ListsAreDisjoint(cells[..], al, fl);
      ok, index := ImplAllocateNewIndex();
      if ok {
        timestamps[index] := time;
        value := Allocate(value, index, time);
      }
    }

    method RejuvenateIndex(index: int, time: int) returns (ok: bool)
      requires Valid() && 0 <= index < Range()
      modifies Repr
      ensures Valid()
      ensures ok <==> Allocated(old(value), index)
      ensures value == if ok then Rejuvenate(old(value), index, time) else old(value)
    {
      ghost var p := 0;
      AllocatedCell(index);
      if index + INDEX_SHIFT in al {
        p :| 0 <= p < |al| && al[p] == index + INDEX_SHIFT;
        StampMovedToEnd(al, timestamps[..], p, time);
      }
      ok := ImplRejuvenateIndex(index, p);
      if ok {
        ghost var times := timestamps[..];
        timestamps[index] := time;
        assert timestamps[..] == times[index := time];
        value := Rejuvenate(value, index, time);
      }
    }

    /** Free the oldest index when its stamp is before time. */
    method ExpireOneIndex(time: int) returns (ok: bool, index: int)
      requires Valid()
      modifies Repr
      ensures Valid()
      ensures ok <==> old(value) != [] && old(value)[0].time < time
      ensures ok ==> index == old(value)[0].index
      ensures value == if ok then old(value)[1..] else old(value)
    {
      HeadsNameFirst(cells[..], al, fl);
      if cells[ALLOC_LIST_HEAD].next == ALLOC_LIST_HEAD {
        return false, -1;
      }
      index := cells[ALLOC_LIST_HEAD].next - INDEX_SHIFT;
      if timestamps[index] < time {
        var _ := ImplFreeIndex(index, 0);
        value := value[1..];
        return true, index;
      }
      ok := false;
    }

    /** dchain_impl_is_index_allocated: decided from the cell's own two links. */
    method IsIndexAllocated(index: int) returns (r: bool)
      requires Valid() && 0 <= index < Range()
      ensures r <==> Allocated(value, index)
    {
      var lifted := index + INDEX_SHIFT;
      LinksTellAllocated(cells[..], al, fl, lifted);
      AllocatedCell(index);
      r := cells[lifted].next != cells[lifted].prev || cells[lifted].next == ALLOC_LIST_HEAD;
    }
  }
}
