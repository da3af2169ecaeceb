/** What the bridge knows after a whole run: the history behind every entry, and, when the table
    is large enough for the stations seen, exactly which entries there are. */
module BridgeRuns {
  import opened BridgeTable
  import opened Bridges
  import opened Options

  function Lookup(table: Table, mac: Mac): Option<DynEntry> {
    if table == [] then None
    else if table[0].addr == mac then Some(table[0])
    else Lookup(table[1..], mac)
  }

  lemma {:induction false} LookupAnswers(table: Table, mac: Mac)
    ensures HasKey(table, mac) <==> Lookup(table, mac).Some?
    ensures Lookup(table, mac).Some? ==>
              Lookup(table, mac).value in table && Lookup(table, mac).value.addr == mac
              && GetPort(table, mac) == Lookup(table, mac).value.port
    ensures forall e :: e in table && e.addr == mac ==> Lookup(table, mac).Some?
  {
    if table != [] {
      assert table == [table[0]] + table[1..];
      LookupAnswers(table[1..], mac);
    }
  }

  // ----- one step, seen from one station

  /** An entry that outlives the expiry at the given time. */
  function Alive(e: Option<DynEntry>, time: int, expiration: int): Option<DynEntry> {
    if e.Some? && time - expiration <= e.value.time then e else None
  }

  lemma {:induction false} LookupExpired(table: Table, time: int, mac: Mac)
    requires DistinctAddrs(table)
    ensures Lookup(ExpireAddresses(table, time), mac)
            == if Lookup(table, mac).Some? && time <= Lookup(table, mac).value.time then Lookup(table, mac) else None
    ensures DistinctAddrs(ExpireAddresses(table, time))
    ensures forall e :: e in ExpireAddresses(table, time) ==> e in table
  {
    if table != [] {
      var rest := ExpireAddresses(table[1..], time);
      assert table == [table[0]] + table[1..];
      LookupExpired(table[1..], time, mac);
      assert ([table[0]] + rest)[1..] == rest;
      if table[0].addr == mac {
        LookupAnswers(table[1..], mac);
      }
      forall j | 0 <= j < |rest|
        ensures rest[j].addr != table[0].addr
      {
        assert rest[j] in table[1..];
      }
    }
  }

  lemma {:induction false} LookupRejuvenated(table: Table, addr: Mac, time: int, mac: Mac)
    requires DistinctAddrs(table)
    ensures Lookup(RejuvenateDynEntry(table, addr, time), mac)
            == if Lookup(table, mac).Some? && mac == addr then Some(Lookup(table, mac).value.(time := time))
               else Lookup(table, mac)
    ensures |RejuvenateDynEntry(table, addr, time)| == |table|
    ensures forall i :: 0 <= i < |table| ==> RejuvenateDynEntry(table, addr, time)[i].addr == table[i].addr
  {
    if table != [] {
      LookupRejuvenated(table[1..], addr, time, mac);
      var r := RejuvenateDynEntry(table, addr, time);
      assert r[1..] == if table[0].addr == addr then table[1..] else RejuvenateDynEntry(table[1..], addr, time);
    }
  }

  lemma StepDistinct(table: Table, capacity: nat, expiration: int, f: Frame)
    requires DistinctAddrs(table)
    ensures DistinctAddrs(Step(table, capacity, expiration, f))
  {
    var kept := ExpireAddresses(table, f.time - expiration);
    LookupExpired(table, f.time - expiration, f.src);
    LookupRejuvenated(kept, f.src, f.time, f.src);
    LookupAnswers(kept, f.src);
    if !HasKey(kept, f.src) {
      forall j | 0 <= j < |kept|
        ensures kept[j].addr != f.src
      {
        assert kept[j] in kept;
      }
    }
  }

  lemma LookupAdded(table: Table, addr: Mac, port: Port, time: int, mac: Mac)
    ensures Lookup(AddDynEntry(table, addr, port, time), mac)
            == if mac == addr then Some(DynEntry(addr, port, time)) else Lookup(table, mac)
  {
    assert AddDynEntry(table, addr, port, time)[1..] == table;
  }

  /** What one frame does to one station's entry. */
  lemma StepLookup(table: Table, capacity: nat, expiration: int, f: Frame, mac: Mac)
    requires DistinctAddrs(table)
    ensures var alive := Alive(Lookup(table, mac), f.time, expiration);
            var kept := ExpireAddresses(table, f.time - expiration);
            Lookup(Step(table, capacity, expiration, f), mac)
            == if mac != f.src then alive
               else if alive.Some? then Some(alive.value.(time := f.time))
               else if OutOfSpace(kept, capacity) then None
               else Some(DynEntry(mac, f.port, f.time))
  {
    hide Lookup, ExpireAddresses, RejuvenateDynEntry, HasKey, AddDynEntry, DistinctAddrs, GetPort;
    var kept := ExpireAddresses(table, f.time - expiration);
    LookupExpired(table, f.time - expiration, mac);
    LookupAnswers(kept, f.src);
    LookupRejuvenated(kept, f.src, f.time, mac);
    LookupAdded(kept, f.src, f.port, f.time, mac);
  }

  lemma {:induction false} RunDistinct(capacity: nat, expiration: int, fs: seq<Frame>)
    ensures DistinctAddrs(Run([], capacity, expiration, fs))
  {
    if fs != [] {
      var n := |fs| - 1;
      RunDistinct(capacity, expiration, fs[..n]);
      StepDistinct(Run([], capacity, expiration, fs[..n]), capacity, expiration, fs[n]);
    }
  }

  // ----- the history behind an entry

  function Entry(capacity: nat, expiration: int, fs: seq<Frame>, mac: Mac): Option<DynEntry> {
    Lookup(Run([], capacity, expiration, fs), mac)
  }

  /** What the last frame of a run does to one station's entry. */
  lemma EntryStep(capacity: nat, expiration: int, fs: seq<Frame>, mac: Mac)
    requires fs != []
    ensures var n := |fs| - 1;
            var f, alive := fs[n], Alive(Entry(capacity, expiration, fs[..n], mac), fs[n].time, expiration);
            var kept := ExpireAddresses(Run([], capacity, expiration, fs[..n]), f.time - expiration);
            Entry(capacity, expiration, fs, mac)
            == if mac != f.src then alive
               else if alive.Some? then Some(alive.value.(time := f.time))
               else if OutOfSpace(kept, capacity) then None
               else Some(DynEntry(mac, f.port, f.time))
  {
    hide Step, Lookup;
    var n := |fs| - 1;
    RunDistinct(capacity, expiration, fs[..n]);
    StepLookup(Run([], capacity, expiration, fs[..n]), capacity, expiration, fs[n], mac);
  }

  /** Frame i created the entry: the station was unknown when it came, the entry carries its port,
      and from then on the entry was never lost and its port never changed, because every later
      frame of any station came at most the expiration time after a frame of this station. */
  ghost predicate Created(capacity: nat, expiration: int, fs: seq<Frame>, e: DynEntry, i: int) {
    && 0 <= i < |fs| && fs[i].src == e.addr && fs[i].port == e.port
    && Alive(Entry(capacity, expiration, fs[..i], e.addr), fs[i].time, expiration) == None
    && (forall j :: i < j <= |fs| ==>
          Entry(capacity, expiration, fs[..j], e.addr).Some?
          && Entry(capacity, expiration, fs[..j], e.addr).value.port == e.port)
    && (forall j :: i < j < |fs| ==> VouchedAt(fs, expiration, e.addr, i, j))
  }

  /** Some frame of the station, from i on, precedes frame j by at most the expiration time. */
  ghost predicate VouchedAt(fs: seq<Frame>, expiration: int, mac: Mac, i: int, j: int)
    requires 0 <= i < j < |fs|
  {
    exists p :: i <= p < j && fs[p].src == mac && fs[j].time - expiration <= fs[p].time
  }

  /** Frame l is the station's last one and gave the entry its time. */
  ghost predicate LastSeen(fs: seq<Frame>, e: DynEntry, l: int) {
    && 0 <= l < |fs| && fs[l].src == e.addr && fs[l].time == e.time
    && (forall j :: l < j < |fs| ==> fs[j].src != e.addr)
  }

  /** One more frame that finds the entry alive leaves its creation where it was. */
  lemma CreatedExtends(capacity: nat, expiration: int, fs: seq<Frame>, e: DynEntry, e': DynEntry, i: int, l: int)
    requires fs != []
    requires Created(capacity, expiration, fs[..|fs| - 1], e, i) && LastSeen(fs[..|fs| - 1], e, l) && i <= l
    requires fs[|fs| - 1].time - expiration <= e.time
    requires Entry(capacity, expiration, fs, e.addr) == Some(e') && e'.addr == e.addr && e'.port == e.port
    ensures Created(capacity, expiration, fs, e', i)
  {
    hide Entry, LastSeen;
    var n := |fs| - 1;
    var before := fs[..n];
    assert fs[..|fs|] == fs;
    assert forall j :: 0 <= j <= n ==> fs[..j] == before[..j];
    forall j | i < j < |fs|
      ensures VouchedAt(fs, expiration, e.addr, i, j)
    {
      var p;
      if j < n {
        assert VouchedAt(before, expiration, e.addr, i, j);
        p :| i <= p < j && before[p].src == e.addr && before[j].time - expiration <= before[p].time;
      } else {
        LastSeenFrame(before, e, l);
        p := l;
      }
      assert fs[p] == before[p];
    }
  }

  lemma LastSeenFrame(fs: seq<Frame>, e: DynEntry, l: int)
    requires LastSeen(fs, e, l)
    ensures 0 <= l < |fs| && fs[l].src == e.addr && fs[l].time == e.time
  {
  }

  /** In every run, behind every surviving entry there is the frame that created it and the last
      frame that refreshed it. */
  lemma {:induction false} EntryHistory(capacity: nat, expiration: int, fs: seq<Frame>, e: DynEntry)
      returns (i: int, l: int)
    requires Entry(capacity, expiration, fs, e.addr) == Some(e)
    ensures i <= l && Created(capacity, expiration, fs, e, i) && LastSeen(fs, e, l)
  {
    EntryNeedsFrame(capacity, expiration, fs, e.addr);
    hide Run, Step, Lookup;
    var n := |fs| - 1;
    var f, before := fs[n], fs[..n];
    var prev := Entry(capacity, expiration, before, e.addr);
    EntryStep(capacity, expiration, fs, e.addr);
    EntryAddr(capacity, expiration, before, e.addr);
    hide Entry;
    if Alive(prev, f.time, expiration) == None {
      i, l := n, n;
      assert fs[..|fs|] == fs;
    } else {
      hide Created;
      i, l := EntryHistory(capacity, expiration, before, prev.value);
      CreatedExtends(capacity, expiration, fs, prev.value, e, i, l);
      l := if f.src == e.addr then n else l;
    }
  }

  /** So with frames in time order the station was never silent for longer than the expiration time: since
      the entry was created, every frame b, of whatever station, came at most that long after the last
      frame a of this station before it. */
  lemma NeverSilent(capacity: nat, expiration: int, fs: seq<Frame>, e: DynEntry, i: int, a: int, b: int)
    requires InOrder(fs) && Created(capacity, expiration, fs, e, i) && i <= a < b < |fs|
    requires forall m :: a < m < b ==> fs[m].src != e.addr
    ensures fs[b].time - fs[a].time <= expiration
  {
    hide Entry;
    assert VouchedAt(fs, expiration, e.addr, i, b);
  }

  lemma EntryNeedsFrame(capacity: nat, expiration: int, fs: seq<Frame>, mac: Mac)
    requires Entry(capacity, expiration, fs, mac).Some?
    ensures fs != []
  {
  }

  lemma EntryAddr(capacity: nat, expiration: int, fs: seq<Frame>, mac: Mac)
    ensures var e := Entry(capacity, expiration, fs, mac); e.Some? ==> e.value.addr == mac
  {
    hide Run;
    LookupAnswers(Run([], capacity, expiration, fs), mac);
  }

  // ----- exactly what is known, when the table has room for every station

  /** One station's own automaton: it looks at no other station and at no table. */
  function Station(expiration: int, fs: seq<Frame>, mac: Mac): Option<DynEntry> {
    if fs == [] then None
    else
      var f := fs[|fs| - 1];
      var alive := Alive(Station(expiration, fs[..|fs| - 1], mac), f.time, expiration);
      if mac != f.src then alive
      else if alive.Some? then Some(alive.value.(time := f.time))
      else Some(DynEntry(mac, f.port, f.time))
  }

  ghost function Sources(fs: seq<Frame>): set<Mac> {
    set f | f in fs :: f.src
  }

  ghost function Addrs(table: Table): set<Mac> {
    set e | e in table :: e.addr
  }

  lemma {:induction false} AddrsSize(table: Table)
    requires DistinctAddrs(table)
    ensures |Addrs(table)| == |table|
  {
    if table != [] {
      AddrsSize(table[1..]);
      assert table == [table[0]] + table[1..];
      assert Addrs(table) == Addrs(table[1..]) + {table[0].addr};
    }
  }

  lemma SubsetSize<T>(a: set<T>, b: set<T>)
    requires a <= b
    ensures |a| <= |b|
  {
    assert b == a + (b - a);
  }

  lemma SourcesGrow(fs: seq<Frame>)
    requires fs != []
    ensures Sources(fs) == Sources(fs[..|fs| - 1]) + {fs[|fs| - 1].src}
  {
    assert fs == fs[..|fs| - 1] + [fs[|fs| - 1]];
  }

  /** Only stations that sent a frame are in the table. */
  lemma {:induction false} OnlySources(capacity: nat, expiration: int, fs: seq<Frame>, mac: Mac)
    requires Entry(capacity, expiration, fs, mac).Some?
    ensures mac in Sources(fs)
  {
    LookupAnswers(Run([], capacity, expiration, fs), mac);
    var i, _ := EntryHistory(capacity, expiration, fs, Entry(capacity, expiration, fs, mac).value);
    assert fs[i] in fs;
  }

  /** With no more stations than capacity, a new station finds room. */
  lemma RoomForNew(capacity: nat, expiration: int, fs: seq<Frame>)
    requires fs != [] && |Sources(fs)| <= capacity
    ensures var f := fs[|fs| - 1];
            var kept := ExpireAddresses(Run([], capacity, expiration, fs[..|fs| - 1]), f.time - expiration);
            Lookup(kept, f.src).Some? || !OutOfSpace(kept, capacity)
  {
    var n := |fs| - 1;
    var f, before := fs[n], Run([], capacity, expiration, fs[..n]);
    var kept := ExpireAddresses(before, f.time - expiration);
    RunDistinct(capacity, expiration, fs[..n]);
    LookupExpired(before, f.time - expiration, f.src);
    SourcesGrow(fs);
    if Lookup(kept, f.src) == None {
      AddrsSize(kept);
      forall a | a in Addrs(kept)
        ensures a in Sources(fs) - {f.src}
      {
        var e :| e in kept && e.addr == a;
        LookupAnswers(before, a);
        OnlySources(capacity, expiration, fs[..n], a);
        LookupAnswers(kept, f.src);
      }
      SubsetSize(Addrs(kept), Sources(fs) - {f.src});
    }
  }

  /** The table is the product of the stations' automata: with no more stations than capacity,
      every station's entry is what its own frames and the passing of time make it. */
  lemma {:induction false} TableIsStations(capacity: nat, expiration: int, fs: seq<Frame>, mac: Mac)
    requires |Sources(fs)| <= capacity
    ensures Entry(capacity, expiration, fs, mac) == Station(expiration, fs, mac)
  {
    if fs != [] {
      var n := |fs| - 1;
      SourcesGrow(fs);
      SubsetSize(Sources(fs[..n]), Sources(fs));
      TableIsStations(capacity, expiration, fs[..n], mac);
      hide Entry, Run, OutOfSpace, ExpireAddresses;
      EntryStep(capacity, expiration, fs, mac);
      AliveOrRoom(capacity, expiration, fs);
    }
  }

  lemma AliveOrRoom(capacity: nat, expiration: int, fs: seq<Frame>)
    requires fs != [] && |Sources(fs)| <= capacity
    ensures var n := |fs| - 1;
            var kept := ExpireAddresses(Run([], capacity, expiration, fs[..n]), fs[n].time - expiration);
            || Alive(Entry(capacity, expiration, fs[..n], fs[n].src), fs[n].time, expiration).Some?
            || !OutOfSpace(kept, capacity)
  {
    hide Run, OutOfSpace, ExpireAddresses, Lookup;
    var n := |fs| - 1;
    RunDistinct(capacity, expiration, fs[..n]);
    RoomForNew(capacity, expiration, fs);
    LookupExpired(Run([], capacity, expiration, fs[..n]), fs[n].time - expiration, fs[n].src);
  }

  ghost predicate InOrder(fs: seq<Frame>) {
    forall i, j :: 0 <= i < j < |fs| ==> fs[i].time <= fs[j].time
  }

  ghost predicate HeardWithin(expiration: int, fs: seq<Frame>, mac: Mac) {
    exists l :: 0 <= l < |fs| && fs[l].src == mac && fs[|fs| - 1].time - expiration <= fs[l].time
  }

  lemma {:induction false} StationRecency(expiration: int, fs: seq<Frame>, mac: Mac)
    requires InOrder(fs) && expiration >= 0
    ensures Station(expiration, fs, mac).Some? <==> HeardWithin(expiration, fs, mac)
    ensures Station(expiration, fs, mac).Some? ==>
              forall l :: 0 <= l < |fs| && fs[l].src == mac ==> fs[l].time <= Station(expiration, fs, mac).value.time
    ensures Station(expiration, fs, mac).Some? ==>
              exists l :: 0 <= l < |fs| && fs[l].src == mac && fs[l].time == Station(expiration, fs, mac).value.time
  {
    if fs != [] {
      var n := |fs| - 1;
      var before, f := fs[..n], fs[n];
      StationRecency(expiration, before, mac);
      var prev := Station(expiration, before, mac);
      if f.src == mac {
        assert fs[n].src == mac;
      } else {
        if l :| 0 <= l < |fs| && fs[l].src == mac && f.time - expiration <= fs[l].time {
          assert before[l] == fs[l] && before[n - 1] == fs[n - 1];
          assert HeardWithin(expiration, before, mac);
        }
        if prev.Some? {
          var l :| 0 <= l < n && before[l].src == mac && before[l].time == prev.value.time;
          assert fs[l] == before[l];
        }
      }
    }
  }

  /** Frame j begins the station's current streak: it sent nothing within the expiration time before, and
      since then no frame of any station came more than the expiration time after one of its own. */
  ghost predicate BeganAt(expiration: int, fs: seq<Frame>, mac: Mac, j: int) {
    && 0 <= j < |fs| && fs[j].src == mac
    && (forall l :: 0 <= l < j && fs[l].src == mac ==> fs[l].time < fs[j].time - expiration)
    && (forall m :: j < m < |fs| ==> VouchedAt(fs, expiration, mac, j, m))
  }

  /** There is only one such frame. */
  lemma BeganOnce(expiration: int, fs: seq<Frame>, mac: Mac, i: int, j: int)
    requires BeganAt(expiration, fs, mac, i) && BeganAt(expiration, fs, mac, j)
    ensures i == j
  {
    if i < j {
      SilentBefore(expiration, fs, mac, i, j);
    } else if j < i {
      SilentBefore(expiration, fs, mac, j, i);
    }
  }

  lemma SilentBefore(expiration: int, fs: seq<Frame>, mac: Mac, i: int, j: int)
    requires 0 <= i < j < |fs|
    requires forall l :: 0 <= l < j && fs[l].src == mac ==> fs[l].time < fs[j].time - expiration
    ensures !VouchedAt(fs, expiration, mac, i, j)
  {
  }

  /** A known station's port is that of the frame which began its streak. */
  lemma {:induction false} StationStreak(expiration: int, fs: seq<Frame>, mac: Mac) returns (j: int)
    requires InOrder(fs) && expiration >= 0 && Station(expiration, fs, mac).Some?
    ensures BeganAt(expiration, fs, mac, j) && Station(expiration, fs, mac).value.port == fs[j].port
  {
    var n := |fs| - 1;
    var before, f := fs[..n], fs[n];
    var prev := Station(expiration, before, mac);
    StationRecency(expiration, before, mac);
    if Alive(prev, f.time, expiration).Some? {
      j := StationStreak(expiration, before, mac);
      StreakGoesOn(expiration, fs, mac, j, prev.value.time);
    } else {
      j := n;
      forall l | 0 <= l < n && fs[l].src == mac
        ensures fs[l].time < f.time - expiration
      {
        if f.time - expiration <= fs[l].time {
          StillAlive(expiration, fs, mac, l);
        }
      }
    }
  }

  /** A station heard within the expiration time is alive when the last frame comes. */
  lemma StillAlive(expiration: int, fs: seq<Frame>, mac: Mac, l: int)
    requires InOrder(fs) && expiration >= 0 && 0 <= l < |fs| - 1 && fs[l].src == mac
    requires fs[|fs| - 1].time - expiration <= fs[l].time
    ensures Alive(Station(expiration, fs[..|fs| - 1], mac), fs[|fs| - 1].time, expiration).Some?
  {
    var n := |fs| - 1;
    var before := fs[..n];
    assert before[l] == fs[l] && before[n - 1] == fs[n - 1];
    StationRecency(expiration, before, mac);
  }

  lemma StreakGoesOn(expiration: int, fs: seq<Frame>, mac: Mac, j: int, last: int)
    requires fs != [] && expiration >= 0
    requires var before := fs[..|fs| - 1];
             && BeganAt(expiration, before, mac, j)
             && (forall l :: 0 <= l < |before| && before[l].src == mac ==> before[l].time <= last)
             && (exists l :: 0 <= l < |before| && before[l].src == mac && before[l].time == last)
    requires fs[|fs| - 1].time - expiration <= last
    ensures BeganAt(expiration, fs, mac, j)
  {
    var n := |fs| - 1;
    var before := fs[..n];
    var l :| 0 <= l < n && before[l].src == mac && before[l].time == last;
    assert before[j].time <= last;
    assert forall k :: 0 <= k < n ==> before[k] == fs[k];
    forall m | j < m < |fs|
      ensures VouchedAt(fs, expiration, mac, j, m)
    {
      if m < n {
        assert VouchedAt(before, expiration, mac, j, m);
        var p :| j <= p < m && before[p].src == mac && before[m].time - expiration <= before[p].time;
        assert fs[p] == before[p];
      } else {
        assert fs[l] == before[l];
      }
    }
  }

  /** The destination's current streak began on the given port. */
  ghost predicate BeganOn(expiration: int, fs: seq<Frame>, mac: Mac, port: int) {
    exists j :: BeganAt(expiration, fs, mac, j) && fs[j].port == port
  }

  /** Forwarding, in closed form: with frames in time order and no more stations than capacity, the
      bridge floods a frame if its destination sent nothing within the expiration time; otherwise the
      frame goes to the port of the frame with which the destination's current streak began. */
  lemma Forwarding(capacity: nat, expiration: int, fs: seq<Frame>, i: nat)
    requires i < |fs| && InOrder(fs) && expiration >= 0 && |Sources(fs)| <= capacity
    ensures var prefix, dst := fs[..i + 1], fs[i].dst;
            var out := Outputs([], capacity, expiration, fs)[i];
            if HeardWithin(expiration, prefix, dst)
            then BeganOn(expiration, prefix, dst, out)
            else out == FLOOD_FRAME
  {
    hide Station, Run, HeardWithin, BeganAt;
    var prefix, dst := fs[..i + 1], fs[i].dst;
    assert forall f :: f in prefix ==> f in fs;
    SubsetSize(Sources(prefix), Sources(fs));
    StationRecency(expiration, prefix, dst);
    TableIsStations(capacity, expiration, prefix, dst);
    LookupAnswers(Run([], capacity, expiration, prefix), dst);
    if HeardWithin(expiration, prefix, dst) {
      var j := StationStreak(expiration, prefix, dst);
    }
  }

  /** Port 65535 is also the code for flooding: a frame is flooded exactly when its destination is not known
      or its current streak began on that port. */
  lemma FloodedIff(capacity: nat, expiration: int, fs: seq<Frame>, i: nat)
    requires i < |fs| && InOrder(fs) && expiration >= 0 && |Sources(fs)| <= capacity
    ensures var prefix, dst := fs[..i + 1], fs[i].dst;
            Outputs([], capacity, expiration, fs)[i] == FLOOD_FRAME
            <==> !HeardWithin(expiration, prefix, dst) || BeganOn(expiration, prefix, dst, FLOOD_FRAME)
  {
    hide HeardWithin, VouchedAt, Output;
    var prefix, dst := fs[..i + 1], fs[i].dst;
    Forwarding(capacity, expiration, fs, i);
    var out := Outputs([], capacity, expiration, fs)[i];
    if HeardWithin(expiration, prefix, dst) && BeganOn(expiration, prefix, dst, FLOOD_FRAME) {
      var j :| BeganAt(expiration, prefix, dst, j) && prefix[j].port == out;
      var k :| BeganAt(expiration, prefix, dst, k) && prefix[k].port == FLOOD_FRAME;
      BeganOnce(expiration, prefix, dst, j, k);
    }
  }

  /** A station that was just heard on that port: the frame sent back to it is flooded. */
  lemma FloodPortFails(capacity: nat, expiration: int)
    requires capacity >= 2 && expiration >= 0
    ensures var fs := [Frame(1, 2, 0xFFFF, 0), Frame(2, 1, 0, 0)];
            HeardWithin(expiration, fs, fs[1].dst) && Outputs([], capacity, expiration, fs)[1] == FLOOD_FRAME
  {
    var fs := [Frame(1, 2, 0xFFFF, 0), Frame(2, 1, 0, 0)];
    assert fs[0].src == 1;
    assert fs[..2] == fs;
    assert Sources(fs) == {1, 2};
    assert VouchedAt(fs, expiration, 1, 0, 1);
    assert BeganAt(expiration, fs, 1, 0);
    hide Output, HeardWithin, BeganAt;
    FloodedIff(capacity, expiration, fs, 1);
  }
}
