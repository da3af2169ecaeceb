/** When the ring slices of other virtual addresses make a difference. Each VIP number owns 127 positions of the
    ring, but all VIPs share one connection table and one limiter. */
module KatranIsolation {
  import opened Packets
  import opened KatranSpec
  import opened KatranRuns
  import opened KatranLaws
  import opened Options

  /** The configurations differ in the ring alone, and not in the slice of number v. */
  ghost predicate SameSlice(c: Config, c': Config, v: nat) {
    && v < 32 && |c.ring| == |c'.ring| == CH_RINGS_SIZE && c' == c.(ring := c'.ring)
    && forall i :: 127 * v <= i < 127 * v + 127 ==> c.ring[i] == c'.ring[i]
  }

  function NumberOf(c: Config, k: Flow): nat
    requires FindVip(c.vips, k).Some?
  {
    FindVip(c.vips, k).value.0.num
  }

  /** The ring knows a real for key k and family b. */
  predicate Named(c: Config, k: Flow, b: bool)
    requires ValidConfig(c) && FindVip(c.vips, k).Some?
  {
    FlowVipValid(c, k);
    Route(c, FindVip(c.vips, k).value.0, k, b).Some?
  }

  /** Both rings know a real for the same keys of other VIPs that the connection table can be searched for. */
  ghost predicate NamesAlike(c: Config, c': Config, v: nat)
    requires ValidConfig(c) && ValidConfig(c') && c.vips == c'.vips
  {
    forall k :: Settled(c, k) && NumberOf(c, k) != v ==>
                  (Named(c, k, true) <==> Named(c', k, true))
                  && (V4Shaped(k) ==> (Named(c, k, false) <==> Named(c', k, false)))
  }

  /** The entry under k is there in both tables, equally old, and the same if k belongs to number v. */
  predicate EntryAlike(c: Config, v: nat, lru: Lru, lru': Lru, k: Flow)
    requires FindVip(c.vips, k).Some?
  {
    && (k in lru <==> k in lru')
    && (k in lru ==> lru[k].atime == lru'[k].atime && (NumberOf(c, k) == v ==> lru[k].pos == lru'[k].pos))
  }

  ghost predicate LruAlike(c: Config, v: nat, lru: Lru, lru': Lru) {
    forall k :: Settled(c, k) ==> EntryAlike(c, v, lru, lru', k)
  }

  ghost predicate Alike(c: Config, v: nat, s: State, s': State)
    requires ValidState(s) && ValidState(s')
  {
    && s.stats[34] == s'.stats[34]
    && StoredKeys(c.vips, s.lru) && StoredKeys(c.vips, s'.lru) && AllNamed(s.lru) && AllNamed(s'.lru)
    && LruAlike(c, v, s.lru, s'.lru)
  }

  // ----- one packet

  /** A key that is looked up and found is settled. */
  lemma FoundIsSettled(c: Config, lru: Lru, f: Flow)
    requires ValidConfig(c) && StoredKeys(c.vips, lru) && FindVip(c.vips, f).Some?
    requires var (vip, exact) := FindVip(c.vips, f).value; ReadKey(vip, exact, f) in lru
    ensures var (vip, exact) := FindVip(c.vips, f).value;
            Settled(c, ReadKey(vip, exact, f)) && NumberOf(c, ReadKey(vip, exact, f)) == vip.num
  {
    ReadKeyVip(c.vips, f);
    var (vip, exact) := FindVip(c.vips, f).value;
    StoredKey(c.vips, lru, ReadKey(vip, exact, f));
  }

  lemma FoundAlike(c: Config, v: nat, lru: Lru, lru': Lru, f: Flow)
    requires ValidConfig(c) && StoredKeys(c.vips, lru) && StoredKeys(c.vips, lru') && LruAlike(c, v, lru, lru')
    requires FindVip(c.vips, f).Some?
    ensures var (vip, exact) := FindVip(c.vips, f).value;
            var k := ReadKey(vip, exact, f);
            && (k in lru <==> k in lru')
            && (k in lru ==> lru[k].atime == lru'[k].atime && (vip.num == v ==> lru[k].pos == lru'[k].pos))
  {
    var (vip, exact) := FindVip(c.vips, f).value;
    var k := ReadKey(vip, exact, f);
    if k in lru {
      FoundIsSettled(c, lru, f);
    } else if k in lru' {
      FoundIsSettled(c, lru', f);
    }
    hide FindVip, ReadKey, WriteKey, StoredKeys;
  }

  /** Both take the same way, to the same position if the packet is for number v. */
  ghost predicate SameWay(c: Config, v: nat, p: Pkt, w: Way, w': Way) {
    && (w.ByTable? <==> w'.ByTable?) && (w.ByRing? <==> w'.ByRing?)
    && (!w.ByTable? && !w.ByRing? ==> w == w')
    && (VipFor(c, p.flow).Some? && VipFor(c, p.flow).value.num == v ==> w == w')
  }

  lemma WaysAlike(c: Config, c': Config, v: nat, s: State, s': State, p: Pkt)
    requires ValidConfig(c) && ValidConfig(c') && ValidState(s) && ValidState(s')
    requires SameSlice(c, c', v) && Alike(c, v, s, s')
    ensures SameWay(c, v, p, WayOf(c, s, p), WayOf(c', s', p))
  {
    VipForIs(c, p.flow);
    SameKeys(c, c', p.flow);
    if FindVip(c.vips, p.flow).Some? {
      var (vip, exact) := FindVip(c.vips, p.flow).value;
      FlowVipValid(c, p.flow);
      FoundAlike(c, v, s.lru, s'.lru, p.flow);
      var k := ReadKey(vip, exact, p.flow);
      var i := 127 * vip.num + c.hash(HashKey(vip, k), p.isV6) % 127;
      assert vip.num == v ==> c.ring[i] == c'.ring[i];
      hide FindVip, ReadKey, WriteKey, VipFor, TableKey, HashKey, StoredKeys, LruAlike;
    }
  }

  lemma UpdateAlike(c: Config, v: nat, lru: Lru, lru': Lru, k: Flow, e: Entry, e': Entry)
    requires LruAlike(c, v, lru, lru')
    requires Settled(c, k) ==> e.atime == e'.atime && (NumberOf(c, k) == v ==> e.pos == e'.pos)
    ensures LruAlike(c, v, lru[k := e], lru'[k := e'])
  {
    hide Settled;
  }

  lemma UnsettledAlike(c: Config, v: nat, lru: Lru, lru': Lru, k: Flow, e: Entry)
    requires LruAlike(c, v, lru, lru') && !Settled(c, k)
    ensures LruAlike(c, v, lru[k := e], lru') && LruAlike(c, v, lru, lru'[k := e])
  {
    hide Settled;
  }

  /** What the ring says for the key of a packet is what it says for the key it is stored under. */
  lemma StoredKeyNamed(c: Config, c': Config, v: nat, p: Pkt)
    requires ValidConfig(c) && ValidConfig(c') && SameSlice(c, c', v) && NamesAlike(c, c', v)
    requires FindVip(c.vips, p.flow).Some? && (p.isV6 || V4Shaped(p.flow))
    ensures var (vip, exact) := FindVip(c.vips, p.flow).value;
            var w := WriteKey(vip, ReadKey(vip, exact, p.flow));
            && vip.num < MAX_VIPS && FindVip(c.vips, w).Some? && NumberOf(c, w) == vip.num
            && (Settled(c, w) ==>
                  (c.ring[127 * vip.num + c.hash(w, p.isV6) % 127] < 256
                   <==> c'.ring[127 * vip.num + c.hash(w, p.isV6) % 127] < 256))
  {
    VipOfKey(c.vips, p.flow);
    FlowVipValid(c, p.flow);
    var (vip, exact) := FindVip(c.vips, p.flow).value;
    var w := WriteKey(vip, ReadKey(vip, exact, p.flow));
    assert p.isV6 || V4Shaped(w);
    if Settled(c, w) {
      var i := 127 * vip.num + c.hash(w, p.isV6) % 127;
      assert Named(c, w, p.isV6) <==> c.ring[i] < 256;
      assert Named(c', w, p.isV6) <==> c'.ring[i] < 256;
      if vip.num != v {
        assert Named(c, w, p.isV6) <==> Named(c', w, p.isV6);
      }
    }
  }

  lemma TablesAlike(c: Config, c': Config, v: nat, s: State, s': State, p: Pkt)
    requires ValidConfig(c) && ValidConfig(c') && ValidState(s) && ValidState(s')
    requires SameSlice(c, c', v) && NamesAlike(c, c', v) && Alike(c, v, s, s') && (p.isV6 || V4Shaped(p.flow))
    ensures LruAlike(c, v, TableOf(c, s, p), TableOf(c', s', p))
  {
    VipForIs(c, p.flow);
    SameKeys(c, c', p.flow);
    WaysAlike(c, c', v, s, s', p);
    if FindVip(c.vips, p.flow).Some? {
      var (vip, exact) := FindVip(c.vips, p.flow).value;
      var k := ReadKey(vip, exact, p.flow);
      var w := WriteKey(vip, k);
      StoredKeyNamed(c, c', v, p);
      var way, way' := WayOf(c, s, p), WayOf(c', s', p);
      if way.ByTable? {
        ReadKeyVip(c.vips, p.flow);
        assert k in s.lru && k in s'.lru;
        hide FindVip, ReadKey, WriteKey, VipFor, TableKey, HashKey, StoredKeys, LruAlike, Settled, WayOf, NamesAlike;
        UpdateAlike(c, v, s.lru, s'.lru, k, Entry(way.pos, p.now), Entry(way'.pos, p.now));
      } else if way.ByRing? {
        var at := if k.proto == 17 then p.now else 0;
        assert way.pos == c.ring[127 * vip.num + c.hash(w, p.isV6) % 127];
        assert way'.pos == c'.ring[127 * vip.num + c.hash(w, p.isV6) % 127];
        hide FindVip, ReadKey, WriteKey, VipFor, TableKey, HashKey, StoredKeys, LruAlike, Settled, WayOf, NamesAlike;
        hide Admits;
        if Settled(c, w) {
          UpdateAlike(c, v, s.lru, s'.lru, w, Entry(way.pos, at), Entry(way'.pos, at));
        } else {
          UnsettledAlike(c, v, s.lru, s'.lru, w, Entry(way.pos, at));
          UnsettledAlike(c, v, s.lru, s'.lru, w, Entry(way'.pos, at));
          UpdateAlike(c, v, s.lru, s'.lru, w, Entry(way.pos, at), Entry(way'.pos, at));
        }
      }
    }
  }

  /** One packet keeps the two states alike. */
  lemma StepAlike(c: Config, c': Config, v: nat, s: State, s': State, p: Pkt)
    requires ValidConfig(c) && ValidConfig(c') && ValidState(s) && ValidState(s')
    requires SameSlice(c, c', v) && NamesAlike(c, c', v) && Alike(c, v, s, s') && (p.isV6 || V4Shaped(p.flow))
    ensures Alike(c, v, Process(c, s, p).0, Process(c', s', p).0)
  {
    hide Process, TableOf, NamesAlike, LimiterAfter, WayOf;
    TablesAlike(c, c', v, s, s', p);
    WaysAlike(c, c', v, s, s', p);
    PacketStores(c, s, p);
    PacketStores(c', s', p);
    TableStaysNamed(c, s, p);
    TableStaysNamed(c', s', p);
    PacketCounts(c, s, p, 34);
    PacketCounts(c', s', p, 34);
    ProcessStored(c, s, p);
    ProcessStored(c', s', p);
    hide LruAlike, StoredKeys, AllNamed;
  }

  lemma EvictAlike(c: Config, v: nat, s: State, s': State, keys: set<Flow>)
    requires ValidState(s) && ValidState(s') && Alike(c, v, s, s')
    ensures Alike(c, v, s.(lru := s.lru - keys), s'.(lru := s'.lru - keys))
  {
    hide Settled, FindVip, WriteKey;
  }

  // ----- over every run

  ghost predicate Parallel(w: World, w': World, v: nat)
    requires ValidWorld(w) && ValidWorld(w')
  {
    SameSlice(w.c, w'.c, v) && NamesAlike(w.c, w'.c, v) && Alike(w.c, v, w.s, w'.s)
  }

  lemma NextAlike(w: World, w': World, v: nat, e: Event)
    requires ValidWorld(w) && ValidWorld(w') && ValidEvent(e) && Parallel(w, w', v)
    ensures Parallel(Next(w, e), Next(w', e), v)
  {
    hide Process, Alike, NamesAlike;
    match e
    case Arrive(p) => StepAlike(w.c, w'.c, v, w.s, w'.s, p);
    case Evict(keys) => EvictAlike(w.c, v, w.s, w'.s, keys);
    case NewRing(ring) =>
      NamesReflexive(Next(w, e).c, v);
      AlikeRing(w.c, Next(w, e).c, v, w.s, w'.s);
  }

  lemma NamesReflexive(c: Config, v: nat)
    requires ValidConfig(c)
    ensures NamesAlike(c, c, v)
  {
  }

  lemma AlikeRing(c: Config, c': Config, v: nat, s: State, s': State)
    requires ValidState(s) && ValidState(s') && Alike(c, v, s, s') && c.vips == c'.vips
    ensures Alike(c', v, s, s')
  {
    forall k | Settled(c', k)
      ensures EntryAlike(c', v, s.lru, s'.lru, k)
    {
      assert Settled(c, k);
    }
  }

  lemma {:induction false} RunAlike(c: Config, c': Config, v: nat, es: seq<Event>)
    requires ValidConfig(c) && ValidConfig(c') && SameSlice(c, c', v) && NamesAlike(c, c', v) && ValidEvents(es)
    ensures Parallel(Run(World(c, Initial()), es), Run(World(c', Initial()), es), v)
  {
    hide Next, Parallel, NamesAlike;
    if es == [] {
      StartAlike(c, c', v);
    } else {
      var n := |es| - 1;
      RunAlike(c, c', v, es[..n]);
      NextAlike(Run(World(c, Initial()), es[..n]), Run(World(c', Initial()), es[..n]), v, es[n]);
    }
  }

  lemma StartAlike(c: Config, c': Config, v: nat)
    requires ValidConfig(c) && ValidConfig(c') && SameSlice(c, c', v) && NamesAlike(c, c', v)
    ensures Parallel(World(c, Initial()), World(c', Initial()), v)
  {
  }

  /** The packet is for a VIP with number v. */
  predicate IsFor(c: Config, p: Pkt, v: nat) {
    VipFor(c, p.flow).Some? && VipFor(c, p.flow).value.num == v
  }

  /** Isolation: if two rings agree on the slice of number v and know a real for the same keys of the other
      VIPs, every packet for number v goes to the same place after every run, however often the ring is then
      changed, whatever else arrives and however many connections come. */
  lemma Isolation(c: Config, c': Config, v: nat, es: seq<Event>, p: Pkt)
    requires ValidConfig(c) && ValidConfig(c') && SameSlice(c, c', v) && NamesAlike(c, c', v)
    requires ValidEvents(es) && IsFor(c, p, v)
    ensures var w, w' := Run(World(c, Initial()), es), Run(World(c', Initial()), es);
            Process(w.c, w.s, p).1 == Process(w'.c, w'.s, p).1
  {
    RunAlike(c, c', v, es);
    RunStored(c, es);
    var w, w' := Run(World(c, Initial()), es), Run(World(c', Initial()), es);
    SameKeys(c, w.c, p.flow);
    hide Process, Run, WayOf, NamesAlike, Alike, VipFor;
    WaysAlike(w.c, w'.c, v, w.s, w'.s, p);
    PacketGoes(w.c, w.s, p);
    PacketGoes(w'.c, w'.s, p);
  }

  /** In particular if the other slices name other reals at the same positions. */
  lemma IsolationBySlices(c: Config, c': Config, v: nat, es: seq<Event>, p: Pkt)
    requires ValidConfig(c) && ValidConfig(c') && SameSlice(c, c', v) && ValidEvents(es) && IsFor(c, p, v)
    requires forall i :: 0 <= i < CH_RINGS_SIZE ==> (c.ring[i] < 256 <==> c'.ring[i] < 256)
    ensures var w, w' := Run(World(c, Initial()), es), Run(World(c', Initial()), es);
            Process(w.c, w.s, p).1 == Process(w'.c, w'.s, p).1
  {
    forall k, b: bool | FindVip(c.vips, k).Some?
      ensures Named(c, k, b) <==> Named(c', k, b)
    {
      FlowVipValid(c, k);
    }
    hide Run, Process;
    Isolation(c, c', v, es, p);
  }

  // ----- exactly when

  ghost predicate SameOutcome(c: Config, c': Config, es: seq<Event>, p: Pkt)
    requires ValidConfig(c) && ValidConfig(c') && ValidEvents(es)
  {
    Process(c, Run(World(c, Initial()), es).s, p).1 == Process(c', Run(World(c', Initial()), es).s, p).1
  }

  /** Over no run with one ring can a packet for number v tell the two rings apart. */
  ghost predicate Isolated(c: Config, c': Config, v: nat)
    requires ValidConfig(c) && ValidConfig(c')
  {
    forall es: seq<Event>, p: Pkt :: SameRing(es) && (p.isV6 || V4Shaped(p.flow)) && IsFor(c, p, v) ==>
                                       SameOutcome(c, c', es, p)
  }

  /** Where the ring sends key k of its VIP. */
  function RingAt(c: Config, k: Flow, b: bool): nat
    requires ValidConfig(c) && FindVip(c.vips, k).Some?
  {
    FlowVipValid(c, k);
    c.ring[127 * NumberOf(c, k) + c.hash(k, b) % 127]
  }

  lemma SliceSame(c: Config, c': Config, v: nat, k: Flow, b: bool)
    requires ValidConfig(c) && ValidConfig(c') && SameSlice(c, c', v)
    requires FindVip(c.vips, k).Some? && NumberOf(c, k) == v
    ensures RingAt(c, k, b) == RingAt(c', k, b)
  {
  }

  /** A settled key, flatly. */
  lemma SettledKey(c: Config, k: Flow)
    requires ValidConfig(c) && Settled(c, k)
    ensures VipFor(c, k).Some? && FindVip(c.vips, k).Some? && NumberOf(c, k) < MAX_VIPS
    ensures var vip := VipFor(c, k).value;
            vip.num == NumberOf(c, k) && !vip.lruBypass && TableKey(c, vip, k) == k && HashKey(vip, k) == k
    ensures forall b ::
              Route(c, FindVip(c.vips, k).value.0, k, b)
              == if RingAt(c, k, b) < 256 then Some(RingAt(c, k, b)) else None
  {
    VipForIs(c, k);
    FlowVipValid(c, k);
  }

  lemma FamiliesSlice(c: Config, c': Config, v: nat)
    requires ValidConfig(c) && ValidConfig(c') && SameSlice(c, c', v) && FamiliesAgreeOn(c, v)
    ensures FamiliesAgreeOn(c', v)
  {
    forall k | Settled(c', k) && V4Shaped(k) && NumberOf(c', k) == v
      ensures var vip := FindVip(c'.vips, k).value.0;
              vip.num < MAX_VIPS && Route(c', vip, k, false) == Route(c', vip, k, true)
    {
      assert Settled(c, k);
      SettledKey(c, k);
      SettledKey(c', k);
      SliceSame(c, c', v, k, false);
      SliceSame(c, c', v, k, true);
    }
  }

  lemma StatelessSlice(c: Config, c': Config, v: nat, p: Pkt)
    requires ValidConfig(c) && ValidConfig(c') && SameSlice(c, c', v) && IsFor(c, p, v)
    ensures Stateless(c, p) == Stateless(c', p)
  {
    VipForIs(c, p.flow);
    var (vip, exact) := FindVip(c.vips, p.flow).value;
    FlowVipValid(c, p.flow);
    var w := WriteKey(vip, ReadKey(vip, exact, p.flow));
    hide FindVip, ReadKey, VipFor;
    WriteTwice(vip, ReadKey(vip, exact, p.flow));
    hide WriteKey;
    var i := 127 * vip.num + c.hash(w, p.isV6) % 127;
    assert c.ring[i] == c'.ring[i];
  }

  lemma WriteTwice(vip: Vip, k: Flow)
    ensures WriteKey(vip, WriteKey(vip, k)) == WriteKey(vip, k)
  {
  }

  lemma IsolatedIfAgree(c: Config, c': Config, v: nat)
    requires ValidConfig(c) && ValidConfig(c') && SameSlice(c, c', v) && FamiliesAgreeOn(c, v)
    ensures Isolated(c, c', v)
  {
    FamiliesSlice(c, c', v);
    forall es: seq<Event>, p: Pkt | SameRing(es) && (p.isV6 || V4Shaped(p.flow)) && IsFor(c, p, v)
      ensures SameOutcome(c, c', es, p)
    {
      VipForIs(c, p.flow);
      VipForIs(c', p.flow);
      RunFromRing(c, es);
      RunFromRing(c', es);
      hide Process, Run, Stateless, FamiliesAgreeOn, FromRing, FindVip, VipFor;
      TransparentIfAgree(c, Run(World(c, Initial()), es).s, p);
      TransparentIfAgree(c', Run(World(c', Initial()), es).s, p);
      StatelessSlice(c, c', v, p);
    }
  }

  lemma IsolatedIfNamed(c: Config, c': Config, v: nat)
    requires ValidConfig(c) && ValidConfig(c') && SameSlice(c, c', v) && NamesAlike(c, c', v)
    ensures Isolated(c, c', v)
  {
    forall es: seq<Event>, p: Pkt | SameRing(es) && (p.isV6 || V4Shaped(p.flow)) && IsFor(c, p, v)
      ensures SameOutcome(c, c', es, p)
    {
      RunFromRing(c, es);
      RunFromRing(c', es);
      hide Process, Run, NamesAlike, VipFor;
      Isolation(c, c', v, es, p);
    }
  }

  // ----- a run that tells them apart

  function Again(k: Flow, b: bool, n: nat): (es: seq<Event>)
    ensures |es| == n && forall i :: 0 <= i < n ==> es[i] == Arrive(FirstPacket(k, b))
  {
    seq(n, _ => Arrive(FirstPacket(k, b)))
  }

  /** A packet of a settled key at time 0 follows an entry of that time, and otherwise the ring. */
  lemma SettledWay(c: Config, s: State, k: Flow, b: bool)
    requires ValidConfig(c) && ValidState(s) && Settled(c, k) && AllNamed(s.lru)
    requires k in s.lru ==> s.lru[k].atime == 0
    ensures FindVip(c.vips, k).Some?
    ensures WayOf(c, s, FirstPacket(k, b)) == if k in s.lru then ByTable(s.lru[k].pos) else ByRing(RingAt(c, k, b))
  {
    SettledKey(c, k);
    hide VipFor, TableKey, HashKey, FindVip, Settled;
  }

  /** What a packet of a settled key does to a table that holds it since time 0, or does not. */
  lemma SettledStep(c: Config, s: State, k: Flow, b: bool)
    requires ValidConfig(c) && ValidState(s) && Settled(c, k) && AllNamed(s.lru)
    requires k in s.lru ==> s.lru[k].atime == 0
    ensures FindVip(c.vips, k).Some?
    ensures var (r, out) := Process(c, s, FirstPacket(k, b));
            var pos := RingAt(c, k, b);
            if k in s.lru then
              r.lru == s.lru && r.stats[34] == s.stats[34] && out == Outcome(Tx, Some(s.lru[k].pos))
            else
              && r.stats[34] == LimiterAfter(s.stats[34], 0)
              && r.lru == (if pos < 256 && Admits(s.stats[34], 0) then s.lru[k := Entry(pos, 0)] else s.lru)
              && out == if pos < 256 then Outcome(Tx, Some(pos)) else Outcome(Drop, None)
  {
    var p := FirstPacket(k, b);
    SettledWay(c, s, k, b);
    SettledTable(c, s, k, b);
    PacketGoes(c, s, p);
    PacketStores(c, s, p);
    PacketCounts(c, s, p, 34);
    hide Process, WayOf, TableOf, FindVip, Settled, LimiterAfter, Admits, RingAt, Counted;
  }

  lemma SettledTable(c: Config, s: State, k: Flow, b: bool)
    requires ValidConfig(c) && ValidState(s) && Settled(c, k) && AllNamed(s.lru)
    requires k in s.lru ==> s.lru[k].atime == 0
    ensures FindVip(c.vips, k).Some?
    ensures TableOf(c, s, FirstPacket(k, b))
            == if k !in s.lru && RingAt(c, k, b) < 256 && Admits(s.stats[34], 0)
               then s.lru[k := Entry(RingAt(c, k, b), 0)] else s.lru
  {
    SettledKey(c, k);
    SettledWay(c, s, k, b);
    hide VipFor, TableKey, HashKey, FindVip, Settled, WayOf, RingAt, Admits;
    if k in s.lru {
      assert s.lru[k := Entry(s.lru[k].pos, 0)] == s.lru;
    }
  }

  lemma {:induction false} HitAgain(c: Config, k: Flow, b: bool, n: nat)
    requires ValidConfig(c) && Settled(c, k) && n > 0 && FindVip(c.vips, k).Some? && RingAt(c, k, b) < 256
    requires b || V4Shaped(k)
    ensures var s := Run(World(c, Initial()), Again(k, b, n)).s;
            s.lru == map[k := Entry(RingAt(c, k, b), 0)] && s.stats[34] == Stat(1, 0)
    ensures Run(World(c, Initial()), Again(k, b, n)).c == c
  {
    hide Process, RingAt, Settled, FindVip;
    assert Again(k, b, n)[..n - 1] == Again(k, b, n - 1);
    if n > 1 {
      HitAgain(c, k, b, n - 1);
      SettledStep(c, Run(World(c, Initial()), Again(k, b, n - 1)).s, k, b);
    } else {
      SettledStep(c, Initial(), k, b);
    }
  }

  lemma {:induction false} MissAgain(c: Config, k: Flow, b: bool, n: nat)
    requires ValidConfig(c) && Settled(c, k) && FindVip(c.vips, k).Some? && RingAt(c, k, b) >= 256
    requires b || V4Shaped(k)
    ensures var s := Run(World(c, Initial()), Again(k, b, n)).s;
            s.lru == map[] && s.stats[34] == Stat(n, 0)
    ensures Run(World(c, Initial()), Again(k, b, n)).c == c
  {
    hide Process, RingAt, Settled, FindVip;
    if n > 0 {
      assert Again(k, b, n)[..n - 1] == Again(k, b, n - 1);
      MissAgain(c, k, b, n - 1);
      SettledStep(c, Run(World(c, Initial()), Again(k, b, n - 1)).s, k, b);
    }
  }

  /** The run: a flow of another VIP, 125000 packets long, and then one packet of key k. */
  function Telling(k: Flow, b: bool, k': Flow, b': bool): (es: seq<Event>) {
    Again(k', b', 125000) + [Arrive(FirstPacket(k, b))]
  }

  lemma TellingRun(c: Config, k: Flow, b: bool, k': Flow, b': bool)
    requires ValidConfig(c) && (b || V4Shaped(k)) && (b' || V4Shaped(k'))
    ensures SameRing(Telling(k, b, k', b'))
    ensures var w := World(c, Initial());
            var before := Run(w, Again(k', b', 125000));
            Run(w, Telling(k, b, k', b')) == Next(before, Arrive(FirstPacket(k, b)))
  {
    var es := Telling(k, b, k', b');
    assert es[..|es| - 1] == Again(k', b', 125000);
    hide Process;
  }

  /** Where the other flow is stored it counts as one new connection, and k is stored after it. */
  lemma StoredAfter(c: Config, k: Flow, b: bool, k': Flow, b': bool)
    requires ValidConfig(c) && Settled(c, k) && Settled(c, k') && k != k' && (b || V4Shaped(k)) && (b' || V4Shaped(k'))
    requires FindVip(c.vips, k).Some? && FindVip(c.vips, k').Some?
    requires RingAt(c, k, b) < 256 && RingAt(c, k', b') < 256
    ensures SameRing(Telling(k, b, k', b'))
    ensures Process(c, Run(World(c, Initial()), Telling(k, b, k', b')).s, FirstPacket(k, !b)).1
            == Outcome(Tx, Some(RingAt(c, k, b)))
  {
    hide Process, RingAt, Settled, FindVip, Run;
    TellingRun(c, k, b, k', b');
    HitAgain(c, k', b', 125000);
    var before := Run(World(c, Initial()), Again(k', b', 125000));
    SettledStep(c, before.s, k, b);
    SettledStep(c, Process(c, before.s, FirstPacket(k, b)).0, k, !b);
  }

  /** Where it is not, every packet of it counts, and k is not stored any more. */
  lemma FloodedAfter(c: Config, k: Flow, b: bool, k': Flow, b': bool)
    requires ValidConfig(c) && Settled(c, k) && Settled(c, k') && k != k' && (b || V4Shaped(k)) && (b' || V4Shaped(k'))
    requires FindVip(c.vips, k).Some? && FindVip(c.vips, k').Some?
    requires RingAt(c, k', b') >= 256
    ensures SameRing(Telling(k, b, k', b'))
    ensures Process(c, Run(World(c, Initial()), Telling(k, b, k', b')).s, FirstPacket(k, !b)).1
            == var pos := RingAt(c, k, !b); if pos < 256 then Outcome(Tx, Some(pos)) else Outcome(Drop, None)
  {
    hide Process, RingAt, Settled, FindVip, Run;
    TellingRun(c, k, b, k', b');
    MissAgain(c, k', b', 125000);
    var before := Run(World(c, Initial()), Again(k', b', 125000));
    SettledStep(c, before.s, k, b);
    SettledStep(c, Process(c, before.s, FirstPacket(k, b)).0, k, !b);
  }

  /** So if the families disagree on a key of number v, and only one of the rings knows a real for a key of
      another VIP, there is a packet for number v that goes to different places. */
  lemma ToldApart(c: Config, c': Config, v: nat, k: Flow, k': Flow, b': bool) returns (es: seq<Event>, p: Pkt)
    requires ValidConfig(c) && ValidConfig(c') && SameSlice(c, c', v)
    requires Settled(c, k) && Settled(c, k') && V4Shaped(k) && (b' || V4Shaped(k'))
    requires FindVip(c.vips, k).Some? && FindVip(c.vips, k').Some? && NumberOf(c, k) == v != NumberOf(c, k')
    requires Named(c, k, false) != Named(c, k, true) || RingAt(c, k, false) != RingAt(c, k, true)
    requires Named(c, k, false) || Named(c, k, true)
    requires Named(c, k', b') != Named(c', k', b')
    ensures SameRing(es) && V4Shaped(p.flow) && IsFor(c, p, v) && !SameOutcome(c, c', es, p)
  {
    SettledKey(c, k);
    SettledKey(c, k');
    assert Settled(c', k) && Settled(c', k');
    SettledKey(c', k);
    SettledKey(c', k');
    SliceSame(c, c', v, k, false);
    SliceSame(c, c', v, k, true);
    var b := !Named(c, k, false);
    es, p := Telling(k, b, k', b'), FirstPacket(k, !b);
    assert k != k' && RingAt(c, k, b) < 256;
    hide Process, Run, Settled, FindVip, VipFor, RingAt, SameSlice;
    if RingAt(c, k', b') < 256 {
      StoredAfter(c, k, b, k', b');
      FloodedAfter(c', k, b, k', b');
    } else {
      FloodedAfter(c, k, b, k', b');
      StoredAfter(c', k, b, k', b');
    }
  }

  /** Two rings that agree on the slice of number v cannot be told apart by packets for it, over any run, exactly
      when the families agree on v or both rings know a real for the same keys of the other VIPs. */
  lemma IsolatedIff(c: Config, c': Config, v: nat)
    requires ValidConfig(c) && ValidConfig(c') && SameSlice(c, c', v)
    ensures Isolated(c, c', v) <==> FamiliesAgreeOn(c, v) || NamesAlike(c, c', v)
  {
    if FamiliesAgreeOn(c, v) {
      IsolatedIfAgree(c, c', v);
    } else if NamesAlike(c, c', v) {
      IsolatedIfNamed(c, c', v);
    } else {
      var k :| Settled(c, k) && V4Shaped(k) && NumberOf(c, k) == v
               && !(NumberOf(c, k) < MAX_VIPS
                    && Route(c, FindVip(c.vips, k).value.0, k, false) == Route(c, FindVip(c.vips, k).value.0, k, true));
      SettledKey(c, k);
      var k' :| Settled(c, k') && NumberOf(c, k') != v
                && !((Named(c, k', true) <==> Named(c', k', true))
                     && (V4Shaped(k') ==> (Named(c, k', false) <==> Named(c', k', false))));
      SettledKey(c, k');
      var b' := Named(c, k', true) != Named(c', k', true);
      hide Process, Run, Settled, FindVip, VipFor, RingAt, SameSlice, SameOutcome;
      var es, p := ToldApart(c, c', v, k, k', b');
    }
  }
}
