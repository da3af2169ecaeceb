/** What holds over every run of the load balancer. */
module KatranRuns {
  import opened Packets
  import opened KatranSpec
  import opened Options

  /** Packets arrive, the kernel evicts connection table entries, the control plane changes the ring. */
  datatype Event = Arrive(p: Pkt) | Evict(keys: set<Flow>) | NewRing(ring: seq<nat>)

  datatype World = World(c: Config, s: State)

  ghost predicate ValidWorld(w: World) {
    ValidConfig(w.c) && ValidState(w.s)
  }

  /** An IPv4 flow leaves the upper words of its addresses zero. */
  predicate V4Shaped(f: Flow) {
    && f.src == Words(f.src.w0, 0, 0, 0)
    && f.dst == Words(f.dst.w0, 0, 0, 0)
  }

  predicate ValidEvent(e: Event) {
    && (e.Arrive? && !e.p.isV6 ==> V4Shaped(e.p.flow))
    && (e.NewRing? ==> |e.ring| == CH_RINGS_SIZE)
  }

  function Next(w: World, e: Event): (r: World)
    requires ValidWorld(w) && ValidEvent(e)
    ensures ValidWorld(r)
  {
    match e
    case Arrive(p) => w.(s := Process(w.c, w.s, p).0)
    case Evict(keys) => w.(s := w.s.(lru := w.s.lru - keys))
    case NewRing(ring) => w.(c := w.c.(ring := ring))
  }

  ghost predicate ValidEvents(es: seq<Event>) {
    forall i :: 0 <= i < |es| ==> ValidEvent(es[i])
  }

  function Run(w: World, es: seq<Event>): (r: World)
    requires ValidWorld(w) && ValidEvents(es)
    ensures ValidWorld(r)
  {
    if es == [] then w else Next(Run(w, es[..|es| - 1]), es[|es| - 1])
  }

  // ----- the connection table only remembers what the ring said

  /** Where the ring sends a key, if there is such a real. */
  function Route(c: Config, vip: Vip, k: Flow, isV6: bool): Option<nat>
    requires ValidConfig(c) && vip.num < MAX_VIPS
  {
    var pos := RingPos(c, vip, WriteKey(vip, k), isV6);
    if pos < MAX_REALS then Some(pos) else None
  }

  function Sent(p: Pkt, dst: Option<nat>): Outcome {
    if dst.Some? && p.fits then Outcome(Tx, dst) else Outcome(Drop, None)
  }

  /** A miss is answered by the ring, whatever the state. */
  lemma MissOutcome(c: Config, s: State, vip: Vip, k: Flow, p: Pkt)
    requires ValidConfig(c) && ValidState(s) && vip.num < MAX_VIPS
    ensures AfterMiss(c, s, vip, k, p).1 == Sent(p, Route(c, vip, k, p.isV6))
  {
  }

  /** The VIP of a flow is also the VIP of the key it is stored under. */
  lemma VipOfKey(vips: map<VipKey, Vip>, f: Flow)
    requires FindVip(vips, f).Some?
    ensures var (vip, exact) := FindVip(vips, f).value;
            var w := WriteKey(vip, ReadKey(vip, exact, f));
            && FindVip(vips, w).Some? && FindVip(vips, w).value.0 == vip && WriteKey(vip, w) == w
            && ReadKey(vip, FindVip(vips, w).value.1, w).dport == w.dport
  {
  }

  /** An entry that a packet of family b could have written. */
  ghost predicate Written(c: Config, k: Flow, entry: Entry, b: bool)
    requires ValidConfig(c)
  {
    && FindVip(c.vips, k).Some?
    && var vip := FindVip(c.vips, k).value.0;
       && vip.num < MAX_VIPS && !vip.lruBypass && WriteKey(vip, k) == k
       && Route(c, vip, k, b) == Some(entry.pos)
       && (b || V4Shaped(k))
  }

  ghost predicate FromRing(c: Config, lru: Lru)
    requires ValidConfig(c)
  {
    forall k :: k in lru ==> Written(c, k, lru[k], true) || Written(c, k, lru[k], false)
  }

  lemma NewDstFromRing(c: Config, s: State, vip: Vip, exact: bool, p: Pkt)
    requires ValidConfig(c) && ValidState(s) && FromRing(c, s.lru)
    requires FindVip(c.vips, p.flow) == Some((vip, exact)) && vip.num < MAX_VIPS
    requires p.isV6 || V4Shaped(p.flow)
    ensures FromRing(c, NewDst(c, s, vip, ReadKey(vip, exact, p.flow), p).0.lru)
  {
    var k := ReadKey(vip, exact, p.flow);
    var w := WriteKey(vip, k);
    VipOfKey(c.vips, p.flow);
    var after := NewDst(c, s, vip, k, p).0.lru;
    if after != s.lru {
      assert after == s.lru[w := after[w]];
      assert Written(c, w, after[w], p.isV6);
    }
  }

  lemma LookupFromRing(c: Config, lru: Lru, k: Flow, now: nat)
    requires ValidConfig(c) && FromRing(c, lru)
    ensures FromRing(c, Lookup(lru, k, now).0)
  {
    forall x | x in Lookup(lru, k, now).0
      ensures Written(c, x, Lookup(lru, k, now).0[x], true) || Written(c, x, Lookup(lru, k, now).0[x], false)
    {
      assert Written(c, x, lru[x], true) || Written(c, x, lru[x], false);
    }
  }

  lemma MissFromRing(c: Config, s: State, vip: Vip, exact: bool, p: Pkt)
    requires ValidConfig(c) && ValidState(s) && FromRing(c, s.lru)
    requires FindVip(c.vips, p.flow) == Some((vip, exact)) && vip.num < MAX_VIPS
    requires p.isV6 || V4Shaped(p.flow)
    ensures FromRing(c, AfterMiss(c, s, vip, ReadKey(vip, exact, p.flow), p).0.lru)
  {
    hide FromRing, NewDst;
    var k := ReadKey(vip, exact, p.flow);
    NewDstFromRing(c, s, vip, exact, p);
    if k.proto == IPPROTO_TCP {
      NewDstFromRing(c, if p.syn then Bump(s, LRU_MISS, 1, 0) else Bump(s, LRU_MISS, 0, 1), vip, exact, p);
    }
  }

  lemma BalanceFromRing(c: Config, s: State, vip: Vip, exact: bool, p: Pkt)
    requires ValidConfig(c) && ValidState(s) && FromRing(c, s.lru)
    requires FindVip(c.vips, p.flow) == Some((vip, exact)) && vip.num < MAX_VIPS
    requires p.isV6 || V4Shaped(p.flow)
    ensures FromRing(c, Balance(c, s, vip, ReadKey(vip, exact, p.flow), p).0.lru)
  {
    hide FromRing, AfterMiss, Lookup;
    var k := ReadKey(vip, exact, p.flow);
    var s1 := if c.perCore then s else Bump(s, FALLBACK_LRU, 1, 0);
    LookupFromRing(c, s1.lru, k, p.now);
    MissFromRing(c, s1, vip, exact, p);
    MissFromRing(c, s1.(lru := Lookup(s1.lru, k, p.now).0), vip, exact, p);
  }

  /** Every packet keeps the table a memory of the ring. */
  lemma ProcessFromRing(c: Config, s: State, p: Pkt)
    requires ValidConfig(c) && ValidState(s) && FromRing(c, s.lru)
    requires p.isV6 || V4Shaped(p.flow)
    ensures FromRing(c, Process(c, s, p).0.lru)
  {
    if FindVip(c.vips, p.flow).Some? {
      hide FromRing, Balance;
      var (vip, exact) := FindVip(c.vips, p.flow).value;
      var s1 := Bump(s, LRU_CNTRS, 1, 0);
      BalanceFromRing(c, s1, vip, exact, p);
      BalanceFromRing(c, Unrouted(s1, p.quicIndex), vip, exact, p);
    }
  }

  /** The ring stays as it is. */
  ghost predicate SameRing(es: seq<Event>) {
    ValidEvents(es) && forall i :: 0 <= i < |es| ==> !es[i].NewRing?
  }

  lemma {:induction false} RunFromRing(c: Config, es: seq<Event>)
    requires ValidConfig(c) && SameRing(es)
    ensures var w := Run(World(c, Initial()), es);
            w.c == c && FromRing(c, w.s.lru)
  {
    if es != [] {
      hide FromRing, Process;
      var n := |es| - 1;
      RunFromRing(c, es[..n]);
      var w, e := Run(World(c, Initial()), es[..n]), es[n];
      assert ValidEvent(e) && !e.NewRing?;
      match e
      case Arrive(p) => ProcessFromRing(c, w.s, p);
      case Evict(keys) => EvictFromRing(c, w.s.lru, keys);
    }
  }

  lemma EvictFromRing(c: Config, lru: Lru, keys: set<Flow>)
    requires ValidConfig(c) && FromRing(c, lru)
    ensures FromRing(c, lru - keys)
  {
  }

  // ----- and so does not change where packets go, unless the families disagree

  /** Where a packet goes by its own contents and the ring alone. */
  function Stateless(c: Config, p: Pkt): Outcome
    requires ValidConfig(c)
  {
    match FindVip(c.vips, p.flow)
    case None => Outcome(Pass, None)
    case Some((vip, exact)) =>
      if p.big then Outcome(Drop, None)
      else if p.flow.proto == IPPROTO_UDP && vip.quic && 0 < p.quicIndex < MAX_REALS then
        var pos := c.quicMapping[p.quicIndex];
        Sent(p, if pos < MAX_REALS then Some(pos) else None)
      else Sent(p, Route(c, vip, ReadKey(vip, exact, p.flow), p.isV6))
  }

  ghost predicate Transparent(c: Config, s: State, p: Pkt)
    requires ValidConfig(c) && ValidState(s)
  {
    Process(c, s, p).1 == Stateless(c, p)
  }

  /** A key that both reading and writing leave alone, on a VIP with a connection table. */
  ghost predicate Settled(c: Config, k: Flow) {
    FindVip(c.vips, k).Some?
    && var (vip, exact) := FindVip(c.vips, k).value;
       !vip.lruBypass && ReadKey(vip, exact, k) == k && WriteKey(vip, k) == k
  }

  /** A key that an IPv4 and an IPv6 flow share is sent to the same real for both. */
  ghost predicate FamiliesAgree(c: Config)
    requires ValidConfig(c)
  {
    forall k :: Settled(c, k) && V4Shaped(k) ==>
                  var vip := FindVip(c.vips, k).value.0;
                  vip.num < MAX_VIPS && Route(c, vip, k, false) == Route(c, vip, k, true)
  }

  /** The same for the VIPs with number v. */
  ghost predicate FamiliesAgreeOn(c: Config, v: nat)
    requires ValidConfig(c)
  {
    forall k :: Settled(c, k) && V4Shaped(k) && FindVip(c.vips, k).value.0.num == v ==>
                  var vip := FindVip(c.vips, k).value.0;
                  vip.num < MAX_VIPS && Route(c, vip, k, false) == Route(c, vip, k, true)
  }

  lemma FlowVipValid(c: Config, f: Flow)
    requires ValidConfig(c) && FindVip(c.vips, f).Some?
    ensures FindVip(c.vips, f).value.0.num < MAX_VIPS
  {
  }

  lemma AgreeOnEach(c: Config)
    requires ValidConfig(c) && FamiliesAgree(c)
    ensures forall v :: FamiliesAgreeOn(c, v)
  {
  }

  /** What a hit finds is what the ring would have said. */
  lemma HitAgrees(c: Config, lru: Lru, vip: Vip, exact: bool, p: Pkt)
    requires ValidConfig(c) && FromRing(c, lru) && FamiliesAgreeOn(c, vip.num)
    requires FindVip(c.vips, p.flow) == Some((vip, exact)) && vip.num < MAX_VIPS && !vip.lruBypass
    requires p.isV6 || V4Shaped(p.flow)
    requires ReadKey(vip, exact, p.flow) in lru
    ensures var k := ReadKey(vip, exact, p.flow);
            Some(lru[k].pos) == Route(c, vip, k, p.isV6)
  {
    var k := ReadKey(vip, exact, p.flow);
    assert Written(c, k, lru[k], true) || Written(c, k, lru[k], false);
    assert FindVip(c.vips, k).value.0 == vip by {
      ReadKeyVip(c.vips, p.flow);
    }
    if p.isV6 && Written(c, k, lru[k], true) {
    } else if !p.isV6 && Written(c, k, lru[k], false) {
    } else {
      assert V4Shaped(k) && Settled(c, k) by {
        ReadKeyVip(c.vips, p.flow);
      }
    }
  }

  lemma ReadKeyVip(vips: map<VipKey, Vip>, f: Flow)
    requires FindVip(vips, f).Some?
    ensures var (vip, exact) := FindVip(vips, f).value;
            var k := ReadKey(vip, exact, f);
            && FindVip(vips, k).Some? && FindVip(vips, k).value.0 == vip
            && ReadKey(vip, FindVip(vips, k).value.1, k) == k
  {
  }

  lemma BalanceOutcome(c: Config, s: State, vip: Vip, exact: bool, p: Pkt)
    requires ValidConfig(c) && ValidState(s) && FromRing(c, s.lru) && FamiliesAgreeOn(c, vip.num)
    requires FindVip(c.vips, p.flow) == Some((vip, exact)) && vip.num < MAX_VIPS
    requires p.isV6 || V4Shaped(p.flow)
    ensures var k := ReadKey(vip, exact, p.flow);
            Balance(c, s, vip, k, p).1 == Sent(p, Route(c, vip, k, p.isV6))
  {
    hide AfterMiss, Route, FromRing, FamiliesAgreeOn;
    var k := ReadKey(vip, exact, p.flow);
    var s1 := if c.perCore then s else Bump(s, FALLBACK_LRU, 1, 0);
    MissOutcome(c, s1, vip, k, p);
    MissOutcome(c, s1.(lru := Lookup(s1.lru, k, p.now).0), vip, k, p);
    if !p.syn && !vip.lruBypass && k in s.lru {
      HitAgrees(c, s.lru, vip, exact, p);
    }
  }

  /** What decides the outcome of a packet for a VIP. */
  lemma TransparentFrom(c: Config, s: State, vip: Vip, exact: bool, p: Pkt)
    requires ValidConfig(c) && ValidState(s)
    requires FindVip(c.vips, p.flow) == Some((vip, exact)) && vip.num < MAX_VIPS
    requires var s1, k := Bump(s, LRU_CNTRS, 1, 0), ReadKey(vip, exact, p.flow);
             && Balance(c, s1, vip, k, p).1 == Sent(p, Route(c, vip, k, p.isV6))
             && Balance(c, Unrouted(s1, p.quicIndex), vip, k, p).1 == Sent(p, Route(c, vip, k, p.isV6))
    ensures Transparent(c, s, p)
  {
    hide Balance, Route, ReadKey, Bump, Unrouted;
  }

  lemma TransparentIfAgree(c: Config, s: State, p: Pkt)
    requires ValidConfig(c) && ValidState(s) && FromRing(c, s.lru)
    requires FindVip(c.vips, p.flow).Some? ==> FamiliesAgreeOn(c, FindVip(c.vips, p.flow).value.0.num)
    requires p.isV6 || V4Shaped(p.flow)
    ensures Transparent(c, s, p)
  {
    if FindVip(c.vips, p.flow).Some? {
      var (vip, exact) := FindVip(c.vips, p.flow).value;
      FlowVipValid(c, p.flow);
      hide FromRing, FamiliesAgreeOn, Balance, Route, Process, Stateless;
      var s1 := Bump(s, LRU_CNTRS, 1, 0);
      BalanceOutcome(c, s1, vip, exact, p);
      BalanceOutcome(c, Unrouted(s1, p.quicIndex), vip, exact, p);
      TransparentFrom(c, s, vip, exact, p);
    }
  }

  /** Two packets of one settled key: the first is remembered, the second follows it. */
  function FirstPacket(k: Flow, isV6: bool): Pkt {
    Pkt(isV6, k, false, 0, false, 0, true, 0)
  }

  lemma Remembered(c: Config, k: Flow, b: bool)
    requires ValidConfig(c) && Settled(c, k)
    ensures var vip := FindVip(c.vips, k).value.0;
            vip.num < MAX_VIPS
            && (Route(c, vip, k, b).Some? ==>
                  var lru := Process(c, Initial(), FirstPacket(k, b)).0.lru;
                  k in lru && lru[k] == Entry(Route(c, vip, k, b).value, 0))
  {
    FlowVipValid(c, k);
  }

  lemma Follows(c: Config, s: State, k: Flow, b: bool)
    requires ValidConfig(c) && ValidState(s) && Settled(c, k)
    requires k in s.lru && s.lru[k].pos < MAX_REALS && s.lru[k].atime == 0
    ensures Process(c, s, FirstPacket(k, b)).1 == Outcome(Tx, Some(s.lru[k].pos))
  {
    hide AfterMiss;
    FlowVipValid(c, k);
  }

  /** A key on which the families disagree is a run of one packet after which another goes astray. */
  lemma Astray(c: Config, k: Flow) returns (es: seq<Event>, p: Pkt)
    requires ValidConfig(c) && Settled(c, k) && V4Shaped(k)
    requires var vip := FindVip(c.vips, k).value.0;
             vip.num < MAX_VIPS && Route(c, vip, k, false) != Route(c, vip, k, true)
    ensures SameRing(es) && (p.isV6 || V4Shaped(p.flow))
    ensures !Transparent(c, Run(World(c, Initial()), es).s, p)
  {
    var vip := FindVip(c.vips, k).value.0;
    var b := Route(c, vip, k, false).None?;
    es, p := [Arrive(FirstPacket(k, b))], FirstPacket(k, !b);
    assert es[..0] == [];
    var s := Process(c, Initial(), FirstPacket(k, b)).0;
    assert Run(World(c, Initial()), es).s == s;
    hide Process;
    Remembered(c, k, b);
    Follows(c, s, k, !b);
  }

  /** The connection table is transparent: over every run with one ring, every packet is sent where its
      own contents and the ring say, exactly when no key shared by an IPv4 and an IPv6 flow is
      sent to different reals. */
  lemma LruTransparentIff(c: Config)
    requires ValidConfig(c)
    ensures FamiliesAgree(c)
            <==> forall es: seq<Event>, p: Pkt :: SameRing(es) && (p.isV6 || V4Shaped(p.flow)) ==>
                   Transparent(c, Run(World(c, Initial()), es).s, p)
  {
    if FamiliesAgree(c) {
      forall es: seq<Event>, p: Pkt | SameRing(es) && (p.isV6 || V4Shaped(p.flow))
        ensures Transparent(c, Run(World(c, Initial()), es).s, p)
      {
        RunFromRing(c, es);
        AgreeOnEach(c);
        TransparentIfAgree(c, Run(World(c, Initial()), es).s, p);
      }
    } else {
      var k :| Settled(c, k) && V4Shaped(k)
               && !(var vip := FindVip(c.vips, k).value.0;
                    vip.num < MAX_VIPS && Route(c, vip, k, false) == Route(c, vip, k, true));
      FlowVipValid(c, k);
      var es, p := Astray(c, k);
    }
  }

  // ----- per run, whatever the two families' hashes

  /** The packet would be stored under k. */
  ghost predicate WritesTo(vips: map<VipKey, Vip>, p: Pkt, k: Flow) {
    FindVip(vips, p.flow).Some?
    && var (vip, exact) := FindVip(vips, p.flow).value;
       WriteKey(vip, ReadKey(vip, exact, p.flow)) == k
  }

  /** Every packet of the run that would be stored under k is of family b. */
  ghost predicate OneFamily(vips: map<VipKey, Vip>, es: seq<Event>, k: Flow, b: bool) {
    forall i :: 0 <= i < |es| && es[i].Arrive? && WritesTo(vips, es[i].p, k) ==> es[i].p.isV6 == b
  }

  /** If k is in the table, it is there as a packet of family b was sent. */
  ghost predicate KeyFrom(c: Config, lru: Lru, k: Flow, b: bool)
    requires ValidConfig(c)
  {
    k in lru ==> Written(c, k, lru[k], b)
  }

  lemma NewDstKeyFrom(c: Config, s: State, vip: Vip, exact: bool, p: Pkt, k: Flow, b: bool)
    requires ValidConfig(c) && ValidState(s) && KeyFrom(c, s.lru, k, b)
    requires FindVip(c.vips, p.flow) == Some((vip, exact)) && vip.num < MAX_VIPS
    requires (p.isV6 || V4Shaped(p.flow)) && (WritesTo(c.vips, p, k) ==> p.isV6 == b)
    ensures KeyFrom(c, NewDst(c, s, vip, ReadKey(vip, exact, p.flow), p).0.lru, k, b)
  {
    var w := WriteKey(vip, ReadKey(vip, exact, p.flow));
    VipOfKey(c.vips, p.flow);
    var after := NewDst(c, s, vip, ReadKey(vip, exact, p.flow), p).0.lru;
    if after != s.lru {
      assert after == s.lru[w := after[w]];
      assert Written(c, w, after[w], p.isV6);
    }
  }

  lemma MissKeyFrom(c: Config, s: State, vip: Vip, exact: bool, p: Pkt, k: Flow, b: bool)
    requires ValidConfig(c) && ValidState(s) && KeyFrom(c, s.lru, k, b)
    requires FindVip(c.vips, p.flow) == Some((vip, exact)) && vip.num < MAX_VIPS
    requires (p.isV6 || V4Shaped(p.flow)) && (WritesTo(c.vips, p, k) ==> p.isV6 == b)
    ensures KeyFrom(c, AfterMiss(c, s, vip, ReadKey(vip, exact, p.flow), p).0.lru, k, b)
  {
    hide KeyFrom, NewDst, WritesTo;
    NewDstKeyFrom(c, s, vip, exact, p, k, b);
    NewDstKeyFrom(c, if p.syn then Bump(s, LRU_MISS, 1, 0) else Bump(s, LRU_MISS, 0, 1), vip, exact, p, k, b);
  }

  lemma BalanceKeyFrom(c: Config, s: State, vip: Vip, exact: bool, p: Pkt, k: Flow, b: bool)
    requires ValidConfig(c) && ValidState(s) && KeyFrom(c, s.lru, k, b)
    requires FindVip(c.vips, p.flow) == Some((vip, exact)) && vip.num < MAX_VIPS
    requires (p.isV6 || V4Shaped(p.flow)) && (WritesTo(c.vips, p, k) ==> p.isV6 == b)
    ensures KeyFrom(c, Balance(c, s, vip, ReadKey(vip, exact, p.flow), p).0.lru, k, b)
  {
    hide AfterMiss, Route;
    var key := ReadKey(vip, exact, p.flow);
    var s1 := if c.perCore then s else Bump(s, FALLBACK_LRU, 1, 0);
    MissKeyFrom(c, s1, vip, exact, p, k, b);
    MissKeyFrom(c, s1.(lru := Lookup(s1.lru, key, p.now).0), vip, exact, p, k, b);
  }

  lemma ProcessKeyFrom(c: Config, s: State, p: Pkt, k: Flow, b: bool)
    requires ValidConfig(c) && ValidState(s) && KeyFrom(c, s.lru, k, b)
    requires (p.isV6 || V4Shaped(p.flow)) && (WritesTo(c.vips, p, k) ==> p.isV6 == b)
    ensures KeyFrom(c, Process(c, s, p).0.lru, k, b)
  {
    if FindVip(c.vips, p.flow).Some? {
      hide KeyFrom, Balance, WritesTo;
      var (vip, exact) := FindVip(c.vips, p.flow).value;
      FlowVipValid(c, p.flow);
      var s1 := Bump(s, LRU_CNTRS, 1, 0);
      BalanceKeyFrom(c, s1, vip, exact, p, k, b);
      BalanceKeyFrom(c, Unrouted(s1, p.quicIndex), vip, exact, p, k, b);
    }
  }

  lemma {:induction false} RunKeyFrom(c: Config, es: seq<Event>, k: Flow, b: bool)
    requires ValidConfig(c) && SameRing(es) && OneFamily(c.vips, es, k, b)
    ensures var w := Run(World(c, Initial()), es);
            w.c == c && KeyFrom(c, w.s.lru, k, b)
  {
    if es != [] {
      hide Process, KeyFrom, WritesTo;
      var n := |es| - 1;
      RunKeyFrom(c, es[..n], k, b);
      var w, e := Run(World(c, Initial()), es[..n]), es[n];
      assert ValidEvent(e) && !e.NewRing?;
      match e
      case Arrive(p) => ProcessKeyFrom(c, w.s, p, k, b);
      case Evict(keys) => EvictKeyFrom(c, w.s.lru, keys, k, b);
    }
  }

  lemma EvictKeyFrom(c: Config, lru: Lru, keys: set<Flow>, k: Flow, b: bool)
    requires ValidConfig(c) && KeyFrom(c, lru, k, b)
    ensures KeyFrom(c, lru - keys, k, b)
  {
  }

  lemma FamilyOutcome(c: Config, s: State, vip: Vip, exact: bool, p: Pkt)
    requires ValidConfig(c) && ValidState(s)
    requires FindVip(c.vips, p.flow) == Some((vip, exact)) && vip.num < MAX_VIPS
    requires KeyFrom(c, s.lru, ReadKey(vip, exact, p.flow), p.isV6)
    ensures var k := ReadKey(vip, exact, p.flow);
            Balance(c, s, vip, k, p).1 == Sent(p, Route(c, vip, k, p.isV6))
  {
    hide AfterMiss, Route;
    var k := ReadKey(vip, exact, p.flow);
    ReadKeyVip(c.vips, p.flow);
    var s1 := if c.perCore then s else Bump(s, FALLBACK_LRU, 1, 0);
    MissOutcome(c, s1, vip, k, p);
    MissOutcome(c, s1.(lru := Lookup(s1.lru, k, p.now).0), vip, k, p);
  }

  lemma SameTable(c: Config, s: State, id: int, k: Flow, b: bool)
    requires ValidConfig(c) && ValidState(s) && KeyFrom(c, s.lru, k, b)
    ensures var s1 := Bump(s, LRU_CNTRS, 1, 0);
            KeyFrom(c, s1.lru, k, b) && KeyFrom(c, Unrouted(s1, id).lru, k, b)
  {
    hide KeyFrom;
  }

  /** Whatever the hash and the ring: in every run with one ring, a packet goes where its own contents and
      the ring say if the packets stored under its key so far were all of its own family. In particular
      traffic of one family is never misdirected. */
  lemma TransparentInFamily(c: Config, es: seq<Event>, p: Pkt)
    requires ValidConfig(c) && SameRing(es)
    requires FindVip(c.vips, p.flow).Some? ==>
               var (vip, exact) := FindVip(c.vips, p.flow).value;
               OneFamily(c.vips, es, ReadKey(vip, exact, p.flow), p.isV6)
    ensures Transparent(c, Run(World(c, Initial()), es).s, p)
  {
    if FindVip(c.vips, p.flow).Some? {
      hide Balance, Route, Run, OneFamily, KeyFrom, Process, Stateless, ReadKey;
      var (vip, exact) := FindVip(c.vips, p.flow).value;
      FlowVipValid(c, p.flow);
      RunKeyFrom(c, es, ReadKey(vip, exact, p.flow), p.isV6);
      var s := Run(World(c, Initial()), es).s;
      var s1 := Bump(s, LRU_CNTRS, 1, 0);
      SameTable(c, s, p.quicIndex, ReadKey(vip, exact, p.flow), p.isV6);
      FamilyOutcome(c, s1, vip, exact, p);
      FamilyOutcome(c, Unrouted(s1, p.quicIndex), vip, exact, p);
      TransparentFrom(c, s, vip, exact, p);
    }
  }

  // ----- VIPs that hash by destination port

  /** Every key of the table is one that storing leaves alone. */
  ghost predicate StoredKeys(vips: map<VipKey, Vip>, lru: Lru) {
    forall k :: k in lru ==>
                  FindVip(vips, k).Some?
                  && !FindVip(vips, k).value.0.lruBypass && WriteKey(FindVip(vips, k).value.0, k) == k
  }

  lemma MissStored(c: Config, s: State, vip: Vip, exact: bool, p: Pkt)
    requires ValidConfig(c) && ValidState(s) && StoredKeys(c.vips, s.lru)
    requires FindVip(c.vips, p.flow) == Some((vip, exact)) && vip.num < MAX_VIPS
    ensures StoredKeys(c.vips, AfterMiss(c, s, vip, ReadKey(vip, exact, p.flow), p).0.lru)
  {
    VipOfKey(c.vips, p.flow);
    hide FindVip, RingPos, Rate;
  }

  lemma ProcessStored(c: Config, s: State, p: Pkt)
    requires ValidConfig(c) && ValidState(s) && StoredKeys(c.vips, s.lru)
    ensures StoredKeys(c.vips, Process(c, s, p).0.lru)
  {
    if FindVip(c.vips, p.flow).Some? {
      var (vip, exact) := FindVip(c.vips, p.flow).value;
      FlowVipValid(c, p.flow);
      var s1 := Bump(s, LRU_CNTRS, 1, 0);
      BalanceStored(c, s1, vip, exact, p);
      BalanceStored(c, Unrouted(s1, p.quicIndex), vip, exact, p);
      hide Balance, StoredKeys;
    }
  }

  lemma BalanceStored(c: Config, s: State, vip: Vip, exact: bool, p: Pkt)
    requires ValidConfig(c) && ValidState(s) && StoredKeys(c.vips, s.lru)
    requires FindVip(c.vips, p.flow) == Some((vip, exact)) && vip.num < MAX_VIPS
    ensures StoredKeys(c.vips, Balance(c, s, vip, ReadKey(vip, exact, p.flow), p).0.lru)
  {
    hide AfterMiss;
    var key := ReadKey(vip, exact, p.flow);
    var s1 := if c.perCore then s else Bump(s, FALLBACK_LRU, 1, 0);
    MissStored(c, s1, vip, exact, p);
    MissStored(c, s1.(lru := Lookup(s1.lru, key, p.now).0), vip, exact, p);
  }

  lemma {:induction false} RunStored(c: Config, es: seq<Event>)
    requires ValidConfig(c) && ValidEvents(es)
    ensures var w := Run(World(c, Initial()), es);
            w.c.vips == c.vips && StoredKeys(c.vips, w.s.lru)
  {
    if es != [] {
      hide Process, StoredKeys;
      var n := |es| - 1;
      RunStored(c, es[..n]);
      var w, e := Run(World(c, Initial()), es[..n]), es[n];
      match e
      case Arrive(p) => ProcessStored(w.c, w.s, p);
      case Evict(keys) => EvictStored(c.vips, w.s.lru, keys);
      case NewRing(_) =>
    }
  }

  lemma EvictStored(vips: map<VipKey, Vip>, lru: Lru, keys: set<Flow>)
    requires StoredKeys(vips, lru)
    ensures StoredKeys(vips, lru - keys)
  {
  }

  /** Some run, with whatever changes of the ring, has k in its table. */
  ghost predicate Storable(c: Config, k: Flow)
    requires ValidConfig(c)
  {
    exists es: seq<Event> :: ValidEvents(es) && k in Run(World(c, Initial()), es).s.lru
  }

  /** On a VIP that hashes by destination port, a flow can ever be found in the table exactly when its
      source address is zero and its ports are equal (and the VIP has a table): other flows are stored
      under a key they are not looked up by. */
  lemma DportOnlyFoundIff(c: Config, f: Flow)
    requires ValidConfig(c) && FindVip(c.vips, f).Some? && FindVip(c.vips, f).value.0.dportOnly
    ensures var (vip, exact) := FindVip(c.vips, f).value;
            var k := ReadKey(vip, exact, f);
            Storable(c, k) <==> k.src == ZERO && k.sport == k.dport && !vip.lruBypass
  {
    ReadKeyVip(c.vips, f);
    var (vip, exact) := FindVip(c.vips, f).value;
    var k := ReadKey(vip, exact, f);
    if Storable(c, k) {
      var es: seq<Event> :| ValidEvents(es) && k in Run(World(c, Initial()), es).s.lru;
      RunStored(c, es);
      StoredKey(c.vips, Run(World(c, Initial()), es).s.lru, k);
    }
    if k.src == ZERO && k.sport == k.dport && !vip.lruBypass {
      var es := StoringRun(c, k);
    }
  }

  lemma StoredKey(vips: map<VipKey, Vip>, lru: Lru, k: Flow)
    requires StoredKeys(vips, lru) && k in lru
    ensures FindVip(vips, k).Some?
    ensures !FindVip(vips, k).value.0.lruBypass && WriteKey(FindVip(vips, k).value.0, k) == k
  {
  }

  /** A settled key is stored by a packet of its own once the ring names a real. */
  lemma StoringRun(c: Config, k: Flow) returns (es: seq<Event>)
    requires ValidConfig(c) && Settled(c, k)
    ensures ValidEvents(es) && k in Run(World(c, Initial()), es).s.lru
  {
    var ring := seq(CH_RINGS_SIZE, _ => 0);
    var c' := c.(ring := ring);
    es := [NewRing(ring), Arrive(FirstPacket(k, true))];
    assert es[..1] == [NewRing(ring)] && es[..1][..0] == [];
    assert Run(World(c, Initial()), es[..1]) == World(c', Initial());
    assert Run(World(c, Initial()), es).s == Process(c', Initial(), FirstPacket(k, true)).0;
    hide Process, Run;
    Remembered(c', k, true);
  }

  // ----- established connections stay where they are

  /** The packet is looked up under k. */
  ghost predicate Reads(vips: map<VipKey, Vip>, p: Pkt, k: Flow) {
    FindVip(vips, p.flow).Some?
    && var (vip, exact) := FindVip(vips, p.flow).value;
       !vip.lruBypass && !p.syn && !p.big && ReadKey(vip, exact, p.flow) == k
  }

  /** The event neither evicts k nor stores a new destination under it: no SYN of this flow, and no
      other flow hashed to this key. */
  ghost predicate Spares(vips: map<VipKey, Vip>, e: Event, k: Flow) {
    && (e.Evict? ==> k !in e.keys)
    && (e.Arrive? && FindVip(vips, e.p.flow).Some? ==>
          var (vip, exact) := FindVip(vips, e.p.flow).value;
          !vip.lruBypass && WriteKey(vip, ReadKey(vip, exact, e.p.flow)) == k ==>
            ReadKey(vip, exact, e.p.flow) == k && !e.p.syn)
  }

  ghost predicate Established(lru: Lru, k: Flow, pos: nat) {
    k in lru && lru[k].pos == pos < MAX_REALS && k.proto == IPPROTO_TCP
  }

  lemma MissSpares(c: Config, s: State, vip: Vip, key: Flow, p: Pkt, k: Flow, pos: nat)
    requires ValidConfig(c) && ValidState(s) && vip.num < MAX_VIPS
    requires Established(s.lru, k, pos) && (vip.lruBypass || WriteKey(vip, key) != k)
    ensures Established(AfterMiss(c, s, vip, key, p).0.lru, k, pos)
  {
  }

  lemma BalanceSpares(c: Config, s: State, vip: Vip, key: Flow, p: Pkt, k: Flow, pos: nat)
    requires ValidConfig(c) && ValidState(s) && vip.num < MAX_VIPS && Established(s.lru, k, pos)
    requires vip.lruBypass || WriteKey(vip, key) != k || (key == k && !p.syn)
    ensures var r := Balance(c, s, vip, key, p);
            Established(r.0.lru, k, pos) && (key == k && !p.syn && !vip.lruBypass ==> r.1 == Sent(p, Some(pos)))
  {
    hide AfterMiss;
    var s1 := if c.perCore then s else Bump(s, FALLBACK_LRU, 1, 0);
    if vip.lruBypass || WriteKey(vip, key) != k {
      MissSpares(c, s1, vip, key, p, k, pos);
      MissSpares(c, s1.(lru := Lookup(s1.lru, key, p.now).0), vip, key, p, k, pos);
    }
  }

  lemma ProcessSpares(c: Config, s: State, p: Pkt, k: Flow, pos: nat)
    requires ValidConfig(c) && ValidState(s) && Established(s.lru, k, pos) && Spares(c.vips, Arrive(p), k)
    ensures Established(Process(c, s, p).0.lru, k, pos)
    ensures Reads(c.vips, p, k) ==> Process(c, s, p).1 == Sent(p, Some(pos))
  {
    if FindVip(c.vips, p.flow).Some? {
      hide Balance;
      FlowVipValid(c, p.flow);
      var (vip, exact) := FindVip(c.vips, p.flow).value;
      var s1, key := Bump(s, LRU_CNTRS, 1, 0), ReadKey(vip, exact, p.flow);
      BalanceSpares(c, s1, vip, key, p, k, pos);
      BalanceSpares(c, Unrouted(s1, p.quicIndex), vip, key, p, k, pos);
    }
  }

  ghost predicate AllSpare(vips: map<VipKey, Vip>, es: seq<Event>, k: Flow) {
    ValidEvents(es) && forall i :: 0 <= i < |es| ==> Spares(vips, es[i], k)
  }

  lemma {:induction false} StaysEstablished(w: World, es: seq<Event>, k: Flow, pos: nat)
    requires ValidWorld(w) && AllSpare(w.c.vips, es, k) && Established(w.s.lru, k, pos)
    ensures var r := Run(w, es);
            r.c.vips == w.c.vips && Established(r.s.lru, k, pos)
  {
    if es != [] {
      hide Process;
      var n := |es| - 1;
      StaysEstablished(w, es[..n], k, pos);
      var before, e := Run(w, es[..n]), es[n];
      assert Spares(w.c.vips, e, k);
      if e.Arrive? {
        ProcessSpares(before.c, before.s, e.p, k, pos);
      }
    }
  }

  /** Session affinity: from the moment a TCP connection is in the table, whatever other packets arrive and
      however often the ring changes, every later packet of the connection goes to the same real,
      until the entry is evicted or a SYN replaces it. */
  lemma SessionAffinity(w: World, es: seq<Event>, k: Flow, pos: nat, i: nat)
    requires ValidWorld(w) && AllSpare(w.c.vips, es, k) && Established(w.s.lru, k, pos)
    requires i < |es| && es[i].Arrive? && Reads(w.c.vips, es[i].p, k)
    ensures var before := Run(w, es[..i]);
            Process(before.c, before.s, es[i].p).1 == Sent(es[i].p, Some(pos))
  {
    hide Process, Run;
    StaysEstablished(w, es[..i], k, pos);
    var before := Run(w, es[..i]);
    assert Spares(w.c.vips, es[i], k);
    ProcessSpares(before.c, before.s, es[i].p, k, pos);
  }
}
