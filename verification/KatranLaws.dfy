/** One packet through the load balancer, said flatly: by which way it is sent, and what follows from that for
    its outcome, the connection table and every counter. Nothing here refers to the steps of the program. */
module KatranLaws {
  import opened Packets
  import opened KatranSpec
  import opened KatranRuns
  import opened Options

  /** How a packet finds its real: there is no VIP, it is too big, or the given position of the table of
      reals is taken from its QUIC id, from the connection table or from the ring. */
  datatype Way = NoVip | TooBig | ByQuic(pos: nat) | ByTable(pos: nat) | ByRing(pos: nat)

  /** The VIP with the packet's port, or else the one for all ports. */
  function VipFor(c: Config, f: Flow): Option<Vip> {
    var exact, any := VipKey(f.dst, f.dport, f.proto), VipKey(f.dst, 0, f.proto);
    if exact in c.vips then Some(c.vips[exact]) else if any in c.vips then Some(c.vips[any]) else None
  }

  /** The flow as the connection table knows it: the destination port counts if the VIP has one or hashes by
      it, the source port unless the VIP ignores it. */
  function TableKey(c: Config, vip: Vip, f: Flow): Flow {
    var portCounts := VipKey(f.dst, f.dport, f.proto) in c.vips || vip.dportOnly;
    Flow(f.src, f.dst, if vip.noSrcPort then 0 else f.sport, if portCounts then f.dport else 0, f.proto)
  }

  /** What is hashed, and stored under: of a VIP that hashes by destination port, nothing else. */
  function HashKey(vip: Vip, k: Flow): Flow {
    if vip.dportOnly then Flow(Words(0, 0, 0, 0), k.dst, k.dport, k.dport, k.proto) else k
  }

  /** An entry is good for a UDP packet for 30 seconds, for a TCP packet for ever. */
  predicate Fresh(entry: Entry, proto: Transport, now: nat) {
    proto == 6 || (now - entry.atime) % 0x1_0000_0000_0000_0000 <= 30_000_000_000
  }

  function WayOf(c: Config, s: State, p: Pkt): Way
    requires ValidConfig(c)
  {
    match VipFor(c, p.flow)
    case None => NoVip
    case Some(vip) =>
      var k := TableKey(c, vip, p.flow);
      if p.big then TooBig
      else if p.flow.proto == 17 && vip.quic && 0 < p.quicIndex < 256 then ByQuic(c.quicMapping[p.quicIndex])
      else if !p.syn && !vip.lruBypass && k in s.lru && s.lru[k].pos < 256 && Fresh(s.lru[k], k.proto, p.now)
      then ByTable(s.lru[k].pos)
      else ByRing(c.ring[127 * vip.num + c.hash(HashKey(vip, k), p.isV6) % 127])
  }

  lemma VipForIs(c: Config, f: Flow)
    ensures VipFor(c, f).Some? <==> FindVip(c.vips, f).Some?
    ensures VipFor(c, f).Some? ==>
              var (vip, exact) := FindVip(c.vips, f).value;
              && VipFor(c, f).value == vip && TableKey(c, vip, f) == ReadKey(vip, exact, f)
              && HashKey(vip, ReadKey(vip, exact, f)) == WriteKey(vip, ReadKey(vip, exact, f))
  {
  }

  /** An entry under k is there, names a real and is good for the packet. */
  predicate Follows(s: State, vip: Vip, k: Flow, p: Pkt) {
    !p.syn && !vip.lruBypass && k in s.lru && s.lru[k].pos < 256 && Fresh(s.lru[k], k.proto, p.now)
  }

  /** The packet is for the VIP and not too big; k is its key. */
  ghost predicate Accepts(c: Config, p: Pkt, vip: Vip, k: Flow) {
    && VipFor(c, p.flow) == Some(vip) && vip.num < MAX_VIPS && !p.big
    && TableKey(c, vip, p.flow) == k && k.proto == p.flow.proto && HashKey(vip, k) == WriteKey(vip, k)
  }

  lemma AcceptsIs(c: Config, p: Pkt)
    requires ValidConfig(c) && FindVip(c.vips, p.flow).Some? && !p.big
    ensures var (vip, exact) := FindVip(c.vips, p.flow).value; Accepts(c, p, vip, ReadKey(vip, exact, p.flow))
  {
    VipForIs(c, p.flow);
    FlowVipValid(c, p.flow);
  }

  /** The way of a packet, by its VIP and key. */
  lemma WayIs(c: Config, s: State, p: Pkt, vip: Vip, k: Flow)
    requires ValidConfig(c) && Accepts(c, p, vip, k)
    ensures WayOf(c, s, p)
            == if p.flow.proto == 17 && vip.quic && 0 < p.quicIndex < 256 then ByQuic(c.quicMapping[p.quicIndex])
               else if Follows(s, vip, k, p) then ByTable(s.lru[k].pos)
               else ByRing(c.ring[127 * vip.num + c.hash(WriteKey(vip, k), p.isV6) % 127])
  {
    hide VipFor, TableKey, HashKey, WriteKey, Fresh;
  }

  // ----- where it goes

  function Towards(p: Pkt, pos: nat): Outcome {
    if pos < 256 && p.fits then Outcome(Tx, Some(pos)) else Outcome(Drop, None)
  }

  function OutcomeOf(way: Way, p: Pkt): Outcome {
    match way
    case NoVip => Outcome(Pass, None)
    case TooBig => Outcome(Drop, None)
    case _ => Towards(p, way.pos)
  }

  lemma MissGoes(c: Config, s: State, vip: Vip, k: Flow, p: Pkt)
    requires ValidConfig(c) && ValidState(s) && vip.num < MAX_VIPS
    ensures AfterMiss(c, s, vip, k, p).1 == Towards(p, c.ring[127 * vip.num + c.hash(WriteKey(vip, k), p.isV6) % 127])
  {
    hide WriteKey;
  }

  lemma BalanceGoes(c: Config, s: State, vip: Vip, k: Flow, p: Pkt)
    requires ValidConfig(c) && ValidState(s) && vip.num < MAX_VIPS
    ensures Balance(c, s, vip, k, p).1
            == if Follows(s, vip, k, p) then Towards(p, s.lru[k].pos)
               else Towards(p, c.ring[127 * vip.num + c.hash(WriteKey(vip, k), p.isV6) % 127])
  {
    hide AfterMiss, WriteKey;
    var s1 := if c.perCore then s else Bump(s, FALLBACK_LRU, 1, 0);
    MissGoes(c, s1, vip, k, p);
    MissGoes(c, s1.(lru := Lookup(s1.lru, k, p.now).0), vip, k, p);
  }

  /** Where every packet goes, from every state. */
  lemma PacketGoes(c: Config, s: State, p: Pkt)
    requires ValidConfig(c) && ValidState(s)
    ensures Process(c, s, p).1 == OutcomeOf(WayOf(c, s, p), p)
  {
    VipForIs(c, p.flow);
    if FindVip(c.vips, p.flow).Some? && !p.big {
      var (vip, exact) := FindVip(c.vips, p.flow).value;
      var s1, k := Bump(s, LRU_CNTRS, 1, 0), ReadKey(vip, exact, p.flow);
      AcceptsIs(c, p);
      WayIs(c, s, p, vip, k);
      hide Balance, FindVip, ReadKey, WriteKey, Fresh, WayOf, VipFor, TableKey, HashKey;
      if p.flow.proto != IPPROTO_UDP || !vip.quic {
        BalanceGoes(c, s1, vip, k, p);
      } else if !(0 < p.quicIndex < MAX_REALS) {
        BalanceGoes(c, Unrouted(s1, p.quicIndex), vip, k, p);
      }
    }
  }

  /** A packet whose flow is not in the connection table, for a VIP with number v and hashed to residue j, is
      sent to the real at position 127 v + j of the ring. */
  lemma NewFlowGoes(c: Config, s: State, p: Pkt, vip: Vip, j: nat)
    requires ValidConfig(c) && ValidState(s) && VipFor(c, p.flow) == Some(vip) && !p.big && p.fits
    requires p.flow.proto == 6 && TableKey(c, vip, p.flow) !in s.lru
    requires j == c.hash(HashKey(vip, TableKey(c, vip, p.flow)), p.isV6) % 127
    ensures vip.num < 32
    ensures c.ring[127 * vip.num + j] < 256 ==>
              Process(c, s, p).1 == Outcome(Tx, Some(c.ring[127 * vip.num + j]))
    ensures c.ring[127 * vip.num + j] >= 256 ==> Process(c, s, p).1 == Outcome(Drop, None)
  {
    hide Process;
    PacketGoes(c, s, p);
  }

  // ----- what the connection table learns

  /** The new connections counted in the current second, and since when. */
  function LimiterAfter(slot: Stat, now: nat): Stat {
    if (now - slot.v2) % 0x1_0000_0000_0000_0000 > 1_000_000_000 then Stat(1, now) else Stat(slot.v1 + 1, slot.v2)
  }

  /** Up to 125000 new connections a second are stored. */
  predicate Admits(slot: Stat, now: nat) {
    (now - slot.v2) % 0x1_0000_0000_0000_0000 > 1_000_000_000 || slot.v1 < 125000
  }

  ghost predicate AllNamed(lru: Lru) {
    forall k :: k in lru ==> lru[k].pos < 256
  }

  function TableOf(c: Config, s: State, p: Pkt): Lru
    requires ValidConfig(c) && ValidState(s)
  {
    match VipFor(c, p.flow)
    case None => s.lru
    case Some(vip) =>
      var k := TableKey(c, vip, p.flow);
      match WayOf(c, s, p)
      case ByTable(pos) => if k.proto == 17 then s.lru[k := Entry(pos, p.now)] else s.lru
      case ByRing(pos) =>
        if pos < 256 && !vip.lruBypass && Admits(s.stats[34], p.now)
        then s.lru[HashKey(vip, k) := Entry(pos, if k.proto == 17 then p.now else 0)] else s.lru
      case _ => s.lru
  }

  lemma MissStores(c: Config, s: State, vip: Vip, k: Flow, p: Pkt)
    requires ValidConfig(c) && ValidState(s) && vip.num < MAX_VIPS
    ensures var pos := c.ring[127 * vip.num + c.hash(WriteKey(vip, k), p.isV6) % 127];
            AfterMiss(c, s, vip, k, p).0.lru
            == if pos < 256 && !vip.lruBypass && Admits(s.stats[34], p.now)
               then s.lru[WriteKey(vip, k) := Entry(pos, if k.proto == 17 then p.now else 0)] else s.lru
  {
    hide WriteKey;
  }

  lemma BalanceStores(c: Config, s: State, vip: Vip, k: Flow, p: Pkt)
    requires ValidConfig(c) && ValidState(s) && vip.num < MAX_VIPS && AllNamed(s.lru)
    ensures var pos := c.ring[127 * vip.num + c.hash(WriteKey(vip, k), p.isV6) % 127];
            Balance(c, s, vip, k, p).0.lru
            == if Follows(s, vip, k, p)
               then (if k.proto == 17 then s.lru[k := Entry(s.lru[k].pos, p.now)] else s.lru)
               else if pos < 256 && !vip.lruBypass && Admits(s.stats[34], p.now)
               then s.lru[WriteKey(vip, k) := Entry(pos, if k.proto == 17 then p.now else 0)] else s.lru
  {
    hide AfterMiss, WriteKey, Admits;
    var s1 := if c.perCore then s else Bump(s, FALLBACK_LRU, 1, 0);
    MissStores(c, s1, vip, k, p);
    MissStores(c, s1.(lru := Lookup(s1.lru, k, p.now).0), vip, k, p);
  }

  /** The same connection table and limiter. */
  ghost predicate SameTable(s: State, r: State)
    requires ValidState(s) && ValidState(r)
  {
    r.lru == s.lru && r.stats[34] == s.stats[34]
  }

  lemma BumpKeeps(s: State, slot: nat, a: nat, b: nat)
    requires ValidState(s) && slot < STATS_MAP_SIZE && slot != 34
    ensures SameTable(s, Bump(s, slot, a, b))
  {
  }

  lemma VersionKeeps(s: State, id: int)
    requires ValidState(s)
    ensures SameTable(s, CountVersion(s, id))
  {
  }

  lemma UnroutedKeeps(s: State, id: int)
    requires ValidState(s)
    ensures SameTable(s, Unrouted(s, id))
  {
    hide CountVersion;
    VersionKeeps(s, id);
  }

  lemma RoutedKeeps(s: State, id: int, pos: nat)
    requires ValidState(s)
    ensures SameTable(s, Routed(s, id, pos))
  {
    hide CountVersion;
    VersionKeeps(s, id);
  }

  lemma FinishKeeps(s: State, vip: Vip, p: Pkt, pos: nat)
    requires ValidState(s) && vip.num < MAX_VIPS && pos < MAX_REALS
    ensures SameTable(s, Finish(s, vip, p, pos).0)
  {
  }

  lemma TableStaysNamed(c: Config, s: State, p: Pkt)
    requires ValidConfig(c) && ValidState(s) && AllNamed(s.lru)
    ensures AllNamed(TableOf(c, s, p))
  {
    hide TableKey, HashKey, Admits, Fresh;
  }

  /** The connection table after every packet: a packet that follows an entry refreshes it if it is UDP, a
      packet sent by the ring stores one if the limiter admits it, every other leaves it alone. */
  lemma PacketStores(c: Config, s: State, p: Pkt)
    requires ValidConfig(c) && ValidState(s) && AllNamed(s.lru)
    ensures Process(c, s, p).0.lru == TableOf(c, s, p)
  {
    VipForIs(c, p.flow);
    if FindVip(c.vips, p.flow).Some? && !p.big {
      var (vip, exact) := FindVip(c.vips, p.flow).value;
      var s1, k := Bump(s, LRU_CNTRS, 1, 0), ReadKey(vip, exact, p.flow);
      AcceptsIs(c, p);
      WayIs(c, s, p, vip, k);
      hide Balance, FindVip, VipFor, TableKey, ReadKey, HashKey, WriteKey, Fresh, Admits, WayOf;
      hide Unrouted, Routed, Bump, Finish, AllNamed;
      BumpKeeps(s, LRU_CNTRS, 1, 0);
      if p.flow.proto != IPPROTO_UDP || !vip.quic {
        BalanceStores(c, s1, vip, k, p);
      } else if !(0 < p.quicIndex < MAX_REALS) {
        UnroutedKeeps(s1, p.quicIndex);
        BalanceStores(c, Unrouted(s1, p.quicIndex), vip, k, p);
      } else {
        var pos := c.quicMapping[p.quicIndex];
        RoutedKeeps(s1, p.quicIndex, pos);
        if pos < MAX_REALS {
          FinishKeeps(Routed(s1, p.quicIndex, pos), vip, p, pos);
        }
      }
    }
  }

  lemma {:induction false} RunNamed(c: Config, es: seq<Event>)
    requires ValidConfig(c) && ValidEvents(es)
    ensures AllNamed(Run(World(c, Initial()), es).s.lru)
  {
    if es != [] {
      var n := |es| - 1;
      RunNamed(c, es[..n]);
      var w, e := Run(World(c, Initial()), es[..n]), es[n];
      if e.Arrive? {
        hide Process, TableOf;
        PacketStores(w.c, w.s, e.p);
        TableStaysNamed(w.c, w.s, e.p);
      }
    }
  }

  // ----- what is counted

  /** What a packet adds to counter slot i other than the limiter's: packets and bytes of its VIP; packets and
      packets sent by the ring; TCP packets that missed, SYNs apart; packets for the shared table; QUIC
      packets without and with a real of their own; their ids' versions; ids without a real, and of real 0. */
  function Counted(c: Config, s: State, p: Pkt, i: nat): (nat, nat)
    requires ValidConfig(c)
  {
    var way := WayOf(c, s, p);
    if way.NoVip? || way.TooBig? then (0, 0)
    else
      var vip := VipFor(c, p.flow).value;
      var quic := p.flow.proto == 17 && vip.quic;
      if i < 32 then if i == vip.num && way.pos < 256 && p.fits then (1, p.bytes) else (0, 0)
      else if i == 32 then (1, if way.ByRing? && way.pos < 256 then 1 else 0)
      else if i == 33 then
        if way.ByRing? && p.flow.proto == 6 then (if p.syn then (1, 0) else (0, 1)) else (0, 0)
      else if i == 35 then (if !way.ByQuic? && !c.perCore then 1 else 0, 0)
      else if i == 39 then
        if !quic then (0, 0) else if !way.ByQuic? then (1, 0) else (0, if way.pos < 256 then 1 else 0)
      else if i == 40 then
        if !quic || p.quicIndex <= 0 then (0, 0) else if p.quicIndex > 65535 then (0, 1) else (1, 0)
      else if i == 41 then
        if way.ByQuic? then (if way.pos >= 256 then 1 else 0, if way.pos == 0 then 1 else 0) else (0, 0)
      else (0, 0)
  }

  function Moved(s: State, i: nat, d: (nat, nat)): Stat
    requires ValidState(s) && i < 64
  {
    Stat(s.stats[i].v1 + d.0, s.stats[i].v2 + d.1)
  }

  /** What the reals' counters become. */
  function RealsAfter(s: State, out: Outcome, bytes: nat): seq<Stat>
    requires ValidState(s)
  {
    if out.dst.Some? && out.dst.value < 256
    then s.realStats[out.dst.value := Stat(s.realStats[out.dst.value].v1 + 1, s.realStats[out.dst.value].v2 + bytes)]
    else s.realStats
  }

  lemma FinishCounts(s: State, vip: Vip, p: Pkt, pos: nat, i: nat)
    requires ValidState(s) && vip.num < MAX_VIPS && pos < MAX_REALS && i < 64
    ensures var (r, out) := Finish(s, vip, p, pos);
            && r.stats[i] == Moved(s, i, if i == vip.num && p.fits then (1, p.bytes) else (0, 0))
            && r.realStats == RealsAfter(s, out, p.bytes)
  {
  }

  function MissDelta(vip: Vip, k: Flow, p: Pkt, pos: nat, i: nat): (nat, nat) {
    if i == vip.num && pos < 256 && p.fits then (1, p.bytes)
    else if i == 32 then (0, if pos < 256 then 1 else 0)
    else if i == 33 && k.proto == 6 then (if p.syn then (1, 0) else (0, 1))
    else (0, 0)
  }

  lemma NewDstCounts(c: Config, s: State, vip: Vip, k: Flow, p: Pkt, i: nat)
    requires ValidConfig(c) && ValidState(s) && vip.num < MAX_VIPS && i < 64
    ensures var pos := c.ring[127 * vip.num + c.hash(WriteKey(vip, k), p.isV6) % 127];
            var (r, dst) := NewDst(c, s, vip, k, p);
            && dst == (if pos < 256 then Some(pos) else None) && r.realStats == s.realStats
            && (i != 34 ==> r.stats[i] == s.stats[i]) && r.stats[34] == LimiterAfter(s.stats[34], p.now)
  {
    hide WriteKey;
  }

  lemma MissCounts(c: Config, s: State, vip: Vip, k: Flow, p: Pkt, i: nat)
    requires ValidConfig(c) && ValidState(s) && vip.num < MAX_VIPS && i < 64
    ensures var pos := c.ring[127 * vip.num + c.hash(WriteKey(vip, k), p.isV6) % 127];
            var (r, out) := AfterMiss(c, s, vip, k, p);
            && (i != 34 ==> r.stats[i] == Moved(s, i, MissDelta(vip, k, p, pos, i)))
            && r.stats[34] == LimiterAfter(s.stats[34], p.now)
            && r.realStats == RealsAfter(s, out, p.bytes)
  {
    hide WriteKey, NewDst, Finish, LimiterAfter;
    var s1 := if k.proto != IPPROTO_TCP then s else if p.syn then Bump(s, LRU_MISS, 1, 0) else Bump(s, LRU_MISS, 0, 1);
    NewDstCounts(c, s1, vip, k, p, i);
    var (s2, dst) := NewDst(c, s1, vip, k, p);
    if dst.Some? {
      FinishCounts(Bump(s2, LRU_CNTRS, 0, 1), vip, p, dst.value, i);
      FinishCounts(Bump(s2, LRU_CNTRS, 0, 1), vip, p, dst.value, 34);
    }
  }

  function BalanceDelta(c: Config, s: State, vip: Vip, k: Flow, p: Pkt, i: nat): (nat, nat)
    requires ValidConfig(c) && vip.num < MAX_VIPS
  {
    if i == 35 then (if c.perCore then 0 else 1, 0)
    else if Follows(s, vip, k, p) then (if i == vip.num && p.fits then (1, p.bytes) else (0, 0))
    else MissDelta(vip, k, p, c.ring[127 * vip.num + c.hash(WriteKey(vip, k), p.isV6) % 127], i)
  }

  lemma BalanceCounts(c: Config, s: State, vip: Vip, k: Flow, p: Pkt, i: nat)
    requires ValidConfig(c) && ValidState(s) && vip.num < MAX_VIPS && i < 64
    ensures var (r, out) := Balance(c, s, vip, k, p);
            && (i != 34 ==> r.stats[i] == Moved(s, i, BalanceDelta(c, s, vip, k, p, i)))
            && r.stats[34] == (if Follows(s, vip, k, p) then s.stats[34] else LimiterAfter(s.stats[34], p.now))
            && r.realStats == RealsAfter(s, out, p.bytes)
  {
    hide AfterMiss, WriteKey, LimiterAfter, Finish, MissDelta;
    var s1 := if c.perCore then s else Bump(s, FALLBACK_LRU, 1, 0);
    var s2 := s1.(lru := Lookup(s1.lru, k, p.now).0);
    assert MissDelta(vip, k, p, c.ring[127 * vip.num + c.hash(WriteKey(vip, k), p.isV6) % 127], 35) == (0, 0) by {
      NoFallback(vip, k, p, c.ring[127 * vip.num + c.hash(WriteKey(vip, k), p.isV6) % 127]);
    }
    if Follows(s, vip, k, p) {
      FinishCounts(s2, vip, p, s.lru[k].pos, i);
      FinishCounts(s2, vip, p, s.lru[k].pos, 34);
    } else if p.syn || vip.lruBypass {
      MissCounts(c, s1, vip, k, p, i);
    } else {
      MissCounts(c, s2, vip, k, p, i);
    }
  }

  lemma NoFallback(vip: Vip, k: Flow, p: Pkt, pos: nat)
    requires vip.num < MAX_VIPS
    ensures MissDelta(vip, k, p, pos, 35) == (0, 0)
  {
  }

  /** The version of a QUIC id. */
  function VersionDelta(id: int, i: nat): (nat, nat) {
    if i != 40 || id <= 0 then (0, 0) else if id > 65535 then (0, 1) else (1, 0)
  }

  lemma UnroutedCounts(s: State, id: int, i: nat)
    requires ValidState(s) && i < 64
    ensures var r := Unrouted(s, id);
            && r.stats[i] == Moved(s, i, if i == 39 then (1, 0) else VersionDelta(id, i))
            && r.realStats == s.realStats
  {
  }

  lemma RoutedCounts(s: State, id: int, pos: nat, i: nat)
    requires ValidState(s) && i < 64
    ensures var r := Routed(s, id, pos);
            && r.realStats == s.realStats
            && r.stats[i] == Moved(s, i, if i == 39 then (0, if pos < 256 then 1 else 0)
                                         else if i == 41 then (if pos >= 256 then 1 else 0, if pos == 0 then 1 else 0)
                                         else VersionDelta(id, i))
  {
    hide CountVersion;
    VersionCounts(s, id, i);
  }

  lemma VersionCounts(s: State, id: int, i: nat)
    requires ValidState(s) && i < 64
    ensures CountVersion(s, id).stats[i] == Moved(s, i, VersionDelta(id, i))
    ensures CountVersion(s, id).realStats == s.realStats
  {
  }

  lemma AcceptedCounts(s: State, i: nat)
    requires ValidState(s) && i < 64
    ensures var r := Bump(s, LRU_CNTRS, 1, 0);
            r.stats[i] == Moved(s, i, if i == 32 then (1, 0) else (0, 0)) && r.realStats == s.realStats
  {
  }

  lemma BalancedCounts(c: Config, s: State, p: Pkt, vip: Vip, k: Flow, i: nat)
    requires ValidConfig(c) && ValidState(s) && i < 64 && Accepts(c, p, vip, k)
    requires !(p.flow.proto == 17 && vip.quic && 0 < p.quicIndex < 256)
    ensures var before := Bump(s, LRU_CNTRS, 1, 0);
            var s1 := if p.flow.proto == 17 && vip.quic then Unrouted(before, p.quicIndex) else before;
            var (r, out) := Balance(c, s1, vip, k, p);
            && (i != 34 ==> r.stats[i] == Moved(s, i, Counted(c, s, p, i)))
            && r.stats[34] == (if WayOf(c, s, p).ByRing? then LimiterAfter(s.stats[34], p.now) else s.stats[34])
            && r.realStats == RealsAfter(s, out, p.bytes)
  {
    hide Balance, VipFor, TableKey, HashKey, WriteKey, Fresh, LimiterAfter, Unrouted, Bump;
    var before := Bump(s, LRU_CNTRS, 1, 0);
    AcceptedCounts(s, i);
    BumpKeeps(s, LRU_CNTRS, 1, 0);
    if p.flow.proto == 17 && vip.quic {
      UnroutedCounts(before, p.quicIndex, i);
      UnroutedKeeps(before, p.quicIndex);
      BalanceCounts(c, Unrouted(before, p.quicIndex), vip, k, p, i);
    } else {
      BalanceCounts(c, before, vip, k, p, i);
    }
  }

  lemma QuicCounts(c: Config, s: State, p: Pkt, vip: Vip, k: Flow, i: nat)
    requires ValidConfig(c) && ValidState(s) && i < 64 && Accepts(c, p, vip, k)
    requires p.flow.proto == 17 && vip.quic && 0 < p.quicIndex < 256
    ensures var pos := c.quicMapping[p.quicIndex];
            var s2 := Routed(Bump(s, LRU_CNTRS, 1, 0), p.quicIndex, pos);
            var (r, out) := if pos < MAX_REALS then Finish(s2, vip, p, pos) else (s2, Outcome(Drop, None));
            && r.stats[i] == Moved(s, i, if i == 34 then (0, 0) else Counted(c, s, p, i))
            && r.realStats == RealsAfter(s, out, p.bytes)
  {
    hide VipFor, TableKey, HashKey, WriteKey, Fresh, Routed, Bump, Finish;
    var pos, before := c.quicMapping[p.quicIndex], Bump(s, LRU_CNTRS, 1, 0);
    AcceptedCounts(s, i);
    RoutedCounts(before, p.quicIndex, pos, i);
    if pos < MAX_REALS {
      FinishCounts(Routed(before, p.quicIndex, pos), vip, p, pos, i);
    }
  }

  /** Every counter after every packet. */
  lemma PacketCounts(c: Config, s: State, p: Pkt, i: nat)
    requires ValidConfig(c) && ValidState(s) && i < 64
    ensures var (r, out) := Process(c, s, p);
            && (i != 34 ==> r.stats[i] == Moved(s, i, Counted(c, s, p, i)))
            && r.stats[34] == (if WayOf(c, s, p).ByRing? then LimiterAfter(s.stats[34], p.now) else s.stats[34])
            && r.realStats == RealsAfter(s, out, p.bytes)
  {
    VipForIs(c, p.flow);
    if FindVip(c.vips, p.flow).Some? && !p.big {
      var (vip, exact) := FindVip(c.vips, p.flow).value;
      var k := ReadKey(vip, exact, p.flow);
      AcceptsIs(c, p);
      if p.flow.proto == 17 && vip.quic && 0 < p.quicIndex < 256 {
        assert WayOf(c, s, p).ByQuic?;
        QuicCounts(c, s, p, vip, k, i);
        QuicCounts(c, s, p, vip, k, 34);
      } else {
        BalancedCounts(c, s, p, vip, k, i);
      }
      hide Balance, FindVip, ReadKey, Finish, LimiterAfter, Routed, Unrouted, Bump, Counted, WayOf, Accepts;
    } else {
      hide Balance, Finish, LimiterAfter;
    }
  }

  // ----- source ports and timeouts

  /** A VIP that ignores source ports treats packets that differ in nothing else alike, from every state: the
      same real, the same table, the same counters. */
  lemma SourcePortIgnored(c: Config, s: State, p: Pkt, q: Pkt)
    requires ValidConfig(c) && ValidState(s)
    requires q == p.(flow := p.flow.(sport := q.flow.sport))
    requires VipFor(c, p.flow).Some? && VipFor(c, p.flow).value.noSrcPort
    ensures Process(c, s, p) == Process(c, s, q)
  {
    var (vip, exact) := FindVip(c.vips, p.flow).value;
    var s1, k := Bump(s, LRU_CNTRS, 1, 0), ReadKey(vip, exact, p.flow);
    FlowVipValid(c, p.flow);
    assert FindVip(c.vips, q.flow) == Some((vip, exact)) && ReadKey(vip, exact, q.flow) == k;
    hide FindVip, ReadKey, WriteKey, RingPos, Rate;
    SameBalance(c, s1, vip, k, p, q);
    SameBalance(c, Unrouted(s1, p.quicIndex), vip, k, p, q);
    hide Balance, Unrouted, Routed, Bump;
  }

  lemma SameBalance(c: Config, s: State, vip: Vip, k: Flow, p: Pkt, q: Pkt)
    requires ValidConfig(c) && ValidState(s) && vip.num < MAX_VIPS && q == p.(flow := q.flow)
    ensures Balance(c, s, vip, k, p) == Balance(c, s, vip, k, q)
  {
    hide WriteKey, RingPos, Rate, Bump;
  }

  /** The event has nothing to do with the entry under k. */
  ghost predicate Leaves(c: Config, e: Event, k: Flow) {
    && (e.Evict? ==> k !in e.keys)
    && (e.Arrive? && VipFor(c, e.p.flow).Some? ==>
          var vip := VipFor(c, e.p.flow).value;
          TableKey(c, vip, e.p.flow) != k && HashKey(vip, TableKey(c, vip, e.p.flow)) != k)
  }

  ghost predicate AllLeave(c: Config, es: seq<Event>, k: Flow) {
    ValidEvents(es) && forall i :: 0 <= i < |es| ==> Leaves(c, es[i], k)
  }

  lemma {:induction false} EntryStays(w: World, es: seq<Event>, k: Flow)
    requires ValidWorld(w) && AllNamed(w.s.lru) && k in w.s.lru && AllLeave(w.c, es, k)
    ensures var r := Run(w, es);
            r.c.vips == w.c.vips && AllNamed(r.s.lru) && k in r.s.lru && r.s.lru[k] == w.s.lru[k]
            && r.s.lru[k].pos < 256
  {
    if es != [] {
      hide Process;
      var n := |es| - 1;
      EntryStays(w, es[..n], k);
      var before, e := Run(w, es[..n]), es[n];
      assert Leaves(w.c, e, k);
      if e.Arrive? {
        PacketStores(before.c, before.s, e.p);
        TableStaysNamed(before.c, before.s, e.p);
        SameKeys(w.c, before.c, e.p.flow);
        hide TableKey, HashKey, VipFor, WayOf, AllNamed;
      }
    }
  }

  lemma SameKeys(c: Config, c': Config, f: Flow)
    requires c.vips == c'.vips
    ensures VipFor(c, f) == VipFor(c', f)
    ensures forall vip :: TableKey(c, vip, f) == TableKey(c', vip, f)
  {
  }

  /** A UDP entry is followed exactly while it is at most 30 seconds old: from the moment it was written, and
      whatever else arrives or changes, the next packet looked up under it goes to the real it names if no
      more time has passed, and where the ring then says if more has. */
  lemma UdpFollowedIff(w: World, es: seq<Event>, k: Flow, p: Pkt, vip: Vip)
    requires ValidWorld(w) && AllNamed(w.s.lru) && k in w.s.lru && AllLeave(w.c, es, k) && k.proto == 17
    requires VipFor(w.c, p.flow) == Some(vip) && TableKey(w.c, vip, p.flow) == k && !vip.lruBypass
    requires !p.syn && !p.big && !(vip.quic && 0 < p.quicIndex < 256)
    ensures var r, entry := Run(w, es), w.s.lru[k];
            && vip.num < MAX_VIPS
            && Process(r.c, r.s, p).1
               == if (p.now - entry.atime) % 0x1_0000_0000_0000_0000 <= 30_000_000_000
                  then Towards(p, entry.pos)
                  else Towards(p, r.c.ring[127 * vip.num + r.c.hash(HashKey(vip, k), p.isV6) % 127])
  {
    assert ValidEvents(es);
    hide Process, Run, AllNamed, AllLeave;
    EntryStays(w, es, k);
    var r := Run(w, es);
    hide TableKey, HashKey, VipFor;
    SameKeys(w.c, r.c, p.flow);
    UdpGoes(r.c, r.s, k, p, vip);
  }

  lemma UdpGoes(c: Config, s: State, k: Flow, p: Pkt, vip: Vip)
    requires ValidConfig(c) && ValidState(s) && k in s.lru && s.lru[k].pos < 256 && k.proto == 17
    requires VipFor(c, p.flow) == Some(vip) && TableKey(c, vip, p.flow) == k && !vip.lruBypass
    requires !p.syn && !p.big && !(vip.quic && 0 < p.quicIndex < 256)
    ensures vip.num < MAX_VIPS
    ensures Process(c, s, p).1
            == if (p.now - s.lru[k].atime) % 0x1_0000_0000_0000_0000 <= 30_000_000_000
               then Towards(p, s.lru[k].pos)
               else Towards(p, c.ring[127 * vip.num + c.hash(HashKey(vip, k), p.isV6) % 127])
  {
    VipForIs(c, p.flow);
    AcceptsIs(c, p);
    WayIs(c, s, p, vip, k);
    assert Fresh(s.lru[k], 17, p.now) <==> (p.now - s.lru[k].atime) % 0x1_0000_0000_0000_0000 <= 30_000_000_000;
    hide Process, FindVip, ReadKey, WriteKey, TableKey, HashKey, VipFor, WayOf, Fresh;
    PacketGoes(c, s, p);
  }

  /** And every UDP packet that follows an entry, or that is stored under its own key, leaves there the real it
      was sent to and its own time. */
  lemma UdpStamps(c: Config, s: State, p: Pkt, vip: Vip)
    requires ValidConfig(c) && ValidState(s) && AllNamed(s.lru)
    requires VipFor(c, p.flow) == Some(vip) && !vip.lruBypass && p.flow.proto == 17 && p.fits
    requires var k, way := TableKey(c, vip, p.flow), WayOf(c, s, p);
             way.ByTable? || (way.ByRing? && way.pos < 256 && Admits(s.stats[34], p.now) && HashKey(vip, k) == k)
    ensures var k, (r, out) := TableKey(c, vip, p.flow), Process(c, s, p);
            out.dst.Some? && k in r.lru && r.lru[k] == Entry(out.dst.value, p.now)
  {
    hide Process;
    PacketGoes(c, s, p);
    PacketStores(c, s, p);
  }
}
