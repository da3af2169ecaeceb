/** One packet through the load balancer, as a function: process_packet of
    ebpf-nfs/katran/balancer_kern.h from the VIP lookup on, on one CPU. */
module KatranSpec {
  import opened Checksums
  import opened Packets
  import opened Options

  const RING_SIZE := 127
  const MAX_VIPS := 32
  const MAX_REALS := 256
  const CH_RINGS_SIZE := 4064
  const STATS_MAP_SIZE := 64
  const ONE_SEC := 1_000_000_000
  const LRU_UDP_TIMEOUT := 30_000_000_000
  const MAX_CONN_RATE := 125000
  const TWO_64 := 0x1_0000_0000_0000_0000

  const LRU_CNTRS := MAX_VIPS
  const LRU_MISS := MAX_VIPS + 1
  const NEW_CONN_RATE := MAX_VIPS + 2
  const FALLBACK_LRU := MAX_VIPS + 3
  const QUIC_ROUTE := MAX_VIPS + 7
  const QUIC_CID_VERSION := MAX_VIPS + 8
  const QUIC_CID_DROP := MAX_VIPS + 9
  const QUIC_CONNID_VERSION_V1_MAX_VAL := 0xFFFF

  const IPPROTO_TCP := 6
  const IPPROTO_UDP := 17

  // ----- flows, addresses and configuration

  /** Packets of other protocols are passed on before the VIP lookup. */
  type Transport = p: int | p == IPPROTO_TCP || p == IPPROTO_UDP witness IPPROTO_TCP

  /** An IPv4 address is the first word, the others zero. */
  datatype Words = Words(w0: u32, w1: u32, w2: u32, w3: u32)

  const ZERO := Words(0, 0, 0, 0)

  datatype Flow = Flow(src: Words, dst: Words, sport: u16, dport: u16, proto: Transport)

  datatype VipKey = VipKey(addr: Words, port: u16, proto: byte)

  datatype Vip = Vip(num: nat, noSrcPort: bool, lruBypass: bool, quic: bool, dportOnly: bool)

  /** A connection table entry. */
  datatype Entry = Entry(pos: nat, atime: nat)

  type Lru = map<Flow, Entry>

  datatype Stat = Stat(v1: nat, v2: nat)

  datatype Config = Config(vips: map<VipKey, Vip>, ring: seq<nat>, hash: (Flow, bool) -> nat,
                           quicMapping: seq<nat>, perCore: bool)

  datatype State = State(lru: Lru, stats: seq<Stat>, realStats: seq<Stat>)

  /** A parsed TCP or UDP packet with its surroundings: the QUIC server id found in it, whether the
      outer header fits in front of it, and the time. */
  datatype Pkt = Pkt(isV6: bool, flow: Flow, syn: bool, bytes: nat, big: bool, quicIndex: int, fits: bool, now: nat)

  datatype Outcome = Outcome(action: Action, dst: Option<nat>)

  ghost predicate ValidConfig(c: Config) {
    && |c.ring| == CH_RINGS_SIZE && |c.quicMapping| == MAX_REALS
    && forall key :: key in c.vips ==> c.vips[key].num < MAX_VIPS
  }

  ghost predicate ValidState(s: State) {
    |s.stats| == STATS_MAP_SIZE && |s.realStats| == MAX_REALS
  }

  function Initial(): (s: State)
    ensures ValidState(s)
  {
    State(map[], seq(STATS_MAP_SIZE, _ => Stat(0, 0)), seq(MAX_REALS, _ => Stat(0, 0)))
  }

  // ----- the keys of a flow

  /** The VIP of a flow, and whether its destination port was needed to find it. */
  function FindVip(vips: map<VipKey, Vip>, f: Flow): Option<(Vip, bool)> {
    var exact, any := VipKey(f.dst, f.dport, f.proto), VipKey(f.dst, 0, f.proto);
    if exact in vips then Some((vips[exact], true))
    else if any in vips then Some((vips[any], false)) else None
  }

  /** The key under which the connection table is searched. */
  function ReadKey(vip: Vip, exact: bool, f: Flow): Flow {
    f.(dport := if exact || vip.dportOnly then f.dport else 0, sport := if vip.noSrcPort then 0 else f.sport)
  }

  /** The key under which a new destination is remembered: hashing by destination port alone
      overwrites the flow before it is stored. */
  function WriteKey(vip: Vip, k: Flow): Flow {
    if vip.dportOnly then k.(sport := k.dport, src := ZERO) else k
  }

  /** The consistent hashing ring's choice for a key. */
  function RingPos(c: Config, vip: Vip, k: Flow, isV6: bool): nat
    requires |c.ring| == CH_RINGS_SIZE && vip.num < MAX_VIPS
  {
    c.ring[RING_SIZE * vip.num + c.hash(k, isV6) % RING_SIZE]
  }

  // ----- counters

  function Added(s: Stat, a: nat, b: nat): Stat {
    Stat(s.v1 + a, s.v2 + b)
  }

  function Bump(s: State, slot: nat, a: nat, b: nat): (r: State)
    requires ValidState(s) && slot < STATS_MAP_SIZE
    ensures ValidState(r)
  {
    s.(stats := s.stats[slot := Added(s.stats[slot], a, b)])
  }

  /** The counters of a QUIC connection id: its version, if there is one. */
  function CountVersion(s: State, id: int): (r: State)
    requires ValidState(s)
    ensures ValidState(r)
  {
    if id <= 0 then s
    else if id > QUIC_CONNID_VERSION_V1_MAX_VAL then Bump(s, QUIC_CID_VERSION, 0, 1)
    else Bump(s, QUIC_CID_VERSION, 1, 0)
  }

  /** A QUIC packet that is left to the connection table and the ring. */
  function Unrouted(s: State, id: int): (r: State)
    requires ValidState(s)
    ensures ValidState(r)
  {
    Bump(CountVersion(s, id), QUIC_ROUTE, 1, 0)
  }

  /** A QUIC packet whose connection id names real pos; the zero of an unset id is counted. */
  function Routed(s: State, id: int, pos: nat): (r: State)
    requires ValidState(s)
    ensures ValidState(r)
  {
    var s1 := CountVersion(s, id);
    var s2 := if pos == 0 then Bump(s1, QUIC_CID_DROP, 0, 1) else s1;
    if pos >= MAX_REALS then Bump(s2, QUIC_CID_DROP, 1, 0) else Bump(s2, QUIC_ROUTE, 0, 1)
  }

  /** is_under_flood: the counter slot after one more new connection, and whether it is one too many. */
  function Rate(s: Stat, now: nat): (Stat, bool) {
    if (now - s.v2) % TWO_64 > ONE_SEC then (Stat(1, now), false)
    else (Stat(s.v1 + 1, s.v2), s.v1 + 1 > MAX_CONN_RATE)
  }

  // ----- the steps

  /** connection_table_lookup: the table afterwards and the real found. A UDP entry is refreshed. */
  function Lookup(lru: Lru, k: Flow, now: nat): (Lru, Option<nat>) {
    if k !in lru then (lru, None)
    else if k.proto == IPPROTO_UDP && (now - lru[k].atime) % TWO_64 > LRU_UDP_TIMEOUT then (lru, None)
    else (if k.proto == IPPROTO_UDP then lru[k := Entry(lru[k].pos, now)] else lru,
          if lru[k].pos < MAX_REALS then Some(lru[k].pos) else None)
  }

  /** get_packet_dst. */
  function NewDst(c: Config, s: State, vip: Vip, k: Flow, p: Pkt): (r: (State, Option<nat>))
    requires ValidConfig(c) && ValidState(s) && vip.num < MAX_VIPS
    ensures ValidState(r.0) && (r.1.Some? ==> r.1.value < MAX_REALS)
  {
    var (rate, flood) := Rate(s.stats[NEW_CONN_RATE], p.now);
    var s1 := s.(stats := s.stats[NEW_CONN_RATE := rate]);
    var w := WriteKey(vip, k);
    var pos := RingPos(c, vip, w, p.isV6);
    if pos >= MAX_REALS then (s1, None)
    else if vip.lruBypass || flood then (s1, Some(pos))
    else (s1.(lru := s1.lru[w := Entry(pos, if k.proto == IPPROTO_UDP then p.now else 0)]), Some(pos))
  }

  /** Encapsulation and the counters of a packet for real pos. */
  function Finish(s: State, vip: Vip, p: Pkt, pos: nat): (r: (State, Outcome))
    requires ValidState(s) && vip.num < MAX_VIPS && pos < MAX_REALS
    ensures ValidState(r.0)
  {
    if !p.fits then (s, Outcome(Drop, None))
    else
      var s1 := Bump(s, vip.num, 1, p.bytes);
      (s1.(realStats := s1.realStats[pos := Added(s1.realStats[pos], 1, p.bytes)]), Outcome(Tx, Some(pos)))
  }

  function AfterMiss(c: Config, s: State, vip: Vip, k: Flow, p: Pkt): (r: (State, Outcome))
    requires ValidConfig(c) && ValidState(s) && vip.num < MAX_VIPS
    ensures ValidState(r.0)
  {
    var s1 := if k.proto != IPPROTO_TCP then s else if p.syn then Bump(s, LRU_MISS, 1, 0) else Bump(s, LRU_MISS, 0, 1);
    var (s2, dst) := NewDst(c, s1, vip, k, p);
    match dst
    case None => (s2, Outcome(Drop, None))
    case Some(pos) =>
      Finish(Bump(s2, LRU_CNTRS, 0, 1), vip, p, pos)
  }

  /** Choose a real for a packet without a QUIC connection id: the connection table, else the ring. */
  function Balance(c: Config, s: State, vip: Vip, k: Flow, p: Pkt): (r: (State, Outcome))
    requires ValidConfig(c) && ValidState(s) && vip.num < MAX_VIPS
    ensures ValidState(r.0)
  {
    var s1 := if c.perCore then s else Bump(s, FALLBACK_LRU, 1, 0);
    if p.syn || vip.lruBypass then AfterMiss(c, s1, vip, k, p)
    else
      var (lru, dst) := Lookup(s1.lru, k, p.now);
      var s2 := s1.(lru := lru);
      match dst
      case None => AfterMiss(c, s2, vip, k, p)
      case Some(pos) => Finish(s2, vip, p, pos)
  }

  /** process_packet from the VIP lookup on. */
  function Process(c: Config, s: State, p: Pkt): (r: (State, Outcome))
    requires ValidConfig(c) && ValidState(s)
    ensures ValidState(r.0)
  {
    match FindVip(c.vips, p.flow)
    case None => (s, Outcome(Pass, None))
    case Some((vip, exact)) =>
      if p.big then (s, Outcome(Drop, None))
      else
        var s1 := Bump(s, LRU_CNTRS, 1, 0);
        var k := ReadKey(vip, exact, p.flow);
        if p.flow.proto != IPPROTO_UDP || !vip.quic then Balance(c, s1, vip, k, p)
        else if !(0 < p.quicIndex < MAX_REALS) then Balance(c, Unrouted(s1, p.quicIndex), vip, k, p)
        else
          var pos := c.quicMapping[p.quicIndex];
          var s2 := Routed(s1, p.quicIndex, pos);
          if pos >= MAX_REALS then (s2, Outcome(Drop, None)) else Finish(s2, vip, p, pos)
  }
}
