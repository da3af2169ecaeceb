/** The load balancer as the program runs it, counters and connection table updated in place:
    ebpf-nfs/katran/balancer_kern.h. */
module Balancers {
  import opened Packets
  import opened KatranSpec
  import opened Options

  class Balancer {
    var config: Config
    var lru: Lru
    const stats: array<Stat>
    const realStats: array<Stat>

    constructor (config: Config)
      requires ValidConfig(config)
      ensures Valid() && fresh(stats) && fresh(realStats) && this.config == config
      ensures Abs() == Initial()
    {
      this.config := config;
      lru := map[];
      stats := new Stat[STATS_MAP_SIZE](_ => Stat(0, 0));
      realStats := new Stat[MAX_REALS](_ => Stat(0, 0));
      new;
      assert Abs() == Initial();
    }

    ghost predicate Valid()
      reads this
    {
      ValidConfig(config) && stats.Length == STATS_MAP_SIZE && realStats.Length == MAX_REALS && stats != realStats
    }

    ghost function Abs(): (s: State)
      requires Valid()
      reads this, stats, realStats
      ensures ValidState(s)
    {
      State(lru, stats[..], realStats[..])
    }

    method Count(slot: nat, a: nat, b: nat)
      requires Valid() && slot < STATS_MAP_SIZE
      modifies stats
      ensures Valid() && Abs() == Bump(old(Abs()), slot, a, b)
    {
      stats[slot] := Stat(stats[slot].v1 + a, stats[slot].v2 + b);
    }

    /** increment_quic_cid_version_stats. */
    method CountQuicVersion(id: int)
      requires Valid() && id > 0
      modifies stats
      ensures Valid() && Abs() == CountVersion(old(Abs()), id)
    {
      if id > QUIC_CONNID_VERSION_V1_MAX_VAL {
        Count(QUIC_CID_VERSION, 0, 1);
      } else {
        Count(QUIC_CID_VERSION, 1, 0);
      }
    }

    /** is_under_flood. */
    method IsUnderFlood(now: nat) returns (flood: bool)
      requires Valid()
      modifies stats
      ensures Valid()
      ensures var (rate, f) := Rate(old(stats[NEW_CONN_RATE]), now);
              flood == f && Abs() == old(Abs()).(stats := old(stats[..])[NEW_CONN_RATE := rate])
    {
      var rate := stats[NEW_CONN_RATE];
      if (now - rate.v2) % TWO_64 > ONE_SEC {
        stats[NEW_CONN_RATE] := Stat(1, now);
        return false;
      }
      stats[NEW_CONN_RATE] := rate.(v1 := rate.v1 + 1);
      return rate.v1 + 1 > MAX_CONN_RATE;
    }

    /** get_packet_dst. */
    method GetPacketDst(vip: Vip, k: Flow, p: Pkt) returns (dst: Option<nat>)
      requires Valid() && vip.num < MAX_VIPS
      modifies this`lru, stats
      ensures Valid() && (Abs(), dst) == NewDst(config, old(Abs()), vip, k, p)
    {
      var flood := IsUnderFlood(p.now);
      var w := k;
      if vip.dportOnly {
        w := k.(sport := k.dport, src := ZERO);
      }
      var hash := config.hash(w, p.isV6) % RING_SIZE;
      var pos := config.ring[RING_SIZE * vip.num + hash];
      if pos >= MAX_REALS {
        return None;
      }
      if !vip.lruBypass && !flood {
        lru := lru[w := Entry(pos, if k.proto == IPPROTO_UDP then p.now else 0)];
      }
      return Some(pos);
    }

    /** connection_table_lookup. */
    method ConnectionTableLookup(k: Flow, now: nat) returns (dst: Option<nat>)
      requires Valid()
      modifies this`lru
      ensures Valid() && (lru, dst) == Lookup(old(lru), k, now)
    {
      if k !in lru {
        return None;
      }
      var entry := lru[k];
      if k.proto == IPPROTO_UDP {
        if (now - entry.atime) % TWO_64 > LRU_UDP_TIMEOUT {
          return None;
        }
        lru := lru[k := entry.(atime := now)];
      }
      return if entry.pos < MAX_REALS then Some(entry.pos) else None;
    }

    /** The tail of process_packet. */
    method Forward(vip: Vip, p: Pkt, pos: nat) returns (out: Outcome)
      requires Valid() && vip.num < MAX_VIPS && pos < MAX_REALS
      modifies stats, realStats
      ensures Valid() && (Abs(), out) == Finish(old(Abs()), vip, p, pos)
    {
      if !p.fits {
        return Outcome(Drop, None);
      }
      Count(vip.num, 1, p.bytes);
      realStats[pos] := Stat(realStats[pos].v1 + 1, realStats[pos].v2 + p.bytes);
      return Outcome(Tx, Some(pos));
    }

    method OnMiss(vip: Vip, k: Flow, p: Pkt) returns (out: Outcome)
      requires Valid() && vip.num < MAX_VIPS
      modifies this`lru, stats, realStats
      ensures Valid() && (Abs(), out) == AfterMiss(config, old(Abs()), vip, k, p)
    {
      hide NewDst, Finish;
      if k.proto == IPPROTO_TCP {
        if p.syn {
          Count(LRU_MISS, 1, 0);
        } else {
          Count(LRU_MISS, 0, 1);
        }
      }
      var dst := GetPacketDst(vip, k, p);
      if dst.None? {
        return Outcome(Drop, None);
      }
      Count(LRU_CNTRS, 0, 1);
      out := Forward(vip, p, dst.value);
    }

    method ChooseReal(vip: Vip, k: Flow, p: Pkt) returns (out: Outcome)
      requires Valid() && vip.num < MAX_VIPS
      modifies this`lru, stats, realStats
      ensures Valid() && (Abs(), out) == Balance(config, old(Abs()), vip, k, p)
    {
      hide AfterMiss, Finish;
      if !config.perCore {
        Count(FALLBACK_LRU, 1, 0);
      }
      var dst: Option<nat> := None;
      if !p.syn && !vip.lruBypass {
        dst := ConnectionTableLookup(k, p.now);
      }
      if dst.None? {
        out := OnMiss(vip, k, p);
      } else {
        out := Forward(vip, p, dst.value);
      }
    }

    /** process_packet from the VIP lookup on. */
    method ProcessPacket(p: Pkt) returns (out: Outcome)
      requires Valid()
      modifies this`lru, stats, realStats
      ensures Valid() && (Abs(), out) == Process(config, old(Abs()), p)
    {
      hide Balance, Finish;
      var f := p.flow;
      var exact := true;
      var key := VipKey(f.dst, f.dport, f.proto);
      if key !in config.vips {
        exact := false;
        key := key.(port := 0);
        if key !in config.vips {
          return Outcome(Pass, None);
        }
      }
      var vip := config.vips[key];
      if !exact && !vip.dportOnly {
        f := f.(dport := 0);
      }
      if p.big {
        return Outcome(Drop, None);
      }
      Count(LRU_CNTRS, 1, 0);
      if f.proto == IPPROTO_UDP && vip.quic {
        if p.quicIndex > 0 {
          CountQuicVersion(p.quicIndex);
          if p.quicIndex < MAX_REALS {
            var pos := config.quicMapping[p.quicIndex];
            if pos == 0 {
              Count(QUIC_CID_DROP, 0, 1);
            }
            if pos >= MAX_REALS {
              Count(QUIC_CID_DROP, 1, 0);
              return Outcome(Drop, None);
            }
            Count(QUIC_ROUTE, 0, 1);
            out := Forward(vip, p, pos);
            return;
          }
        }
        Count(QUIC_ROUTE, 1, 0);
      }
      if vip.noSrcPort {
        f := f.(sport := 0);
      }
      out := ChooseReal(vip, f, p);
    }
  }
}
