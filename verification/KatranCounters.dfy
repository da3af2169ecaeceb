/** The load balancer's counters balance: what is counted per virtual address is counted per real. */
module KatranCounters {
  import opened Packets
  import opened KatranSpec
  import opened KatranRuns
  import opened Options

  /** The component-wise sum of counters. */
  function Total(s: seq<Stat>): Stat {
    if s == [] then Stat(0, 0) else Added(Total(s[..|s| - 1]), s[|s| - 1].v1, s[|s| - 1].v2)
  }

  lemma {:induction false} TotalUpdate(s: seq<Stat>, i: nat, a: nat, b: nat)
    requires i < |s|
    ensures Total(s[i := Added(s[i], a, b)]) == Added(Total(s), a, b)
  {
    var t, n := s[i := Added(s[i], a, b)], |s| - 1;
    if i == n {
      assert t[..n] == s[..n];
    } else {
      assert t[..n] == s[..n][i := Added(s[..n][i], a, b)];
      TotalUpdate(s[..n], i, a, b);
    }
  }

  lemma {:induction false} TotalZero(s: seq<Stat>)
    requires forall i :: 0 <= i < |s| ==> s[i] == Stat(0, 0)
    ensures Total(s) == Stat(0, 0)
  {
    if s != [] {
      TotalZero(s[..|s| - 1]);
    }
  }

  /** What the counters say: packets and bytes by virtual address, by real, and the table's misses. */
  function PerVip(s: State): Stat
    requires ValidState(s)
  {
    Total(s.stats[..MAX_VIPS])
  }

  function PerReal(s: State): Stat {
    Total(s.realStats)
  }

  /** Misses, TCP misses and QUIC routes never exceed the packets. */
  ghost predicate Plausible(s: State)
    requires ValidState(s)
  {
    && s.stats[LRU_CNTRS].v2 <= s.stats[LRU_CNTRS].v1
    && s.stats[LRU_MISS].v1 + s.stats[LRU_MISS].v2 <= s.stats[LRU_CNTRS].v1
    && s.stats[QUIC_ROUTE].v1 + s.stats[QUIC_ROUTE].v2 <= s.stats[LRU_CNTRS].v1
  }

  function Delta(p: Pkt, out: Outcome): Stat {
    if out.action == Tx then Stat(1, p.bytes) else Stat(0, 0)
  }

  function Plus(x: Stat, y: Stat): Stat {
    Added(x, y.v1, y.v2)
  }

  /** The state moved on by one packet with outcome out: both totals by the same amount. */
  ghost predicate Moved(s: State, r: State, d: Stat)
    requires ValidState(s) && ValidState(r)
  {
    PerVip(r) == Plus(PerVip(s), d) && PerReal(r) == Plus(PerReal(s), d)
  }

  lemma BumpSpecial(s: State, slot: nat, a: nat, b: nat)
    requires ValidState(s) && MAX_VIPS <= slot < STATS_MAP_SIZE
    ensures Bump(s, slot, a, b).stats[..MAX_VIPS] == s.stats[..MAX_VIPS]
    ensures Moved(s, Bump(s, slot, a, b), Stat(0, 0))
  {
  }

  lemma FinishMoves(s: State, vip: Vip, p: Pkt, pos: nat)
    requires ValidState(s) && vip.num < MAX_VIPS && pos < MAX_REALS
    ensures var r := Finish(s, vip, p, pos);
            Moved(s, r.0, Delta(p, r.1)) && r.0.stats[MAX_VIPS..] == s.stats[MAX_VIPS..]
  {
    if p.fits {
      var stats := s.stats;
      TotalUpdate(stats[..MAX_VIPS], vip.num, 1, p.bytes);
      assert stats[vip.num := Added(stats[vip.num], 1, p.bytes)][..MAX_VIPS]
          == stats[..MAX_VIPS][vip.num := Added(stats[..MAX_VIPS][vip.num], 1, p.bytes)];
      TotalUpdate(s.realStats, pos, 1, p.bytes);
    }
  }

  /** At most one more in each pair of special counters, no more packets and no more QUIC routes. */
  ghost predicate OneMore(s: State, r: State)
    requires ValidState(s) && ValidState(r)
  {
    && r.stats[LRU_CNTRS].v1 == s.stats[LRU_CNTRS].v1
    && r.stats[QUIC_ROUTE] == s.stats[QUIC_ROUTE]
    && s.stats[LRU_CNTRS].v2 <= r.stats[LRU_CNTRS].v2 <= s.stats[LRU_CNTRS].v2 + 1
    && r.stats[LRU_MISS].v1 + r.stats[LRU_MISS].v2 <= s.stats[LRU_MISS].v1 + s.stats[LRU_MISS].v2 + 1
  }

  lemma NewDstMoves(c: Config, s: State, vip: Vip, k: Flow, p: Pkt)
    requires ValidConfig(c) && ValidState(s) && vip.num < MAX_VIPS
    ensures var r := NewDst(c, s, vip, k, p).0;
            r.realStats == s.realStats && r.stats[..MAX_VIPS] == s.stats[..MAX_VIPS]
            && r.stats == s.stats[NEW_CONN_RATE := r.stats[NEW_CONN_RATE]]
  {
    hide RingPos, WriteKey;
  }

  lemma MissMoves(c: Config, s: State, vip: Vip, k: Flow, p: Pkt)
    requires ValidConfig(c) && ValidState(s) && vip.num < MAX_VIPS
    ensures var r := AfterMiss(c, s, vip, k, p);
            Moved(s, r.0, Delta(p, r.1)) && OneMore(s, r.0)
  {
    hide NewDst, Finish;
    var s1 := if k.proto != IPPROTO_TCP then s else if p.syn then Bump(s, LRU_MISS, 1, 0) else Bump(s, LRU_MISS, 0, 1);
    NewDstMoves(c, s1, vip, k, p);
    var (s2, dst) := NewDst(c, s1, vip, k, p);
    assert s2.stats[..MAX_VIPS] == s.stats[..MAX_VIPS];
    assert Moved(s, s2, Stat(0, 0));
    if dst.Some? {
      var s3 := Bump(s2, LRU_CNTRS, 0, 1);
      BumpSpecial(s2, LRU_CNTRS, 0, 1);
      FinishMoves(s3, vip, p, dst.value);
      var r := Finish(s3, vip, p, dst.value).0;
      Special(r.stats, s3.stats);
    }
  }

  lemma Special(r: seq<Stat>, s: seq<Stat>)
    requires |r| == |s| == STATS_MAP_SIZE && r[MAX_VIPS..] == s[MAX_VIPS..]
    ensures r[LRU_CNTRS] == s[LRU_CNTRS] && r[LRU_MISS] == s[LRU_MISS] && r[QUIC_ROUTE] == s[QUIC_ROUTE]
  {
    assert r[LRU_CNTRS] == r[MAX_VIPS..][0] && r[LRU_MISS] == r[MAX_VIPS..][1] && r[QUIC_ROUTE] == r[MAX_VIPS..][7];
  }

  lemma BalanceMoves(c: Config, s: State, vip: Vip, k: Flow, p: Pkt)
    requires ValidConfig(c) && ValidState(s) && vip.num < MAX_VIPS
    ensures var r := Balance(c, s, vip, k, p);
            Moved(s, r.0, Delta(p, r.1)) && OneMore(s, r.0)
  {
    hide AfterMiss, Finish, Lookup;
    var s1 := if c.perCore then s else Bump(s, FALLBACK_LRU, 1, 0);
    assert s1.stats[..MAX_VIPS] == s.stats[..MAX_VIPS];
    var (lru, dst) := Lookup(s1.lru, k, p.now);
    var s2 := s1.(lru := lru);
    MissMoves(c, s1, vip, k, p);
    MissMoves(c, s2, vip, k, p);
    if dst.Some? {
      LookupBound(s1.lru, k, p.now);
      FinishMoves(s2, vip, p, dst.value);
      Special(Finish(s2, vip, p, dst.value).0.stats, s2.stats);
    }
  }

  lemma LookupBound(lru: Lru, k: Flow, now: nat)
    ensures Lookup(lru, k, now).1.Some? ==> Lookup(lru, k, now).1.value < MAX_REALS
  {
  }

  /** The packet is for a virtual address and not too big. */
  predicate Accepted(c: Config, p: Pkt) {
    FindVip(c.vips, p.flow).Some? && !p.big
  }

  /** The counters of QUIC ids are no part of the totals, and at most one packet is counted as routed or not. */
  ghost predicate QuicMoved(s: State, r: State)
    requires ValidState(s) && ValidState(r)
  {
    && Moved(s, r, Stat(0, 0))
    && r.stats[LRU_CNTRS] == s.stats[LRU_CNTRS] && r.stats[LRU_MISS] == s.stats[LRU_MISS]
    && r.stats[QUIC_ROUTE].v1 + r.stats[QUIC_ROUTE].v2 <= s.stats[QUIC_ROUTE].v1 + s.stats[QUIC_ROUTE].v2 + 1
  }

  lemma UnroutedMoves(s: State, id: int)
    requires ValidState(s)
    ensures QuicMoved(s, Unrouted(s, id))
  {
    assert Unrouted(s, id).stats[..MAX_VIPS] == s.stats[..MAX_VIPS];
  }

  lemma RoutedMoves(s: State, id: int, pos: nat)
    requires ValidState(s)
    ensures QuicMoved(s, Routed(s, id, pos))
  {
    assert Routed(s, id, pos).stats[..MAX_VIPS] == s.stats[..MAX_VIPS];
  }

  lemma ProcessMoves(c: Config, s: State, p: Pkt)
    requires ValidConfig(c) && ValidState(s)
    ensures var r := Process(c, s, p);
            && Moved(s, r.0, Delta(p, r.1))
            && r.0.stats[LRU_CNTRS].v1 == s.stats[LRU_CNTRS].v1 + (if Accepted(c, p) then 1 else 0)
            && (Plausible(s) ==> Plausible(r.0))
  {
    if Accepted(c, p) {
      hide Balance, Finish, Unrouted, Routed;
      FlowVipValid(c, p.flow);
      var (vip, exact) := FindVip(c.vips, p.flow).value;
      var s1, k := Bump(s, LRU_CNTRS, 1, 0), ReadKey(vip, exact, p.flow);
      BumpSpecial(s, LRU_CNTRS, 1, 0);
      if p.flow.proto != IPPROTO_UDP || !vip.quic {
        BalanceMoves(c, s1, vip, k, p);
      } else if !(0 < p.quicIndex < MAX_REALS) {
        UnroutedMoves(s1, p.quicIndex);
        BalanceMoves(c, Unrouted(s1, p.quicIndex), vip, k, p);
      } else {
        var pos := c.quicMapping[p.quicIndex];
        var s2 := Routed(s1, p.quicIndex, pos);
        RoutedMoves(s1, p.quicIndex, pos);
        if pos < MAX_REALS {
          FinishMoves(s2, vip, p, pos);
          Special(Finish(s2, vip, p, pos).0.stats, s2.stats);
        }
      }
    }
  }

  // ----- over runs

  /** The packets a run forwarded and their bytes. */
  function Forwarded(w: World, es: seq<Event>): Stat
    requires ValidWorld(w) && ValidEvents(es)
  {
    if es == [] then Stat(0, 0)
    else
      var n := |es| - 1;
      var before := Run(w, es[..n]);
      var d := if es[n].Arrive? then Delta(es[n].p, Process(before.c, before.s, es[n].p).1) else Stat(0, 0);
      Plus(Forwarded(w, es[..n]), d)
  }

  /** How many packets of a run were for a virtual address. */
  function AcceptedCount(c: Config, es: seq<Event>): nat {
    if es == [] then 0
    else AcceptedCount(c, es[..|es| - 1]) + if es[|es| - 1].Arrive? && Accepted(c, es[|es| - 1].p) then 1 else 0
  }

  /** Conservation: over every run, the packets and bytes counted over all virtual addresses are those
      counted over all reals, and both are what was forwarded; every accepted packet is counted
      once; the misses never overtake it. */
  lemma {:induction false} Conservation(c: Config, es: seq<Event>)
    requires ValidConfig(c) && ValidEvents(es)
    ensures var w := World(c, Initial());
            var s := Run(w, es).s;
            && PerVip(s) == PerReal(s) == Forwarded(w, es)
            && Plausible(s)
            && s.stats[LRU_CNTRS].v1 == AcceptedCount(c, es)
            && Run(w, es).c.vips == c.vips
  {
    var w := World(c, Initial());
    if es == [] {
      TotalZero(Initial().stats[..MAX_VIPS]);
      TotalZero(Initial().realStats);
    } else {
      hide Process, Plausible, PerVip, PerReal, Initial;
      var n := |es| - 1;
      Conservation(c, es[..n]);
      var before, e := Run(w, es[..n]), es[n];
      if e.Arrive? {
        ProcessMoves(before.c, before.s, e.p);
      } else {
        SameCounters(before.s, Next(before, e).s);
      }
    }
  }

  lemma SameCounters(s: State, r: State)
    requires ValidState(s) && r.stats == s.stats && r.realStats == s.realStats
    ensures PerVip(r) == PerVip(s) && PerReal(r) == PerReal(s) && (Plausible(s) ==> Plausible(r))
  {
  }
}
