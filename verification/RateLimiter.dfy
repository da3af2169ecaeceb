/** The limit on new connections: is_under_flood of ebpf-nfs/katran/balancer_kern.h. */
module RateLimiter {
  import opened KatranSpec
  import opened KatranRuns
  import opened Options

  /** The clock never runs backwards and fits in 64 bits. */
  ghost predicate Clock(s: Stat, ts: seq<nat>) {
    && (forall i :: 0 <= i < |ts| ==> s.v2 <= ts[i] < TWO_64)
    && (forall i, j :: 0 <= i < j < |ts| ==> ts[i] <= ts[j])
  }

  predicate InWindow(lo: nat, t: nat) {
    lo <= t <= lo + ONE_SEC
  }

  /** Of new connections at times ts, how many in the second after lo are not under flood. */
  function AdmittedIn(s: Stat, ts: seq<nat>, lo: nat): nat
    decreases ts
  {
    if ts == [] then 0
    else
      var (s', flood) := Rate(s, ts[0]);
      (if !flood && InWindow(lo, ts[0]) then 1 else 0) + AdmittedIn(s', ts[1..], lo)
  }

  /** What the current quantum can still admit. */
  function Remaining(s: Stat): nat {
    if s.v1 < MAX_CONN_RATE then MAX_CONN_RATE - s.v1 else 0
  }

  lemma RateStep(s: Stat, ts: seq<nat>)
    requires Clock(s, ts) && ts != []
    ensures var t := ts[0];
            var (s', flood) := Rate(s, t);
            && Clock(s', ts[1..])
            && (if t - s.v2 > ONE_SEC then s' == Stat(1, t) && !flood
                else s' == Stat(s.v1 + 1, s.v2) && (flood <==> s.v1 + 1 > MAX_CONN_RATE))
  {
    var t := ts[0];
    assert s.v2 <= t < TWO_64;
    assert (t - s.v2) % TWO_64 == t - s.v2;
  }

  lemma {:induction false} NothingAfter(s: Stat, ts: seq<nat>, lo: nat)
    requires Clock(s, ts) && (ts != [] ==> ts[0] > lo + ONE_SEC)
    ensures AdmittedIn(s, ts, lo) == 0
    decreases ts
  {
    if ts != [] {
      RateStep(s, ts);
      NothingAfter(Rate(s, ts[0]).0, ts[1..], lo);
    }
  }

  /** A quantum that began inside the second is the last one in it. */
  lemma {:induction false} LastQuantum(s: Stat, ts: seq<nat>, lo: nat)
    requires Clock(s, ts) && s.v2 >= lo
    ensures AdmittedIn(s, ts, lo) <= Remaining(s)
    decreases ts
  {
    if ts != [] {
      RateStep(s, ts);
      var (s', flood) := Rate(s, ts[0]);
      if ts[0] - s.v2 > ONE_SEC {
        NothingAfter(s', ts[1..], lo);
      } else {
        LastQuantum(s', ts[1..], lo);
      }
    }
  }

  /** Once the second has begun: the rest of this quantum and one more. */
  lemma {:induction false} TwoQuanta(s: Stat, ts: seq<nat>, lo: nat)
    requires Clock(s, ts) && (ts != [] ==> ts[0] >= lo)
    ensures AdmittedIn(s, ts, lo) <= Remaining(s) + MAX_CONN_RATE
    decreases ts
  {
    if ts != [] {
      RateStep(s, ts);
      var (s', flood) := Rate(s, ts[0]);
      if ts[0] - s.v2 > ONE_SEC {
        LastQuantum(s', ts[1..], lo);
      } else {
        TwoQuanta(s', ts[1..], lo);
      }
    }
  }

  /** In no second, wherever it begins and whatever came before, are more than twice the limit admitted. */
  lemma {:induction false} RateBound(s: Stat, ts: seq<nat>, lo: nat)
    requires Clock(s, ts)
    ensures AdmittedIn(s, ts, lo) <= 2 * MAX_CONN_RATE
    decreases ts
  {
    if ts == [] {
    } else if ts[0] >= lo {
      TwoQuanta(s, ts, lo);
    } else {
      RateStep(s, ts);
      RateBound(Rate(s, ts[0]).0, ts[1..], lo);
    }
  }

  function Copies(t: nat, n: nat): (r: seq<nat>)
    ensures |r| == n && forall i :: 0 <= i < n ==> r[i] == t
  {
    seq(n, _ => t)
  }

  lemma {:induction false} Burst(s: Stat, t: nat, n: nat, rest: seq<nat>, lo: nat)
    requires s.v2 <= t < TWO_64 && t - s.v2 <= ONE_SEC && s.v1 + n <= MAX_CONN_RATE && InWindow(lo, t)
    ensures AdmittedIn(s, Copies(t, n) + rest, lo) == n + AdmittedIn(Stat(s.v1 + n, s.v2), rest, lo)
    decreases n
  {
    if n == 0 {
      assert Copies(t, 0) + rest == rest;
    } else {
      var ts := Copies(t, n) + rest;
      assert ts[1..] == Copies(t, n - 1) + rest;
      assert (t - s.v2) % TWO_64 == t - s.v2;
      Burst(Stat(s.v1 + 1, s.v2), t, n - 1, rest, lo);
    }
  }

  /** No smaller bound holds: a burst at the end of a quantum and another at the start of the next. */
  lemma RateBoundTight() returns (ts: seq<nat>, lo: nat)
    ensures Clock(Stat(0, 0), ts) && AdmittedIn(Stat(0, 0), ts, lo) == 2 * MAX_CONN_RATE
  {
    var first, second := Copies(ONE_SEC, MAX_CONN_RATE), Copies(ONE_SEC + 1, MAX_CONN_RATE - 1);
    lo := ONE_SEC;
    var later := [ONE_SEC + 1] + second;
    ts := first + later;
    Burst(Stat(0, 0), ONE_SEC, MAX_CONN_RATE, later, lo);
    assert later[1..] == second == second + [];
    Burst(Stat(1, ONE_SEC + 1), ONE_SEC + 1, MAX_CONN_RATE - 1, [], lo);
  }

  // ----- what it limits

  function RateRun(s: Stat, ts: seq<nat>): Stat
    decreases ts
  {
    if ts == [] then s else RateRun(Rate(s, ts[0]).0, ts[1..])
  }

  lemma {:induction false} OneLater(s: Stat, ts: seq<nat>, t: nat, lo: nat)
    ensures RateRun(s, ts + [t]) == Rate(RateRun(s, ts), t).0
    ensures AdmittedIn(s, ts + [t], lo)
            == AdmittedIn(s, ts, lo) + if !Rate(RateRun(s, ts), t).1 && InWindow(lo, t) then 1 else 0
    decreases ts
  {
    hide Rate;
    if ts == [] {
      assert [t][1..] == [] && ts + [t] == [t];
    } else {
      assert (ts + [t])[1..] == ts[1..] + [t];
      OneLater(Rate(s, ts[0]).0, ts[1..], t, lo);
    }
  }

  /** A miss puts an entry into the connection table: the VIP has one, the ring names a real, no flood. */
  predicate StoresOnMiss(c: Config, s: State, vip: Vip, k: Flow, p: Pkt)
    requires ValidConfig(c) && ValidState(s) && vip.num < MAX_VIPS
  {
    && !vip.lruBypass && RingPos(c, vip, WriteKey(vip, k), p.isV6) < MAX_REALS
    && !Rate(s.stats[NEW_CONN_RATE], p.now).1
  }

  predicate StoresOnBalance(c: Config, s: State, vip: Vip, k: Flow, p: Pkt)
    requires ValidConfig(c) && ValidState(s) && vip.num < MAX_VIPS
  {
    (p.syn || Lookup(s.lru, k, p.now).1.None?) && StoresOnMiss(c, s, vip, k, p)
  }

  /** The packet puts an entry into the connection table, new or in place of another. */
  predicate Stores(c: Config, s: State, p: Pkt)
    requires ValidConfig(c) && ValidState(s)
  {
    match FindVip(c.vips, p.flow)
    case None => false
    case Some((vip, exact)) =>
      && !p.big && !(p.flow.proto == IPPROTO_UDP && vip.quic && 0 < p.quicIndex < MAX_REALS)
      && StoresOnBalance(c, s, vip, ReadKey(vip, exact, p.flow), p)
  }

  /** The same flows, sent to the same reals. */
  ghost predicate SameDestinations(lru: Lru, lru': Lru) {
    lru.Keys == lru'.Keys && forall k :: k in lru ==> lru[k].pos == lru'[k].pos
  }

  /** Storing an entry takes the limiter's leave; without it the destinations stay as they are. */
  ghost predicate Limited(s: State, r: State, now: nat, stores: bool)
    requires ValidState(s) && ValidState(r)
  {
    var rate := s.stats[NEW_CONN_RATE];
    if stores then r.stats[NEW_CONN_RATE] == Rate(rate, now).0 && !Rate(rate, now).1
    else r.stats[NEW_CONN_RATE] in {rate, Rate(rate, now).0} && SameDestinations(s.lru, r.lru)
  }

  lemma MissLimited(c: Config, s: State, vip: Vip, k: Flow, p: Pkt)
    requires ValidConfig(c) && ValidState(s) && vip.num < MAX_VIPS
    ensures Limited(s, AfterMiss(c, s, vip, k, p).0, p.now, StoresOnMiss(c, s, vip, k, p))
  {
    hide Rate, RingPos;
  }

  lemma BalanceLimited(c: Config, s: State, vip: Vip, k: Flow, p: Pkt)
    requires ValidConfig(c) && ValidState(s) && vip.num < MAX_VIPS
    ensures Limited(s, Balance(c, s, vip, k, p).0, p.now, StoresOnBalance(c, s, vip, k, p))
  {
    hide Rate, AfterMiss, RingPos;
    var s1 := if c.perCore then s else Bump(s, FALLBACK_LRU, 1, 0);
    MissLimited(c, s1, vip, k, p);
    MissLimited(c, s1.(lru := Lookup(s1.lru, k, p.now).0), vip, k, p);
  }

  /** Counters moved before balancing make no difference. */
  lemma BalanceLimitedFrom(c: Config, s: State, s1: State, vip: Vip, k: Flow, p: Pkt)
    requires ValidConfig(c) && ValidState(s) && ValidState(s1) && vip.num < MAX_VIPS
    requires s1.lru == s.lru && s1.stats[NEW_CONN_RATE] == s.stats[NEW_CONN_RATE]
    ensures Limited(s, Balance(c, s1, vip, k, p).0, p.now, StoresOnBalance(c, s, vip, k, p))
  {
    hide Rate, Balance, RingPos;
    BalanceLimited(c, s1, vip, k, p);
  }

  lemma RoutedLimited(s: State, vip: Vip, p: Pkt, pos: nat)
    requires ValidState(s) && vip.num < MAX_VIPS
    ensures var s2 := Routed(Bump(s, LRU_CNTRS, 1, 0), p.quicIndex, pos);
            Limited(s, s2, p.now, false) && (pos < MAX_REALS ==> Limited(s, Finish(s2, vip, p, pos).0, p.now, false))
  {
    hide Rate;
  }

  /** A packet that stores an entry had the limiter's leave; any other leaves every destination alone. */
  lemma ProcessLimited(c: Config, s: State, p: Pkt)
    requires ValidConfig(c) && ValidState(s)
    ensures Limited(s, Process(c, s, p).0, p.now, Stores(c, s, p))
  {
    hide Rate, Balance, StoresOnBalance, Finish;
    if FindVip(c.vips, p.flow).Some? && !p.big {
      FlowVipValid(c, p.flow);
      var (vip, exact) := FindVip(c.vips, p.flow).value;
      var s1, k := Bump(s, LRU_CNTRS, 1, 0), ReadKey(vip, exact, p.flow);
      BalanceLimitedFrom(c, s, s1, vip, k, p);
      BalanceLimitedFrom(c, s, Unrouted(s1, p.quicIndex), vip, k, p);
      hide Limited, Bump, Unrouted, Routed, ReadKey;
      if 0 < p.quicIndex < MAX_REALS {
        RoutedLimited(s, vip, p, c.quicMapping[p.quicIndex]);
      }
    }
  }

  ghost predicate Ordered(es: seq<Event>) {
    && ValidEvents(es)
    && (forall i :: 0 <= i < |es| && es[i].Arrive? ==> es[i].p.now < TWO_64)
    && (forall i, j :: 0 <= i < j < |es| && es[i].Arrive? && es[j].Arrive? ==> es[i].p.now <= es[j].p.now)
  }

  /** How many entries a run stores in the second after lo. */
  function Insertions(w: World, es: seq<Event>, lo: nat): nat
    requires ValidWorld(w) && ValidEvents(es)
  {
    if es == [] then 0
    else
      var before, e := Run(w, es[..|es| - 1]), es[|es| - 1];
      Insertions(w, es[..|es| - 1], lo)
      + if e.Arrive? && InWindow(lo, e.p.now) && Stores(before.c, before.s, e.p) then 1 else 0
  }

  ghost predicate At(es: seq<Event>, t: nat) {
    exists i :: 0 <= i < |es| && es[i].Arrive? && es[i].p.now == t
  }

  ghost predicate Times(es: seq<Event>, ts: seq<nat>) {
    Clock(Stat(0, 0), ts) && forall j :: 0 <= j < |ts| ==> At(es, ts[j])
  }

  /** Times of earlier packets stay in order with the last packet's. */
  lemma StillTimes(es: seq<Event>, ts: seq<nat>)
    requires Ordered(es) && es != [] && Times(es[..|es| - 1], ts)
    ensures Times(es, ts)
    ensures var e := es[|es| - 1]; e.Arrive? ==> Times(es, ts + [e.p.now])
  {
    var n := |es| - 1;
    forall j | 0 <= j < |ts|
      ensures At(es, ts[j]) && (es[n].Arrive? ==> ts[j] <= es[n].p.now)
    {
      assert At(es[..n], ts[j]);
      var i :| 0 <= i < n && es[..n][i].Arrive? && es[..n][i].p.now == ts[j];
      assert es[i].Arrive? && es[i].p.now == ts[j];
    }
    if es[n].Arrive? {
      assert At(es, es[n].p.now);
    }
  }

  lemma {:induction false} RunLimited(c: Config, es: seq<Event>, lo: nat) returns (ts: seq<nat>)
    requires ValidConfig(c) && Ordered(es)
    ensures var w := World(c, Initial());
            && Times(es, ts)
            && Run(w, es).s.stats[NEW_CONN_RATE] == RateRun(Stat(0, 0), ts)
            && Insertions(w, es, lo) <= AdmittedIn(Stat(0, 0), ts, lo)
  {
    if es == [] {
      ts := [];
    } else {
      hide Process, Rate, AdmittedIn, RateRun, Initial, Times, Stores, SameDestinations;
      var n := |es| - 1;
      ts := RunLimited(c, es[..n], lo);
      StillTimes(es, ts);
      var before, e := Run(World(c, Initial()), es[..n]), es[n];
      if e.Arrive? {
        ProcessLimited(before.c, before.s, e.p);
        var after := Process(before.c, before.s, e.p).0;
        if Stores(before.c, before.s, e.p) || after.stats[NEW_CONN_RATE] != before.s.stats[NEW_CONN_RATE] {
          OneLater(Stat(0, 0), ts, e.p.now, lo);
          ts := ts + [e.p.now];
        }
      }
    }
  }

  /** Under whatever traffic, at most twice the limit of entries are stored in any second. */
  lemma InsertionBound(c: Config, es: seq<Event>, lo: nat)
    requires ValidConfig(c) && Ordered(es)
    ensures Insertions(World(c, Initial()), es, lo) <= 2 * MAX_CONN_RATE
  {
    var ts := RunLimited(c, es, lo);
    RateBound(Stat(0, 0), ts, lo);
  }
}
