/** The stateful firewall of ebpf-nfs/fw/xdp_fw_kern.h: a packet from outside passes only on a flow that was
    opened from inside. */
module Firewalls {
  import opened Checksums
  import opened Options

  const A_PORT := 6
  const B_PORT := 7
  const MAX_FLOWS := 1024
  const IPPROTO_TCP: byte := 6
  const IPPROTO_UDP: byte := 17

  /** The fields of flow_ctx_table_key. */
  datatype Key = Key(proto: byte, src: nat, dst: nat, sport: nat, dport: nat)

  datatype Leaf = Leaf(inPort: nat, outPort: nat)

  datatype Verdict = Drop | Redirect(port: nat)

  datatype Arrival = Arrival(frame: Bytes, ifindex: nat)

  // ----- the flow of a packet

  function Load32(b: Bytes, i: nat): nat
    requires i + 4 <= |b|
  {
    Word32(Load16(b, i), Load16(b, i + 2))
  }

  /** TCP or UDP over IPv4, as far as the headers reach; the IPv4 header length is not looked at. */
  function FlowOf(f: Bytes): Option<Key> {
    if |f| < 14 || f[12..14] != [8, 0] || |f| < 34 then None
    else if (f[23] != IPPROTO_TCP && f[23] != IPPROTO_UDP) || |f| < 42 then None
    else Some(Key(f[23], Load32(f, 26), Load32(f, 30), Load16(f, 34), Load16(f, 36)))
  }

  /** biflow: the smaller address first, the smaller port first. */
  function Biflow(k: Key): Key {
    var ips := if k.src > k.dst then k.(src := k.dst, dst := k.src) else k;
    if ips.sport > ips.dport then ips.(sport := ips.dport, dport := ips.sport) else ips
  }

  function Reply(k: Key): Key {
    k.(src := k.dst, dst := k.src, sport := k.dport, dport := k.sport)
  }

  predicate SamePair(a: nat, b: nat, c: nat, d: nat) {
    (a == c && b == d) || (a == d && b == c)
  }

  /** A flow and its replies share a table entry; so does every flow between the same two addresses and
      the same two ports, however they are combined. */
  lemma BiflowIff(k: Key, l: Key)
    ensures Biflow(k) == Biflow(l)
            <==> k.proto == l.proto && SamePair(k.src, k.dst, l.src, l.dst)
                 && SamePair(k.sport, k.dport, l.sport, l.dport)
  {
  }

  /** The entry lets in nothing but the flow and its replies exactly when the addresses or the ports of
      the flow are equal. */
  lemma OnlyRepliesIff(k: Key)
    ensures (forall l :: Biflow(l) == Biflow(k) ==> l == k || l == Reply(k)) <==> k.src == k.dst || k.sport == k.dport
  {
    var crossed := k.(src := k.dst, dst := k.src);
    BiflowIff(crossed, k);
    forall l | Biflow(l) == Biflow(k) && (k.src == k.dst || k.sport == k.dport)
      ensures l == k || l == Reply(k)
    {
      BiflowIff(l, k);
    }
  }

  // ----- the program

  type Table = map<Key, Leaf>

  /** A BPF hash map takes no new key when it is full. */
  function Updated(table: Table, k: Key, leaf: Leaf): Table {
    if k !in table && |table| >= MAX_FLOWS then table else table[k := leaf]
  }

  class Firewall {
    var flows: Table

    constructor ()
      ensures flows == map[]
    {
      flows := map[];
    }

    /** xdp_fw_prog. */
    method Process(p: Arrival) returns (v: Verdict)
      modifies this
      ensures flows == Next(old(flows), p)
      ensures v == Answer(old(flows), p)
    {
      var flow := FlowOf(p.frame);
      if flow.None? {
        return Drop;
      }
      var key := flow.value;
      if key.src > key.dst {
        key := key.(src := key.dst, dst := key.src);
      }
      if key.sport > key.dport {
        key := key.(sport := key.dport, dport := key.sport);
      }
      if p.ifindex == B_PORT {
        if key in flows {
          return Redirect(flows[key].outPort);
        }
        return Drop;
      }
      if key !in flows {
        flows := Updated(flows, key, Leaf(B_PORT, A_PORT));
      }
      return Redirect(B_PORT);
    }
  }

  function Next(table: Table, p: Arrival): Table {
    var flow := FlowOf(p.frame);
    if flow.None? || p.ifindex == B_PORT || Biflow(flow.value) in table then table
    else Updated(table, Biflow(flow.value), Leaf(B_PORT, A_PORT))
  }

  function Answer(table: Table, p: Arrival): Verdict {
    match FlowOf(p.frame)
    case None => Drop
    case Some(k) =>
      if p.ifindex != B_PORT then Redirect(B_PORT)
      else if Biflow(k) in table then Redirect(table[Biflow(k)].outPort)
      else Drop
  }

  // ----- over every run

  function Run(ps: seq<Arrival>): Table {
    if ps == [] then map[] else Next(Run(ps[..|ps| - 1]), ps[|ps| - 1])
  }

  /** The packet opens the flow with key k from inside. */
  predicate Opens(p: Arrival, k: Key) {
    p.ifindex != B_PORT && FlowOf(p.frame).Some? && Biflow(FlowOf(p.frame).value) == k
  }

  /** The flows opened from inside. */
  function Opened(ps: seq<Arrival>): set<Key> {
    if ps == [] then {}
    else
      var p := ps[|ps| - 1];
      Opened(ps[..|ps| - 1])
      + if FlowOf(p.frame).Some? && p.ifindex != B_PORT then {Biflow(FlowOf(p.frame).value)} else {}
  }

  lemma {:induction false} OpenedIff(ps: seq<Arrival>, k: Key)
    ensures k in Opened(ps) <==> exists i :: 0 <= i < |ps| && Opens(ps[i], k)
  {
    hide FlowOf, Biflow;
    if ps != [] {
      var n := |ps| - 1;
      OpenedIff(ps[..n], k);
      if i :| 0 <= i < n && Opens(ps[..n][i], k) {
        assert Opens(ps[i], k);
      }
      if i :| 0 <= i < n && Opens(ps[i], k) {
        assert Opens(ps[..n][i], k);
      }
    }
  }

  /** Only opened flows, as many as fit; all of them if they fit. */
  ghost predicate Holds(table: Table, flows: set<Key>) {
    && table.Keys <= flows
    && |table| == (if |flows| < MAX_FLOWS then |flows| else MAX_FLOWS)
    && (|flows| <= MAX_FLOWS ==> table.Keys == flows)
    && (forall k :: k in table ==> table[k] == Leaf(B_PORT, A_PORT))
  }

  /** What the table holds after every run. */
  lemma {:induction false} TableIsOpened(ps: seq<Arrival>)
    ensures Holds(Run(ps), Opened(ps))
  {
    if ps != [] {
      TableIsOpened(ps[..|ps| - 1]);
      OneMoreFlow(Run(ps[..|ps| - 1]), Opened(ps[..|ps| - 1]), ps[|ps| - 1]);
    }
  }

  lemma OneMoreFlow(table: Table, flows: set<Key>, p: Arrival)
    requires Holds(table, flows)
    ensures var more := if FlowOf(p.frame).Some? && p.ifindex != B_PORT then {Biflow(FlowOf(p.frame).value)} else {};
            Holds(Next(table, p), flows + more)
  {
    hide FlowOf, Biflow;
    if FlowOf(p.frame).Some? && p.ifindex != B_PORT {
      hide Holds;
      OneMoreKey(table, flows, Biflow(FlowOf(p.frame).value));
    } else {
      assert flows + {} == flows;
    }
  }

  lemma OneMoreKey(table: Table, flows: set<Key>, k: Key)
    requires Holds(table, flows)
    ensures Holds(if k in table then table else Updated(table, k, Leaf(B_PORT, A_PORT)), flows + {k})
  {
    assert |table.Keys| == |table|;
    if k in flows {
      assert flows + {k} == flows;
      SizeOrFull(table.Keys, flows);
    } else {
      assert table[k := Leaf(B_PORT, A_PORT)].Keys == table.Keys + {k};
    }
  }

  /** A full table misses some of too many flows. */
  lemma SizeOrFull(keys: set<Key>, flows: set<Key>)
    requires keys <= flows
    ensures |keys| <= |flows| && (|keys| == |flows| ==> keys == flows)
  {
    assert flows == keys + (flows - keys);
  }

  /** Packet i is the first to open flow k, and fewer than 1024 flows were opened before it. */
  ghost predicate InTime(ps: seq<Arrival>, k: Key, i: int) {
    0 <= i < |ps| && Opens(ps[i], k) && k !in Opened(ps[..i]) && |Opened(ps[..i])| < MAX_FLOWS
  }

  /** Which flows the table holds, full or not. */
  lemma {:induction false} InTableIff(ps: seq<Arrival>, k: Key)
    ensures k in Run(ps) <==> exists i :: InTime(ps, k, i)
  {
    hide FlowOf, Biflow;
    if ps != [] {
      var n := |ps| - 1;
      var before := ps[..n];
      InTableIff(before, k);
      TableIsOpened(before);
      forall i | 0 <= i < n
        ensures InTime(before, k, i) <==> InTime(ps, k, i)
      {
        assert before[..i] == ps[..i];
      }
      if k in Run(before) {
        var i :| InTime(before, k, i);
        assert InTime(ps, k, i);
      } else if k in Run(ps) {
        assert InTime(ps, k, n);
      } else if i :| InTime(ps, k, i) {
        StillIn(ps, k, i);
      }
    }
  }

  lemma StillIn(ps: seq<Arrival>, k: Key, i: int)
    requires ps != [] && InTime(ps, k, i) && (i < |ps| - 1 ==> k in Run(ps[..|ps| - 1]))
    ensures k in Run(ps)
  {
    hide FlowOf, Biflow;
    TableIsOpened(ps[..|ps| - 1]);
  }

  /** From outside, a packet is let in exactly when a packet of the same flow, in the sense of BiflowIff,
      went out earlier, the first of them while fewer than 1024 flows had been opened; it leaves on the
      inner port, and every other packet is dropped. */
  lemma AdmittedIff(ps: seq<Arrival>, p: Arrival)
    requires p.ifindex == B_PORT && FlowOf(p.frame).Some?
    ensures var k := Biflow(FlowOf(p.frame).value);
            Answer(Run(ps), p) == if exists i :: InTime(ps, k, i) then Redirect(A_PORT) else Drop
  {
    hide FlowOf, Biflow;
    TableIsOpened(ps);
    InTableIff(ps, Biflow(FlowOf(p.frame).value));
  }

  /** While at most 1024 flows are opened in all, that is every flow opened earlier. */
  lemma AdmittedWhileRoom(ps: seq<Arrival>, p: Arrival)
    requires p.ifindex == B_PORT && FlowOf(p.frame).Some? && |Opened(ps)| <= MAX_FLOWS
    ensures var k := Biflow(FlowOf(p.frame).value);
            Answer(Run(ps), p) == if exists i :: 0 <= i < |ps| && Opens(ps[i], k) then Redirect(A_PORT) else Drop
  {
    hide FlowOf, Biflow;
    TableIsOpened(ps);
    OpenedIff(ps, Biflow(FlowOf(p.frame).value));
  }

  // ----- the same on the bytes of the frames

  /** TCP or UDP over IPv4 with at least eight bytes after the fixed IPv4 header. */
  predicate Readable(f: Bytes) {
    |f| >= 42 && f[12] == 8 && f[13] == 0 && (f[23] == 6 || f[23] == 17)
  }

  predicate Unordered(a: Bytes, b: Bytes, c: Bytes, d: Bytes) {
    (a == c && b == d) || (a == d && b == c)
  }

  /** The same protocol, the same two addresses and the same two ports. */
  predicate SameFlow(f: Bytes, g: Bytes)
    requires Readable(f) && Readable(g)
  {
    && f[23] == g[23]
    && Unordered(f[26..30], f[30..34], g[26..30], g[30..34])
    && Unordered(f[34..36], f[36..38], g[34..36], g[36..38])
  }

  /** Frames that are not readable are dropped on either side and leave the table alone; readable frames
      from inside all go out. */
  lemma VerdictOnBytes(table: Table, p: Arrival)
    ensures !Readable(p.frame) ==> Answer(table, p) == Drop && Next(table, p) == table
    ensures Readable(p.frame) && p.ifindex != 7 ==> Answer(table, p) == Redirect(7)
  {
    hide Load32, Load16, Biflow;
    ReadableIff(p.frame);
  }

  lemma ReadableIff(f: Bytes)
    ensures FlowOf(f).Some? <==> Readable(f)
  {
    hide Load32, Load16;
    if |f| >= 14 {
      assert f[12..14] == [f[12], f[13]];
    }
  }

  lemma Load16Injective(f: Bytes, i: nat, g: Bytes, j: nat)
    requires i + 2 <= |f| && j + 2 <= |g|
    ensures Load16(f, i) == Load16(g, j) <==> f[i..i + 2] == g[j..j + 2]
  {
    assert f[i..i + 2] == [f[i], f[i + 1]] && g[j..j + 2] == [g[j], g[j + 1]];
  }

  lemma Load32Injective(f: Bytes, i: nat, g: Bytes, j: nat)
    requires i + 4 <= |f| && j + 4 <= |g|
    ensures Load32(f, i) == Load32(g, j) <==> f[i..i + 4] == g[j..j + 4]
  {
    Load16Injective(f, i, g, j);
    Load16Injective(f, i + 2, g, j + 2);
    Word32Injective(Load16(f, i), Load16(f, i + 2), Load16(g, j), Load16(g, j + 2));
    Halves(f, i, g, j);
    hide Load16, Word32;
  }

  lemma Word32Injective(lo: nat, hi: nat, lo': nat, hi': nat)
    requires lo <= ALL_ONES && hi <= ALL_ONES && lo' <= ALL_ONES && hi' <= ALL_ONES
    ensures Word32(lo, hi) == Word32(lo', hi') <==> lo == lo' && hi == hi'
  {
  }

  lemma Halves(f: Bytes, i: nat, g: Bytes, j: nat)
    requires i + 4 <= |f| && j + 4 <= |g|
    ensures f[i..i + 4] == g[j..j + 4] <==> f[i..i + 2] == g[j..j + 2] && f[i + 2..i + 4] == g[j + 2..j + 4]
  {
    var a, b := f[i..i + 4], g[j..j + 4];
    assert a[..2] == f[i..i + 2] && a[2..] == f[i + 2..i + 4] && b[..2] == g[j..j + 2] && b[2..] == g[j + 2..j + 4];
    assert a == a[..2] + a[2..] && b == b[..2] + b[2..];
  }

  /** Two readable frames share a table entry exactly when they are of the same flow on their bytes. */
  lemma SameFlowIff(f: Bytes, g: Bytes)
    requires Readable(f) && Readable(g)
    ensures FlowOf(f).Some? && FlowOf(g).Some?
    ensures Biflow(FlowOf(f).value) == Biflow(FlowOf(g).value) <==> SameFlow(f, g)
  {
    ReadableIff(f);
    ReadableIff(g);
    BiflowIff(FlowOf(f).value, FlowOf(g).value);
    AddressesMatch(f, g);
    PortsMatch(f, g);
    hide Biflow, Load16, Load32, SamePair, Unordered;
  }

  lemma AddressesMatch(f: Bytes, g: Bytes)
    requires |f| >= 34 && |g| >= 34
    ensures SamePair(Load32(f, 26), Load32(f, 30), Load32(g, 26), Load32(g, 30))
            <==> Unordered(f[26..30], f[30..34], g[26..30], g[30..34])
  {
    hide Load32;
    Load32Injective(f, 26, g, 26);
    Load32Injective(f, 26, g, 30);
    Load32Injective(f, 30, g, 26);
    Load32Injective(f, 30, g, 30);
  }

  lemma PortsMatch(f: Bytes, g: Bytes)
    requires |f| >= 38 && |g| >= 38
    ensures SamePair(Load16(f, 34), Load16(f, 36), Load16(g, 34), Load16(g, 36))
            <==> Unordered(f[34..36], f[36..38], g[34..36], g[36..38])
  {
    hide Load16;
    Load16Injective(f, 34, g, 34);
    Load16Injective(f, 34, g, 36);
    Load16Injective(f, 36, g, 34);
    Load16Injective(f, 36, g, 36);
  }

  predicate Outward(p: Arrival) {
    p.ifindex != 7 && Readable(p.frame)
  }

  /** Frame i is the first of its flow to go out. */
  ghost predicate Begins(ps: seq<Arrival>, i: int) {
    && 0 <= i < |ps| && Outward(ps[i])
    && forall j :: 0 <= j < i && Outward(ps[j]) ==> !SameFlow(ps[j].frame, ps[i].frame)
  }

  /** How many flows have gone out. */
  ghost function Flows(ps: seq<Arrival>): nat {
    if ps == [] then 0 else Flows(ps[..|ps| - 1]) + if Begins(ps, |ps| - 1) then 1 else 0
  }

  lemma OpensIff(p: Arrival, g: Bytes)
    requires Readable(g)
    ensures FlowOf(g).Some?
    ensures Opens(p, Biflow(FlowOf(g).value)) <==> Outward(p) && SameFlow(p.frame, g)
  {
    ReadableIff(g);
    ReadableIff(p.frame);
    if Readable(p.frame) {
      SameFlowIff(p.frame, g);
    }
    hide FlowOf, Biflow;
  }

  lemma BeginsIff(ps: seq<Arrival>, i: nat)
    requires i < |ps| && Outward(ps[i])
    ensures FlowOf(ps[i].frame).Some?
    ensures Begins(ps, i) <==> Biflow(FlowOf(ps[i].frame).value) !in Opened(ps[..i])
  {
    var g := ps[i].frame;
    ReadableIff(g);
    hide FlowOf, Biflow, SameFlow, Readable;
    OpenedIff(ps[..i], Biflow(FlowOf(g).value));
    forall j | 0 <= j < i
      ensures Opens(ps[..i][j], Biflow(FlowOf(g).value)) <==> Outward(ps[j]) && SameFlow(ps[j].frame, g)
    {
      OpensIff(ps[j], g);
    }
    hide Opened, Opens;
  }

  lemma {:induction false} FlowsAreOpened(ps: seq<Arrival>)
    ensures Flows(ps) == |Opened(ps)|
  {
    if ps != [] {
      var n := |ps| - 1;
      FlowsAreOpened(ps[..n]);
      hide Begins, FlowOf, Biflow, Readable;
      OneMoreOpened(ps, n);
    }
  }

  lemma OneMoreOpened(ps: seq<Arrival>, n: nat)
    requires n + 1 == |ps|
    ensures |Opened(ps)| == |Opened(ps[..n])| + if Begins(ps, n) then 1 else 0
  {
    ReadableIff(ps[n].frame);
    var before := Opened(ps[..n]);
    hide Begins, FlowOf, Biflow, Readable;
    if Outward(ps[n]) {
      BeginsIff(ps, n);
      var k := Biflow(FlowOf(ps[n].frame).value);
      assert Opened(ps) == before + {k};
      assert k in before ==> before + {k} == before;
    } else {
      NotOutward(ps, n);
      assert Opened(ps) == before + {};
      assert before + {} == before;
    }
  }

  lemma NotOutward(ps: seq<Arrival>, n: nat)
    requires n < |ps| && !Outward(ps[n])
    ensures !Begins(ps, n)
  {
  }

  /** After every run, a frame from outside is let in, on port 6, exactly when it is readable and the first
      frame of its flow that went out did so as one of the first 1024 flows; otherwise it is dropped. */
  lemma AdmittedOnBytes(ps: seq<Arrival>, p: Arrival)
    requires p.ifindex == 7
    ensures Answer(Run(ps), p)
            == if Readable(p.frame)
                  && exists i :: Begins(ps, i) && SameFlow(ps[i].frame, p.frame) && Flows(ps[..i]) < 1024
               then Redirect(6) else Drop
  {
    var g := p.frame;
    ReadableIff(g);
    if Readable(g) {
      var k := Biflow(FlowOf(g).value);
      AdmittedIff(ps, p);
      forall i
        ensures InTime(ps, k, i) <==> Begins(ps, i) && SameFlow(ps[i].frame, g) && Flows(ps[..i]) < 1024
      {
        if 0 <= i < |ps| {
          OpensIff(ps[i], g);
          FlowsAreOpened(ps[..i]);
          if Outward(ps[i]) {
            BeginsIff(ps, i);
            SameFlowIff(ps[i].frame, g);
          }
        }
      }
    }
  }

  /** While at most 1024 flows have gone out, that is every flow of which a frame went out. */
  lemma AdmittedOnBytesWhileRoom(ps: seq<Arrival>, p: Arrival)
    requires p.ifindex == 7 && Flows(ps) <= 1024
    ensures Answer(Run(ps), p)
            == if Readable(p.frame) && exists i :: 0 <= i < |ps| && Outward(ps[i]) && SameFlow(ps[i].frame, p.frame)
               then Redirect(6) else Drop
  {
    FlowsAreOpened(ps);
    ReadableIff(p.frame);
    if Readable(p.frame) {
      AdmittedWhileRoom(ps, p);
      forall i | 0 <= i < |ps|
        ensures Opens(ps[i], Biflow(FlowOf(p.frame).value))
                <==> Outward(ps[i]) && SameFlow(ps[i].frame, p.frame)
      {
        OpensIff(ps[i], p.frame);
      }
    }
  }
}
