/** IP-in-IP encapsulation and decapsulation: ebpf-nfs/katran/pckt_encap.h, encap_helpers.h and
    process_encaped_ipip_pckt of balancer_kern.h. */
module Encap {
  import opened Bits
  import opened Checksums
  import opened Packets
  import opened Ipv4

  const TYPE_IPV4: Bytes := [8, 0]
  const TYPE_IPV6: Bytes := [0x86, 0xDD]
  const IPIP_V4_PREFIX: Bytes := [172, 16]
  const IPIP_V6_PREFIX: Bytes := [1, 0, 0, 0, 0, 0, 0, 0, 0, 0, 0, 0]

  function Xor(a: byte, b: byte): byte {
    assert Pow2(8) == 256;
    XorBits(a, b, 8)
  }

  // ----- the IPv6 header

  /** Section 3 of RFC 8200, with a flow label of zero. */
  function V6Header(tc: byte, payloadLen: nat, proto: byte, saddr: Bytes, daddr: Bytes): Bytes {
    [0x60 + tc / 16, tc % 16 * 16, 0, 0] + BigEndian16(payloadLen) + [proto, DEFAULT_TTL] + saddr + daddr
  }

  lemma TrafficClassKept(tc: byte, payloadLen: nat, proto: byte, saddr: Bytes, daddr: Bytes)
    ensures var h := V6Header(tc, payloadLen, proto, saddr, daddr);
            h[0] / 16 == 6 && h[0] % 16 * 16 + h[1] / 16 == tc
  {
  }

  method CreateV6Hdr(p: Packet, off: nat, tc: byte, saddr: Bytes, daddr: Bytes, payloadLen: nat, proto: byte)
    requires p.Valid() && off + IPV6_HDR <= p.dataEnd - p.data
    requires |saddr| == 16 && |daddr| == 16
    modifies p.buf
    ensures p.buf[..p.data] == old(p.buf[..p.data])
    ensures p.Frame() == Splice(old(p.Frame()), off, V6Header(tc, payloadLen, proto, saddr, daddr))
  {
    ghost var f := p.Frame();
    ghost var h := f[off..off + IPV6_HDR];
    assert f == Splice(f, off, h);
    h := WriteField(p, off, 1, [0, 0, 0], f, h);
    h := WriteField(p, off, 0, [0x60 + tc / 16], f, h);
    h := WriteField(p, off, 1, [tc % 16 * 16], f, h);
    h := WriteField(p, off, 6, [proto], f, h);
    h := WriteField(p, off, 4, BigEndian16(payloadLen), f, h);
    h := WriteField(p, off, 7, [DEFAULT_TTL], f, h);
    h := WriteField(p, off, 8, saddr, f, h);
    h := WriteField(p, off, 24, daddr, f, h);
    V6FieldsInPlace(f[off..off + IPV6_HDR], tc, payloadLen, proto, saddr, daddr);
  }

  lemma V6FieldsInPlace(h: Bytes, tc: byte, payloadLen: nat, proto: byte, saddr: Bytes, daddr: Bytes)
    requires |h| == IPV6_HDR && |saddr| == 16 && |daddr| == 16
    ensures var h1 := Splice(Splice(Splice(h, 1, [0, 0, 0]), 0, [0x60 + tc / 16]), 1, [tc % 16 * 16]);
            var h2 := Splice(Splice(Splice(h1, 6, [proto]), 4, BigEndian16(payloadLen)), 7, [DEFAULT_TTL]);
            Splice(Splice(h2, 8, saddr), 24, daddr) == V6Header(tc, payloadLen, proto, saddr, daddr)
  {
    hide BigEndian16, Splice;
    var len := BigEndian16(payloadLen);
    assert |len| == 2 by { BigEndianSize(payloadLen); }
    var tail := h[4..6] + [h[6]] + [h[7]] + h[8..24] + h[24..];
    assert h == [h[0]] + h[1..4] + tail;
    V6First([h[0]], h[1..4], tail, [0x60 + tc / 16], [tc % 16 * 16]);
    var first: Bytes := [0x60 + tc / 16, tc % 16 * 16, 0, 0];
    assert [0x60 + tc / 16] + [tc % 16 * 16] + [0, 0] + tail
           == first + h[4..6] + [h[6]] + [h[7]] + (h[8..24] + h[24..]);
    V6Middle(first, h[4..6], [h[6]], [h[7]], h[8..24] + h[24..], len, proto);
    V6Addrs(first + len + [proto] + [DEFAULT_TTL], h[8..24], h[24..], saddr, daddr);
    assert first + len + [proto] + [DEFAULT_TTL] + saddr + daddr == V6Header(tc, payloadLen, proto, saddr, daddr);
  }

  lemma V6First(v: Bytes, flow: Bytes, tail: Bytes, first: Bytes, second: Bytes)
    requires |v| == 1 && |flow| == 3 && |first| == 1 && |second| == 1
    ensures Splice(Splice(Splice(v + flow + tail, 1, [0, 0, 0]), 0, first), 1, second)
            == first + second + [0, 0] + tail
  {
    hide Splice;
    SpliceParts(v, flow, [0, 0, 0], tail);
    assert v + [0, 0, 0] + tail == [] + v + ([0, 0, 0] + tail);
    SpliceParts([], v, first, [0, 0, 0] + tail);
    assert [] + first + ([0, 0, 0] + tail) == first + [0] + ([0, 0] + tail);
    SpliceParts(first, [0], second, [0, 0] + tail);
  }

  lemma V6Middle(first: Bytes, l: Bytes, p: Bytes, hops: Bytes, tail: Bytes, len: Bytes, proto: byte)
    requires |first| == 4 && |l| == 2 && |p| == 1 && |hops| == 1 && |len| == 2
    ensures Splice(Splice(Splice(first + l + p + hops + tail, 6, [proto]), 4, len), 7, [DEFAULT_TTL])
            == first + len + [proto] + [DEFAULT_TTL] + tail
  {
    hide Splice;
    assert first + l + p + hops + tail == (first + l) + p + (hops + tail);
    SpliceParts(first + l, p, [proto], hops + tail);
    assert (first + l) + [proto] + (hops + tail) == first + l + ([proto] + hops + tail);
    SpliceParts(first, l, len, [proto] + hops + tail);
    assert first + len + ([proto] + hops + tail) == (first + len + [proto]) + hops + tail;
    SpliceParts(first + len + [proto], hops, [DEFAULT_TTL], tail);
  }

  lemma V6Addrs(pre: Bytes, s: Bytes, d: Bytes, saddr: Bytes, daddr: Bytes)
    requires |pre| == 8 && |s| == 16 && |d| == 16 && |saddr| == 16 && |daddr| == 16
    ensures Splice(Splice(pre + (s + d), 8, saddr), 24, daddr) == pre + saddr + daddr
  {
    hide Splice;
    assert pre + (s + d) == pre + s + d;
    SpliceParts(pre, s, saddr, d);
    assert pre + saddr + d == (pre + saddr) + d + [];
    SpliceParts(pre + saddr, d, daddr, []);
  }

  // ----- encapsulation

  /** The frame f behind a new Ethernet header and an outer IP header; the old Ethernet header is
      overwritten, its destination kept as the new source. */
  function Encapsulated(f: Bytes, mac: Bytes, etherType: Bytes, outer: Bytes): Bytes
    requires |f| >= ETH_HLEN
  {
    mac + f[..6] + etherType + outer + f[ETH_HLEN..]
  }

  /** The outer IPv4 source: a fixed prefix and a suffix that spreads flows. */
  function V4Source(src: Bytes, port: Bytes): (r: Bytes)
    requires |src| == 4 && |port| == 2
    ensures |r| == 4
  {
    IPIP_V4_PREFIX + [Xor(src[2], port[1]), Xor(src[3], port[0])]
  }

  function V6Source(word: Bytes, port: Bytes): (r: Bytes)
    requires |word| == 4 && |port| == 2
    ensures |r| == 16
  {
    IPIP_V6_PREFIX + [Xor(word[0], port[0]), Xor(word[1], port[1]), word[2], word[3]]
  }

  /** Make room for n bytes, then write the new Ethernet header around the old one's destination. */
  method Grow(p: Packet, n: nat, mac: Bytes, etherType: Bytes) returns (ok: bool)
    requires p.Valid() && |mac| == 6 && |etherType| == 2 && n >= ETH_HLEN
    modifies p`data, p.buf
    ensures p.Valid() && p.dataEnd == old(p.dataEnd)
    ensures ok <==> old(p.data) >= n && |old(p.Frame())| >= ETH_HLEN
    ensures old(p.data) < n ==> p.data == old(p.data) && p.Frame() == old(p.Frame())
    ensures ok ==> p.data == old(p.data) - n
                   && p.Frame() == mac + old(p.Frame()[..6]) + etherType
                                   + (old(p.buf[p.data - n + ETH_HLEN..p.data]) + old(p.Frame()))
  {
    ghost var f := p.Frame();
    var failed := p.AdjustHead(0 - n);
    if failed {
      return false;
    }
    if p.data + ETH_HLEN > p.dataEnd || p.data + n + ETH_HLEN > p.dataEnd {
      return false;
    }
    ghost var g := p.Frame();
    ghost var room := old(p.buf[p.data - n..p.data]);
    assert g == room + f && room[ETH_HLEN..] == old(p.buf[p.data - n + ETH_HLEN..p.data]);
    assert g[n..n + 6] == f[..6] && g[ETH_HLEN..] == room[ETH_HLEN..] + f;
    p.Write(0, mac);
    var dest := p.Read(n, 6);
    assert dest == g[n..n + 6];
    p.Write(6, dest);
    p.Write(12, etherType);
    NewEthernet(g, mac, f[..6], etherType);
    return true;
  }

  lemma NewEthernet(g: Bytes, dst: Bytes, src: Bytes, etherType: Bytes)
    requires |dst| == 6 && |src| == 6 && |etherType| == 2 && |g| >= ETH_HLEN
    ensures Splice(Splice(Splice(g, 0, dst), 6, src), 12, etherType) == dst + src + etherType + g[ETH_HLEN..]
  {
  }

  lemma OuterHeader(g: Bytes, f: Bytes, mac: Bytes, etherType: Bytes, room: Bytes, outer: Bytes)
    requires |mac| == 6 && |etherType| == 2 && |f| >= ETH_HLEN && |outer| == |room| + ETH_HLEN
    requires g == mac + f[..6] + etherType + (room + f)
    ensures Splice(g, ETH_HLEN, outer) == Encapsulated(f, mac, etherType, outer)
  {
  }

  /** encap_v4: an IPIP header in front of the packet. The identification is whatever the headroom held. */
  method EncapV4(p: Packet, mac: Bytes, tos: byte, src: Bytes, port: Bytes, dst: Bytes, pktBytes: nat)
    returns (ok: bool)
    requires p.Valid() && |mac| == 6 && |src| == 4 && |port| == 2 && |dst| == 4 && pktBytes <= ALL_ONES
    modifies p`data, p.buf
    ensures p.Valid()
    ensures ok <==> old(p.data) >= IPV4_HDR && |old(p.Frame())| >= ETH_HLEN
    ensures ok ==> var id := old(p.buf[p.data - 2..p.data]);
                   var len := (pktBytes + IPV4_HDR) % 0x1_0000;
                   var outer := V4Header(tos, len, id, IPPROTO_IPIP, V4Source(src, port), dst);
                   p.Frame() == Encapsulated(old(p.Frame()), mac, TYPE_IPV4, outer)
  {
    hide V4Header, V4Source;
    ghost var f := p.Frame();
    ok := Grow(p, IPV4_HDR, mac, TYPE_IPV4);
    if ok {
      ghost var g := p.Frame();
      ghost var room := old(p.buf[p.data - IPV4_HDR + ETH_HLEN..p.data]);
      CreateV4Hdr(p, ETH_HLEN, tos, V4Source(src, port), dst, pktBytes, IPPROTO_IPIP);
      assert g[18..20] == room[4..6] == old(p.buf[p.data - 2..p.data]);
      HeaderVerifies(tos, (pktBytes + IPV4_HDR) % 0x1_0000, g[18..20], IPPROTO_IPIP, V4Source(src, port), dst);
      OuterHeader(g, f, mac, TYPE_IPV4, room,
                  V4Header(tos, (pktBytes + IPV4_HDR) % 0x1_0000, g[18..20], IPPROTO_IPIP, V4Source(src, port), dst));
    }
  }

  /** encap_v6: an IPv6 header in front of a packet of either family. */
  method EncapV6(p: Packet, mac: Bytes, isV6: bool, tos: byte, src: Bytes, port: Bytes, dst: Bytes, pktBytes: nat)
    returns (ok: bool)
    requires p.Valid() && |mac| == 6 && |src| == (if isV6 then 16 else 4) && |port| == 2 && |dst| == 16
    requires pktBytes <= ALL_ONES
    modifies p`data, p.buf
    ensures p.Valid()
    ensures ok <==> old(p.data) >= IPV6_HDR && |old(p.Frame())| >= ETH_HLEN
    ensures ok ==> var len := (pktBytes + IPV6_HDR) % 0x1_0000;
                   var outer := if isV6 then V6Header(tos, len, IPPROTO_IPV6, V6Source(src[12..], port), dst)
                                else V6Header(tos, pktBytes, IPPROTO_IPIP, V6Source(src, port), dst);
                   p.Frame() == Encapsulated(old(p.Frame()), mac, TYPE_IPV6, outer)
  {
    hide V6Source;
    ghost var f := p.Frame();
    ok := Grow(p, IPV6_HDR, mac, TYPE_IPV6);
    if ok {
      ghost var g := p.Frame();
      ghost var room := old(p.buf[p.data - IPV6_HDR + ETH_HLEN..p.data]);
      var proto, word, payloadLen := IPPROTO_IPIP, src, pktBytes;
      if isV6 {
        proto, word, payloadLen := IPPROTO_IPV6, src[12..], (pktBytes + IPV6_HDR) % 0x1_0000;
      }
      CreateV6Hdr(p, ETH_HLEN, tos, V6Source(word, port), dst, payloadLen, proto);
      OuterHeader(g, f, mac, TYPE_IPV6, room, V6Header(tos, payloadLen, proto, V6Source(word, port), dst));
    }
  }

  // ----- decapsulation

  /** The frame f with the n bytes after its Ethernet header removed. */
  function Decapsulated(f: Bytes, n: nat, etherType: Bytes): Bytes
    requires n + ETH_HLEN <= |f|
  {
    f[..12] + etherType + f[n + ETH_HLEN..]
  }

  /** decap_v4 and decap_v6: the Ethernet header is moved forward over the outer header. */
  method Decap(p: Packet, n: nat, etherType: Bytes) returns (ok: bool)
    requires p.Valid() && |etherType| == 2 && ETH_HLEN <= n <= p.dataEnd - p.data - ETH_HLEN
    modifies p`data, p.buf
    ensures p.Valid() && ok
    ensures p.Frame() == Decapsulated(old(p.Frame()), n, etherType)
  {
    hide Splice, Decapsulated;
    ghost var f := p.Frame();
    var source := p.Read(6, 6);
    p.Write(n + 6, source);
    var dest := p.Read(0, 6);
    SpliceHead(f, n + 6, source, 6);
    p.Write(n, dest);
    p.Write(n + 12, etherType);
    ghost var g := p.Frame();
    var failed := p.AdjustHead(n);
    MovedEthernet(f, n, etherType);
    assert p.Frame() == g[n..];
    return !failed;
  }

  lemma MovedEthernet(f: Bytes, n: nat, etherType: Bytes)
    requires |etherType| == 2 && ETH_HLEN <= n <= |f| - ETH_HLEN
    ensures Splice(Splice(Splice(f, n + 6, f[6..12]), n, f[..6]), n + 12, etherType)[n..]
            == Decapsulated(f, n, etherType)
  {
    hide Splice;
    var pre, rest := f[..n], f[n + ETH_HLEN..];
    assert f == (pre + f[n..n + 6]) + f[n + 6..n + 12] + (f[n + 12..n + ETH_HLEN] + rest);
    SpliceParts(pre + f[n..n + 6], f[n + 6..n + 12], f[6..12], f[n + 12..n + ETH_HLEN] + rest);
    var tail := f[6..12] + (f[n + 12..n + ETH_HLEN] + rest);
    assert (pre + f[n..n + 6]) + f[6..12] + (f[n + 12..n + ETH_HLEN] + rest) == pre + f[n..n + 6] + tail;
    SpliceParts(pre, f[n..n + 6], f[..6], tail);
    var moved := f[..6] + f[6..12];
    assert pre + f[..6] + tail == (pre + moved) + f[n + 12..n + ETH_HLEN] + rest;
    SpliceParts(pre + moved, f[n + 12..n + ETH_HLEN], etherType, rest);
    assert moved == f[..12];
    assert (pre + moved) + etherType + rest == pre + (moved + etherType + rest);
  }

  /** How many bytes the decapsulation strips: its IPv6 branch does not look at the outer family. */
  function OuterSize(isV6: bool, proto: byte): nat {
    if proto == IPPROTO_IPIP && !isV6 then IPV4_HDR else IPV6_HDR
  }

  function InnerType(proto: byte): Bytes {
    if proto == IPPROTO_IPV6 then TYPE_IPV6 else TYPE_IPV4
  }

  /** What the receiving balancer makes of frame f: the inner TTL goes down, the outer header away. */
  function Unwrapped(f: Bytes, isV6: bool, proto: byte): Bytes
    requires OuterSize(isV6, proto) + ETH_HLEN <= |f|
  {
    var n := OuterSize(isV6, proto);
    Decapsulated(Decremented(f, n + ETH_HLEN, proto == IPPROTO_IPV6), n, InnerType(proto))
  }

  /** process_encaped_ipip_pckt: the TTL is decremented first, and its verdict looked at last. */
  method ProcessEncapedIpip(p: Packet, isV6: bool, proto: byte, pass: bool) returns (action: Action, isV6': bool)
    requires p.Valid() && (proto == IPPROTO_IPIP || proto == IPPROTO_IPV6)
    modifies p`data, p.buf
    ensures p.Valid()
    ensures var f, n := old(p.Frame()), OuterSize(isV6, proto);
            if n + ETH_HLEN > |f| then action == Drop && p.Frame() == f
            else p.Frame() == Unwrapped(f, isV6, proto)
                 && action == if Expires(f, n + ETH_HLEN, proto == IPPROTO_IPV6) then Drop
                              else if pass then Pass else Recirculate
    ensures |old(p.Frame())| >= OuterSize(isV6, proto) + ETH_HLEN ==> (isV6' <==> isV6 && proto == IPPROTO_IPV6)
  {
    hide Decremented, Expires;
    isV6' := isV6;
    var n := if proto == IPPROTO_IPIP && !isV6 then IPV4_HDR else IPV6_HDR;
    if p.data + n + ETH_HLEN > p.dataEnd {
      return Drop, isV6';
    }
    action := DecrementTtl(p, n + ETH_HLEN, proto == IPPROTO_IPV6);
    var ok := Decap(p, n, if proto == IPPROTO_IPV6 then TYPE_IPV6 else TYPE_IPV4);
    if proto == IPPROTO_IPIP {
      isV6' := false;
    }
    if action == Drop {
      return;
    }
    action := if pass then Pass else Recirculate;
  }

  // ----- through the tunnel and back

  /** The balancer encapsulates in IPv6 only when the client and the real both use it. */
  predicate TunnelV6(isV6: bool, realV6: bool) {
    isV6 && realV6
  }

  function TunnelProto(isV6: bool, realV6: bool): byte {
    if TunnelV6(isV6, realV6) then IPPROTO_IPV6 else IPPROTO_IPIP
  }

  function EtherType(isV6: bool): Bytes {
    if isV6 then TYPE_IPV6 else TYPE_IPV4
  }

  /** The outer header for a packet to the real whose address is in the sixteen bytes stored, an IPv4
      address in the first four of them. */
  function OuterFor(isV6: bool, realV6: bool, stored: Bytes, tos: byte, id: Bytes, src: Bytes, port: Bytes,
                    pktBytes: nat): Bytes
    requires |stored| == 16 && |src| == 16 && |port| == 2
  {
    if TunnelV6(isV6, realV6)
    then V6Header(tos, (pktBytes + IPV6_HDR) % 0x1_0000, IPPROTO_IPV6, V6Source(src[12..], port), stored)
    else V4Header(tos, (pktBytes + IPV4_HDR) % 0x1_0000, id, IPPROTO_IPIP, V4Source(src[..4], port), stored[..4])
  }

  /** The choice of process_packet between the two. */
  method EncapFor(p: Packet, mac: Bytes, isV6: bool, realV6: bool, stored: Bytes, tos: byte, src: Bytes, port: Bytes,
                  pktBytes: nat)
    returns (ok: bool)
    requires p.Valid() && |mac| == 6 && |stored| == 16 && |src| == 16 && |port| == 2 && pktBytes <= ALL_ONES
    modifies p`data, p.buf
    ensures p.Valid()
    ensures ok <==> old(p.data) >= OuterSize(TunnelV6(isV6, realV6), TunnelProto(isV6, realV6))
                    && |old(p.Frame())| >= ETH_HLEN
    ensures ok ==> var id := old(p.buf[p.data - 2..p.data]);
                   p.Frame() == Encapsulated(old(p.Frame()), mac, EtherType(TunnelV6(isV6, realV6)),
                                             OuterFor(isV6, realV6, stored, tos, id, src, port, pktBytes))
  {
    hide V4Header, V6Header, V4Source, V6Source;
    if isV6 && realV6 {
      ok := EncapV6(p, mac, isV6, tos, src, port, stored, pktBytes);
    } else {
      ok := EncapV4(p, mac, tos, src[..4], port, stored[..4], pktBytes);
    }
  }

  /** What comes out of the tunnel for a frame f that went in. */
  function Tunnelled(f: Bytes, mac: Bytes, outer: Bytes, isV6: bool, realV6: bool): Bytes
    requires |f| >= ETH_HLEN && |mac| == 6
    requires |outer| == OuterSize(TunnelV6(isV6, realV6), TunnelProto(isV6, realV6))
  {
    var v6 := TunnelV6(isV6, realV6);
    Unwrapped(Encapsulated(f, mac, EtherType(v6), outer), v6, TunnelProto(isV6, realV6))
  }

  lemma EncapsulatedParts(f: Bytes, mac: Bytes, etherType: Bytes, outer: Bytes)
    requires |f| >= ETH_HLEN && |mac| == 6 && |etherType| == 2
    ensures var e := Encapsulated(f, mac, etherType, outer);
            |e| == |f| + |outer| && e[..12] == mac + f[..6] && e[|outer| + ETH_HLEN..] == f[ETH_HLEN..]
  {
  }

  /** A write after position n does to the rest what it would do anywhere. */
  lemma SpliceShifts(e: Bytes, n: nat, f: Bytes, off: nat, at: nat, b: Bytes)
    requires n <= |e| && off <= |f| && e[n..] == f[off..] && n + at + |b| <= |e|
    ensures off + at + |b| <= |f|
    ensures Splice(e, n + at, b)[..n] == e[..n]
    ensures Splice(e, n + at, b)[n..] == Splice(f, off + at, b)[off..]
  {
    assert |e[n..]| == |f[off..]|;
    SpliceHead(e, n + at, b, n);
    SpliceSlice(e, n, |e|, n + at, b);
    SpliceSlice(f, off, |f|, off + at, b);
    hide Splice;
    assert e[n..|e|] == e[n..] == f[off..] == f[off..|f|];
  }

  lemma SameByte(e: Bytes, n: nat, f: Bytes, off: nat, at: nat)
    requires n <= |e| && off <= |f| && e[n..] == f[off..] && n + at < |e|
    ensures off + at < |f| && e[n + at] == f[off + at]
  {
    assert |e[n..]| == |f[off..]|;
    assert e[n..][at] == f[off..][at];
  }

  /** Decrementing at an offset touches only what follows it, and does there what it would do anywhere. */
  lemma DecrementedShifts(e: Bytes, n: nat, f: Bytes, off: nat, isV6: bool)
    requires n <= |e| && off <= |f| && e[n..] == f[off..]
    ensures Decremented(e, n, isV6)[..n] == e[..n]
    ensures Decremented(e, n, isV6)[n..] == Decremented(f, off, isV6)[off..]
    ensures Expires(e, n, isV6) == Expires(f, off, isV6)
  {
    assert |e| - n == |f| - off by {
      assert |e[n..]| == |f[off..]|;
    }
    hide Splice, OneLess, NextCheck, Store16, Word, WithTtl, TtlDecremented;
    if isV6 && n + IPV6_HDR <= |e| {
      SameByte(e, n, f, off, 7);
      SpliceShifts(e, n, f, off, 7, [OneLess(e[n + 7])]);
    } else if !isV6 && n + IPV4_HDR <= |e| {
      SameByte(e, n, f, off, 8);
      TtlShifts(e, n, f, off);
    }
  }

  lemma TtlShifts(e: Bytes, n: nat, f: Bytes, off: nat)
    requires n + IPV4_HDR <= |e| && off + IPV4_HDR <= |f| && e[n..] == f[off..]
    ensures WithTtl(e, n)[..n] == e[..n] && WithTtl(e, n)[n..] == WithTtl(f, off)[off..]
    ensures TtlDecremented(e, n)[..n] == e[..n] && TtlDecremented(e, n)[n..] == TtlDecremented(f, off)[off..]
  {
    hide Splice, OneLess, NextCheck, Store16, Word;
    SameByte(e, n, f, off, 8);
    SameByte(e, n, f, off, 10);
    SameByte(e, n, f, off, 11);
    SpliceShifts(e, n, f, off, 8, [OneLess(e[n + 8])]);
    var check := NextCheck(Load16(e, n + 10));
    assert |Store16(check)| == 2 by {
      StoreSize(check);
    }
    SpliceShifts(WithTtl(e, n), n, WithTtl(f, off), off, 10, Store16(check));
  }

  /** The round trip: unless an IPv6 client is balanced to an IPv4 real, the frame that leaves the
      tunnel carries the EtherType and the packet that went in, one hop older. */
  lemma RoundTrip(f: Bytes, mac: Bytes, outer: Bytes, isV6: bool, realV6: bool)
    requires |f| >= ETH_HLEN && |mac| == 6 && f[12..14] == EtherType(isV6)
    requires |outer| == OuterSize(TunnelV6(isV6, realV6), TunnelProto(isV6, realV6))
    requires isV6 ==> realV6
    ensures Tunnelled(f, mac, outer, isV6, realV6)
            == mac + f[..6] + f[12..14] + Decremented(f, ETH_HLEN, isV6)[ETH_HLEN..]
    ensures var v6 := TunnelV6(isV6, realV6);
            Expires(Encapsulated(f, mac, EtherType(v6), outer), |outer| + ETH_HLEN, isV6)
            <==> Expires(f, ETH_HLEN, isV6)
  {
    hide Decremented, Expires, Encapsulated;
    var e := Encapsulated(f, mac, EtherType(TunnelV6(isV6, realV6)), outer);
    var n := |outer| + ETH_HLEN;
    EncapsulatedParts(f, mac, EtherType(TunnelV6(isV6, realV6)), outer);
    DecrementedShifts(e, n, f, ETH_HLEN, isV6);
    assert Decremented(e, n, isV6)[..12] == Decremented(e, n, isV6)[..n][..12] == e[..12];
  }

  /** An IPv4 header that verified on the way in verifies on the way out unless it had no hops left. */
  lemma RoundTripVerifies(f: Bytes, mac: Bytes, outer: Bytes, realV6: bool)
    requires |f| >= ETH_HLEN + IPV4_HDR && |mac| == 6 && f[12..14] == TYPE_IPV4 && |outer| == IPV4_HDR
    requires Verifies(f[ETH_HLEN..ETH_HLEN + IPV4_HDR]) && !Expires(f, ETH_HLEN, false)
    ensures Verifies(Tunnelled(f, mac, outer, false, realV6)[ETH_HLEN..ETH_HLEN + IPV4_HDR]) <==> f[ETH_HLEN + 8] != 0
  {
    hide Verifies, Tunnelled, TtlDecremented;
    RoundTrip(f, mac, outer, false, realV6);
    var d := TtlDecremented(f, ETH_HLEN);
    assert Tunnelled(f, mac, outer, false, realV6)[ETH_HLEN..ETH_HLEN + IPV4_HDR] == d[ETH_HLEN..ETH_HLEN + IPV4_HDR];
    DecrementKeepsValidIff(f, ETH_HLEN);
  }

  /** The EtherType comes out as it went in unless an IPv6 client is sent to an IPv4 real: its packet is
      announced as IPv4. */
  lemma EtherTypeRestoredIff(f: Bytes, mac: Bytes, outer: Bytes, isV6: bool, realV6: bool)
    requires |f| >= ETH_HLEN && |mac| == 6 && f[12..14] == EtherType(isV6)
    requires |outer| == OuterSize(TunnelV6(isV6, realV6), TunnelProto(isV6, realV6))
    ensures Tunnelled(f, mac, outer, isV6, realV6)[12..14] == f[12..14] <==> !(isV6 && !realV6)
  {
    if isV6 && !realV6 {
      assert Tunnelled(f, mac, outer, isV6, realV6)[12..14][0] == 8;
    } else {
      RoundTrip(f, mac, outer, isV6, realV6);
    }
  }

  /** Worse, its source address is decremented where an IPv4 header would have its TTL. */
  lemma MismatchedSource(f: Bytes, mac: Bytes, outer: Bytes)
    requires |f| >= ETH_HLEN + IPV6_HDR && |mac| == 6 && f[12..14] == TYPE_IPV6 && |outer| == IPV4_HDR
    ensures Tunnelled(f, mac, outer, true, false)[ETH_HLEN + 8] == OneLess(f[ETH_HLEN + 8])
  {
    hide Encapsulated;
    EncapsulatedParts(f, mac, TYPE_IPV4, outer);
    DecrementedShifts(Encapsulated(f, mac, TYPE_IPV4, outer), IPV4_HDR + ETH_HLEN, f, ETH_HLEN, false);
  }

  // ----- and to the right real

  /** The destination in the outer header of frame e. */
  function OuterDestination(e: Bytes, v6: bool): Bytes
    requires |e| >= ETH_HLEN + if v6 then IPV6_HDR else IPV4_HDR
  {
    if v6 then e[38..54] else e[30..34]
  }

  function RealAddress(stored: Bytes, realV6: bool): Bytes
    requires |stored| == 16
  {
    if realV6 then stored else stored[..4]
  }

  lemma OuterParts(isV6: bool, realV6: bool, stored: Bytes, tos: byte, id: Bytes, src: Bytes, port: Bytes,
                   pktBytes: nat)
    requires |stored| == 16 && |src| == 16 && |port| == 2 && |id| == 2
    ensures var outer := OuterFor(isV6, realV6, stored, tos, id, src, port, pktBytes);
            |outer| == OuterSize(TunnelV6(isV6, realV6), TunnelProto(isV6, realV6))
            && if TunnelV6(isV6, realV6) then outer[24..] == stored else outer[16..] == stored[..4]
  {
    hide BigEndian16, HighByte, LowByte, Canon, Sum16, V4Source, V6Source;
    BigEndianSize((pktBytes + IPV6_HDR) % 0x1_0000);
    BigEndianSize((pktBytes + IPV4_HDR) % 0x1_0000);
  }

  /** An outer header carries the address of the real unless an IPv4 client is sent to an IPv6 real: there
      it carries the first four bytes of the address as an IPv4 address. */
  lemma ReachesRealIff(f: Bytes, mac: Bytes, isV6: bool, realV6: bool, stored: Bytes, tos: byte, id: Bytes,
                       src: Bytes, port: Bytes, pktBytes: nat)
    requires |f| >= ETH_HLEN && |mac| == 6 && |stored| == 16 && |src| == 16 && |port| == 2 && |id| == 2
    ensures var v6, outer := TunnelV6(isV6, realV6), OuterFor(isV6, realV6, stored, tos, id, src, port, pktBytes);
            var e := Encapsulated(f, mac, EtherType(v6), outer);
            && |e| == |f| + (if v6 then IPV6_HDR else IPV4_HDR)
            && (OuterDestination(e, v6) == RealAddress(stored, realV6) <==> (realV6 ==> isV6))
            && (realV6 && !isV6 ==> OuterDestination(e, v6) == stored[..4])
  {
    hide OuterFor;
    OuterParts(isV6, realV6, stored, tos, id, src, port, pktBytes);
  }

  /** So a packet reaches its real and comes out under its own EtherType exactly when the client and the
      real are of the same family. */
  lemma TunnelWorksIff(f: Bytes, mac: Bytes, isV6: bool, realV6: bool, stored: Bytes, tos: byte, id: Bytes,
                       src: Bytes, port: Bytes, pktBytes: nat)
    requires |f| >= ETH_HLEN && |mac| == 6 && |stored| == 16 && |src| == 16 && |port| == 2 && |id| == 2
    requires f[12..14] == EtherType(isV6)
    ensures var v6, outer := TunnelV6(isV6, realV6), OuterFor(isV6, realV6, stored, tos, id, src, port, pktBytes);
            var e := Encapsulated(f, mac, EtherType(v6), outer);
            && |outer| == OuterSize(v6, TunnelProto(isV6, realV6)) && |e| == |f| + |outer|
            && (OuterDestination(e, v6) == RealAddress(stored, realV6)
                && Tunnelled(f, mac, outer, isV6, realV6)[12..14] == f[12..14]
                <==> isV6 == realV6)
  {
    hide OuterFor, OuterDestination, RealAddress, Tunnelled;
    OuterParts(isV6, realV6, stored, tos, id, src, port, pktBytes);
    ReachesRealIff(f, mac, isV6, realV6, stored, tos, id, src, port, pktBytes);
    EtherTypeRestoredIff(f, mac, OuterFor(isV6, realV6, stored, tos, id, src, port, pktBytes), isV6, realV6);
  }

  // ----- what is on the wire

  lemma V4HeaderFields(tos: byte, totLen: nat, id: Bytes, proto: byte, saddr: Bytes, daddr: Bytes)
    requires |id| == 2 && AddrSize(saddr, daddr) && totLen <= ALL_ONES
    ensures var h := V4Header(tos, totLen, id, proto, saddr, daddr);
            && |h| == 20 && h[0] == 0x45 && h[1] == tos && 256 * (h[2] as int) + h[3] == totLen && h[4..6] == id
            && h[6] == 0 && h[7] == 0 && h[8] == 64 && h[9] == proto && h[12..16] == saddr && h[16..20] == daddr
  {
    hide Canon, Sum16;
    var zeroed := V4Fields(tos, totLen, id, DEFAULT_TTL, proto, 0, saddr, daddr);
    CanonSum(Sum16(zeroed), 0);
    BigEndianIs(totLen);
    var len, check := BigEndian16(totLen), Store16(ALL_ONES - Canon(Sum16(zeroed)));
    StoreSize(ALL_ONES - Canon(Sum16(zeroed)));
    hide BigEndian16, Store16;
    assert V4Header(tos, totLen, id, proto, saddr, daddr)
        == [0x45, tos] + len + id + [0, 0] + [DEFAULT_TTL, proto] + check + saddr + daddr;
  }

  lemma BigEndianIs(x: nat)
    requires x <= ALL_ONES
    ensures |BigEndian16(x)| == 2 && 256 * (BigEndian16(x)[0] as int) + BigEndian16(x)[1] == x
  {
    DivMod256(x);
    DivMod256(Div256(x));
  }

  lemma V6HeaderFields(tc: byte, len: nat, proto: byte, saddr: Bytes, daddr: Bytes)
    requires |saddr| == 16 && |daddr| == 16 && len <= ALL_ONES
    ensures var h := V6Header(tc, len, proto, saddr, daddr);
            && |h| == 40 && h[0] / 16 == 6 && h[0] % 16 * 16 + h[1] / 16 == tc && h[1] % 16 == 0
            && h[2] == 0 && h[3] == 0 && 256 * (h[4] as int) + h[5] == len
            && h[6] == proto && h[7] == 64 && h[8..24] == saddr && h[24..40] == daddr
  {
    BigEndianIs(len);
    hide BigEndian16;
  }

  /** How the receiving balancer reads a frame: its family from the EtherType, then the protocol. */
  predicate ReadsV6(e: Bytes) {
    |e| >= 14 && e[12] == 0x86 && e[13] == 0xDD
  }

  function ReadsProto(e: Bytes): byte
    requires |e| >= 34
  {
    if ReadsV6(e) then e[20] else e[23]
  }

  /** What the receiving balancer makes of a frame, from its bytes alone. */
  function Received(e: Bytes): Bytes
    requires |e| >= 34 && OuterSize(ReadsV6(e), ReadsProto(e)) + ETH_HLEN <= |e|
  {
    Unwrapped(e, ReadsV6(e), ReadsProto(e))
  }

  /** The frame on the wire, byte by byte. */
  lemma WireFields(f: Bytes, mac: Bytes, isV6: bool, realV6: bool, stored: Bytes, tos: byte, id: Bytes,
                   src: Bytes, port: Bytes, pktBytes: nat)
    requires |f| >= ETH_HLEN && |mac| == 6 && |stored| == 16 && |src| == 16 && |port| == 2 && |id| == 2
    ensures var v6, outer := TunnelV6(isV6, realV6), OuterFor(isV6, realV6, stored, tos, id, src, port, pktBytes);
            var e := Encapsulated(f, mac, EtherType(v6), outer);
            && |e| == |f| + (if isV6 && realV6 then 40 else 20)
            && e[..6] == mac && e[6..12] == f[..6]
            && if isV6 && realV6 then
                 && ReadsV6(e) && e[14] / 16 == 6 && e[14] % 16 * 16 + e[15] / 16 == tos
                 && 256 * (e[18] as int) + e[19] == (pktBytes + 40) % 0x1_0000
                 && e[20] == 41 && e[21] == 64 && e[38..54] == stored && e[54..] == f[14..]
               else
                 && e[12] == 8 && e[13] == 0 && e[14] == 0x45 && e[15] == tos
                 && 256 * (e[16] as int) + e[17] == (pktBytes + 20) % 0x1_0000
                 && e[22] == 64 && e[23] == 4 && e[30..34] == stored[..4] && e[34..] == f[14..]
  {
    hide V4Header, V6Header, V4Source, V6Source;
    if isV6 && realV6 {
      V6HeaderFields(tos, (pktBytes + IPV6_HDR) % 0x1_0000, IPPROTO_IPV6, V6Source(src[12..], port), stored);
    } else {
      V4HeaderFields(tos, (pktBytes + IPV4_HDR) % 0x1_0000, id, IPPROTO_IPIP, V4Source(src[..4], port), stored[..4]);
    }
    var outer := OuterFor(isV6, realV6, stored, tos, id, src, port, pktBytes);
    WireParts(f, mac, EtherType(TunnelV6(isV6, realV6)), outer);
  }

  lemma WireParts(f: Bytes, mac: Bytes, etherType: Bytes, outer: Bytes)
    requires |f| >= ETH_HLEN && |mac| == 6 && |etherType| == 2
    ensures var e := Encapsulated(f, mac, etherType, outer);
            && |e| == |f| + |outer| && e[..6] == mac && e[6..12] == f[..6] && e[12..14] == etherType
            && e[12] == etherType[0] && e[13] == etherType[1]
            && e[14..14 + |outer|] == outer && (forall i :: 0 <= i < |outer| ==> e[14 + i] == outer[i])
            && e[14 + |outer|..] == f[14..]
  {
  }

  /** From its bytes alone, the receiver restores every packet whose client and real are of the same family, one
      hop older. */
  lemma ReceivedIsSent(f: Bytes, mac: Bytes, isV6: bool, stored: Bytes, tos: byte, id: Bytes,
                       src: Bytes, port: Bytes, pktBytes: nat)
    requires |f| >= ETH_HLEN && |mac| == 6 && |stored| == 16 && |src| == 16 && |port| == 2 && |id| == 2
    requires f[12..14] == EtherType(isV6)
    ensures var outer := OuterFor(isV6, isV6, stored, tos, id, src, port, pktBytes);
            var e := Encapsulated(f, mac, EtherType(isV6), outer);
            && |e| >= 34 && OuterSize(ReadsV6(e), ReadsProto(e)) + ETH_HLEN <= |e|
            && Received(e) == mac + f[..6] + f[12..14] + Decremented(f, ETH_HLEN, isV6)[ETH_HLEN..]
  {
    var outer := OuterFor(isV6, isV6, stored, tos, id, src, port, pktBytes);
    OuterParts(isV6, isV6, stored, tos, id, src, port, pktBytes);
    WireFields(f, mac, isV6, isV6, stored, tos, id, src, port, pktBytes);
    hide OuterFor, Encapsulated, Unwrapped, Decremented;
    RoundTrip(f, mac, outer, isV6, isV6);
  }

  /** What the receiver makes of any frame it takes for encapsulated: it strips 20 bytes only of IPv4 in IPv4, 40
      of everything else, and so 20 too many of IPv6 in IPv4. The family announced is the inner one. */
  lemma ReceivedFields(e: Bytes)
    requires |e| >= 34 && (ReadsProto(e) == 4 || ReadsProto(e) == 41)
    requires |e| >= 14 + (if !ReadsV6(e) && ReadsProto(e) == 4 then 20 else 40)
    ensures var n := if !ReadsV6(e) && ReadsProto(e) == 4 then 20 else 40;
            var r := Received(e);
            && r[..12] == e[..12] && |r| == |e| - n
            && r[12..14] == (if ReadsProto(e) == 4 then [8, 0] else [0x86, 0xDD])
            && r[14..] == Decremented(e, n + 14, ReadsProto(e) == 41)[n + 14..]
  {
    hide Decremented;
    var n := if !ReadsV6(e) && ReadsProto(e) == 4 then 20 else 40;
    DecrementedShifts(e, n + 14, e, n + 14, ReadsProto(e) == 41);
    var d := Decremented(e, n + 14, ReadsProto(e) == 41);
    assert d[..12] == d[..n + 14][..12] == e[..n + 14][..12] == e[..12];
  }

  /** The client's port can be read off the outer source address, given the client's address. */
  lemma PortRecovered(src: Bytes, word: Bytes, port: Bytes)
    requires |src| == 4 && |word| == 4 && |port| == 2
    ensures var s := V4Source(src, port); s[0] == 172 && s[1] == 16 && [Xor(s[3], src[3]), Xor(s[2], src[2])] == port
    ensures var s := V6Source(word, port);
            s[0] == 1 && (forall i :: 1 <= i < 12 ==> s[i] == 0)
            && [Xor(s[12], word[0]), Xor(s[13], word[1])] == port && s[14..] == word[2..]
  {
    XorBack(src[2], port[1]);
    XorBack(src[3], port[0]);
    XorBack(word[0], port[0]);
    XorBack(word[1], port[1]);
    hide Xor;
  }

  lemma XorBack(a: byte, b: byte)
    ensures Xor(Xor(a, b), a) == b
  {
    assert Pow2(8) == 256;
    hide XorBits, Pow2;
    XorCommutes(a, b, 8);
    XorUndoes(b, a, 8);
  }
}
