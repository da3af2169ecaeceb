/** Answers to pings of a virtual address: ebpf-nfs/katran/handle_icmp.h. */
module Icmp {
  import opened Checksums
  import opened Packets
  import opened Ipv4

  const ICMP_HDR := 8
  const ECHO: byte := 8
  const ECHO_REPLY: byte := 0
  const ECHO6: byte := 128
  const ECHO6_REPLY: byte := 129
  const IPPROTO_ICMP: byte := 1
  const NEXT_ICMP6: byte := 58

  // ----- the ICMP message

  /** 16-bit addition, without end-around carry. */
  function Add16(x: int, y: int): (r: nat)
    ensures r <= ALL_ONES
  {
    (x + y) % 0x1_0000
  }

  /** An ICMP message with another type and d added to its checksum field. */
  function Retyped(m: Bytes, kind: byte, d: int): (r: Bytes)
    requires |m| >= 4
    ensures |r| == |m|
  {
    [kind, m[1]] + Store16(Add16(Load16(m, 2), d)) + m[4..]
  }

  lemma RetypedSum(m: Bytes, kind: byte, b: Bytes)
    requires |m| >= 4 && |b| == 2
    ensures Sum16([kind, m[1]] + b + m[4..]) - Sum16(m) == (kind as int) - (m[0] as int) + Load16(b, 0) - Load16(m, 2)
  {
    hide Sum16;
    var r := [kind, m[1]] + b + m[4..];
    SumHead(m);
    SumHead(r);
    assert r[4..] == m[4..];
  }

  lemma RetypedIs(m: Bytes, kind: byte, d: int)
    requires |m| >= 4
    ensures Retyped(m, kind, d) == [kind, m[1]] + Store16(Add16(Load16(m, 2), d)) + m[4..]
  {
  }

  lemma SumHead(m: Bytes)
    requires |m| >= 4
    ensures Sum16(m) == Word(m[0], m[1]) + Load16(m, 2) + Sum16(m[4..])
  {
    hide Sum16, Word;
    assert m == [m[0], m[1]] + ([m[2], m[3]] + m[4..]);
    SumConcat([m[0], m[1]], [m[2], m[3]] + m[4..]);
    SumConcat([m[2], m[3]], m[4..]);
    SumWord(m[0], m[1]);
    SumWord(m[2], m[3]);
  }

  /** The reply to a valid echo request is valid exactly when adding 8 to its checksum does not
      overflow: the carry is lost. */
  lemma EchoReplyValidIff(m: Bytes)
    requires |m| >= 4 && m[0] == ECHO && Verifies(m)
    ensures Verifies(Retyped(m, ECHO_REPLY, 8)) <==> Load16(m, 2) < 0xFFF8
  {
    hide Sum16, Verifies, Add16, Word, Store16;
    StoreSize(Add16(Load16(m, 2), 8));
    StoreSum(Add16(Load16(m, 2), 8));
    RetypedSum(m, ECHO_REPLY, Store16(Add16(Load16(m, 2), 8)));
    VerifiesIff(m);
    VerifiesIff(Retyped(m, ECHO_REPLY, 8));
    CarryLost(Sum16(m), Load16(m, 2));
  }

  lemma CarryLost(sum: nat, check: nat)
    requires sum > 0 && sum % ALL_ONES == 0 && check <= ALL_ONES
    ensures var s := sum - 8 + Add16(check, 8) - check;
            s > 0 && s % ALL_ONES == 0 <==> check < 0xFFF8
  {
    if check >= 0xFFF8 {
      assert Add16(check, 8) == check + 8 - 0x1_0000;
      NotMultiple(sum, -0x1_0000);
    }
  }

  lemma BorrowLost(sum: nat, check: nat)
    requires sum > 0 && sum % ALL_ONES == 0 && check <= ALL_ONES
    ensures var s := sum + 1 + Add16(check, -1) - check;
            s > 0 && s % ALL_ONES == 0 <==> check != 0
  {
    if check == 0 {
      assert Add16(check, -1) == check - 1 + 0x1_0000;
      NotMultiple(sum, 0x1_0000);
    }
  }

  lemma NotMultiple(sum: nat, d: int)
    requires sum % ALL_ONES == 0 && (d == 0x1_0000 || d == -0x1_0000)
    ensures (sum + d) % ALL_ONES != 0
  {
    var k := sum / ALL_ONES;
    assert sum == 65535 * k;
    if d > 0 {
      assert sum + d == 65535 * (k + 1) + 1;
    } else {
      assert sum + d == 65535 * (k - 2) + 65534;
    }
  }

  // ----- editing the packet in place

  method Retype(p: Packet, off: nat, kind: byte, d: int)
    requires p.Valid() && off + 4 <= p.dataEnd - p.data
    modifies p.buf
    ensures p.Frame() == old(p.Frame()[..off]) + Retyped(old(p.Frame()[off..]), kind, d)
  {
    ghost var f := p.Frame();
    p.Write(off, [kind]);
    var field := p.Read(off + 2, 2);
    assert field == f[off + 2..off + 4];
    p.Write(off + 2, Store16(Add16(Word(field[0], field[1]), d)));
    RetypedInPlace(f, off, kind, d);
  }

  lemma RetypedInPlace(f: Bytes, off: nat, kind: byte, d: int)
    requires off + 4 <= |f|
    ensures Splice(Splice(f, off, [kind]), off + 2, Store16(Add16(Load16(f, off + 2), d)))
            == f[..off] + Retyped(f[off..], kind, d)
  {
    hide Add16;
    var m, check := f[off..], Store16(Add16(Load16(f, off + 2), d));
    assert Load16(m, 2) == Load16(f, off + 2);
    assert f == f[..off] + m;
    assert Retyped(m, kind, d) == [kind, m[1]] + check + m[4..];
  }

  function SwappedAddrs(f: Bytes, off: nat, n: nat): (r: Bytes)
    requires off + 2 * n <= |f|
    ensures |r| == |f|
  {
    f[..off] + f[off + n..off + 2 * n] + f[off..off + n] + f[off + 2 * n..]
  }

  method SwapAddrs(p: Packet, off: nat, n: nat)
    requires p.Valid() && off + 2 * n <= p.dataEnd - p.data
    modifies p.buf
    ensures p.Frame() == SwappedAddrs(old(p.Frame()), off, n)
  {
    ghost var f := p.Frame();
    var second := p.Read(off + n, n);
    var first := p.Read(off, n);
    p.Write(off + n, first);
    p.Write(off, second);
    SwappedInPlace(f, off, n);
  }

  lemma SwappedInPlace(f: Bytes, off: nat, n: nat)
    requires off + 2 * n <= |f|
    ensures Splice(Splice(f, off + n, f[off..off + n]), off, f[off + n..off + 2 * n]) == SwappedAddrs(f, off, n)
  {
    hide Splice;
    var head, first, second, tail := f[..off], f[off..off + n], f[off + n..off + 2 * n], f[off + 2 * n..];
    assert f == (head + first) + second + tail;
    SpliceParts(head + first, second, first, tail);
    assert (head + first) + first + tail == head + first + (first + tail);
    SpliceParts(head, first, second, first + tail);
  }

  /** Zero the checksum of the header at off, sum it, store the complement. */
  method RefreshCheck(p: Packet, off: nat)
    requires p.Valid() && off + IPV4_HDR <= p.dataEnd - p.data
    modifies p.buf
    ensures var f := old(p.Frame());
            p.Frame() == f[..off] + Refreshed(f[off..off + IPV4_HDR]) + f[off + IPV4_HDR..]
  {
    hide Canon, Sum16, Splice, Refreshed, Store16;
    ghost var f := p.Frame();
    p.Write(off + 10, [0, 0]);
    var csum := Ipv4CsumInline(p, off);
    ZeroedHeader(f, off);
    StoreSize(csum);
    p.Write(off + 10, Store16(csum));
    RefreshedInPlace(f, off);
  }

  // ----- the replies

  /** The request's header with its addresses exchanged, a fresh TTL and a fresh checksum. */
  function ReplyHeader(h: Bytes): (r: Bytes)
    requires |h| == IPV4_HDR
    ensures |r| == IPV4_HDR
  {
    Filled(h[..8] + [DEFAULT_TTL, h[9]], h[16..] + h[12..16])
  }

  /** The MAC addresses exchanged, then the reply header, then the reply message. */
  function EchoReply(f: Bytes): (r: Bytes)
    requires |f| >= ETH_HLEN + IPV4_HDR + ICMP_HDR
    ensures |r| == |f|
  {
    f[6..12] + f[..6] + f[12..14] + ReplyHeader(f[14..34]) + Retyped(f[34..], ECHO_REPLY, 8)
  }

  /** send_icmp_reply. */
  method SendIcmpReply(p: Packet) returns (action: Action)
    requires p.Valid()
    modifies p.buf
    ensures var f := old(p.Frame());
            if |f| < ETH_HLEN + IPV4_HDR + ICMP_HDR then action == Drop && p.Frame() == f
            else action == Tx && p.Frame() == EchoReply(f)
  {
    hide Retyped, Refreshed, ReplyHeader;
    if p.dataEnd - p.data < ETH_HLEN + IPV4_HDR + ICMP_HDR {
      return Drop;
    }
    ghost var f := p.Frame();
    Retype(p, 34, ECHO_REPLY, 8);
    p.Write(22, [DEFAULT_TTL]);
    SwapAddrs(p, 26, 4);
    ghost var g := p.Frame();
    RefreshCheck(p, ETH_HLEN);
    SwapAddrs(p, 0, 6);
    EchoReplyInPlace(f, g);
    return Tx;
  }

  lemma EchoReplyInPlace(f: Bytes, g: Bytes)
    requires |f| >= ETH_HLEN + IPV4_HDR + ICMP_HDR
    requires g == SwappedAddrs(Splice(f[..34] + Retyped(f[34..], ECHO_REPLY, 8), 22, [DEFAULT_TTL]), 26, 4)
    ensures |g| == |f|
    ensures SwappedAddrs(g[..14] + Refreshed(g[14..34]) + g[34..], 0, 6) == EchoReply(f)
  {
    hide Retyped, Filled;
    hide Splice, SwappedAddrs;
    var h, r := f[14..34], Retyped(f[34..], ECHO_REPLY, 8);
    var head := f[..14] + h[..8] + [DEFAULT_TTL] + h[9..12];
    assert f[..34] + r == (f[..14] + h[..8]) + [h[8]] + (h[9..] + r);
    SpliceParts(f[..14] + h[..8], [h[8]], [DEFAULT_TTL], h[9..] + r);
    assert (f[..14] + h[..8]) + [DEFAULT_TTL] + (h[9..] + r) == head + h[12..16] + h[16..] + r;
    SwappedParts(head, h[12..16], h[16..], r);
    var reply := h[..8] + [DEFAULT_TTL] + h[9..12] + h[16..] + h[12..16];
    assert g == f[..14] + reply + r;
    assert g[..14] == f[..14] && g[14..34] == reply && g[34..] == r;
    assert reply[..10] == h[..8] + [DEFAULT_TTL, h[9]] && reply[12..] == h[16..] + h[12..16];
    var tail := f[12..14] + ReplyHeader(h) + r;
    assert g[..14] + Refreshed(g[14..34]) + g[34..] == [] + f[..6] + f[6..12] + tail;
    SwappedParts([], f[..6], f[6..12], tail);
  }

  /** The IPv4 header of every reply verifies. */
  lemma ReplyHeaderVerifies(h: Bytes)
    requires |h| == IPV4_HDR
    ensures Verifies(ReplyHeader(h))
  {
    hide Verifies;
    var before := h[..8] + [DEFAULT_TTL, h[9]];
    SumConcat(h[..8], [DEFAULT_TTL, h[9]]);
    SumWord(DEFAULT_TTL, h[9]);
    FilledVerifies(before, h[16..] + h[12..16]);
  }

  /** Everything in the reply that carries a checksum verifies, except the message when the lost
      carry shows. */
  lemma EchoReplyVerifies(f: Bytes)
    requires |f| >= ETH_HLEN + IPV4_HDR + ICMP_HDR && f[34] == ECHO && Verifies(f[34..])
    ensures Verifies(EchoReply(f)[14..34])
    ensures Verifies(EchoReply(f)[34..]) <==> Load16(f, 36) < 0xFFF8
  {
    hide Verifies, ReplyHeader, Retyped;
    assert EchoReply(f)[14..34] == ReplyHeader(f[14..34]);
    assert EchoReply(f)[34..] == Retyped(f[34..], ECHO_REPLY, 8);
    ReplyHeaderVerifies(f[14..34]);
    EchoReplyValidIff(f[34..]);
  }

  /** The reply goes back where the request came from, with everything else but the TTL, the type and the two
      checksums as it was. */
  lemma EchoReplyFields(f: Bytes)
    requires |f| >= ETH_HLEN + IPV4_HDR + ICMP_HDR
    ensures var r := EchoReply(f);
            && r[..6] == f[6..12] && r[6..12] == f[..6] && r[12..22] == f[12..22] && r[22] == 64 && r[23] == f[23]
            && r[26..30] == f[30..34] && r[30..34] == f[26..30]
            && r[34] == 0 && r[35] == f[35] && r[38..] == f[38..]
  {
    hide ReplyHeader, Retyped;
    var h, m := f[14..34], f[34..];
    ReplyHeaderFields(h);
    RetypedFields(m, ECHO_REPLY, 8);
    ReplyLayout(f[6..12], f[..6], f[12..14], ReplyHeader(h), Retyped(m, ECHO_REPLY, 8));
    RequestParts(f);
  }

  lemma ReplyHeaderFields(h: Bytes)
    requires |h| == IPV4_HDR
    ensures var r := ReplyHeader(h);
            r[..8] == h[..8] && r[8] == 64 && r[9] == h[9] && r[12..16] == h[16..] && r[16..] == h[12..16]
  {
    hide Canon, Sum16;
    var before, after := h[..8] + [DEFAULT_TTL, h[9]], h[16..] + h[12..16];
    var sum := Sum16(before + Store16(0) + after);
    CanonSum(sum, 0);
    var check := Store16(ALL_ONES - Canon(sum));
    StoreSize(ALL_ONES - Canon(sum));
    hide Store16;
    assert ReplyHeader(h) == h[..8] + [DEFAULT_TTL, h[9]] + check + h[16..] + h[12..16];
  }

  lemma RetypedFields(m: Bytes, kind: byte, d: int)
    requires |m| >= 4
    ensures var r := Retyped(m, kind, d); r[0] == kind && r[1] == m[1] && r[4..] == m[4..]
  {
    hide Add16, Load16;
    StoreSize(Add16(Load16(m, 2), d));
    hide Store16;
  }

  lemma ReplyLayout(dst: Bytes, src: Bytes, t: Bytes, h: Bytes, m: Bytes)
    requires |dst| == 6 && |src| == 6 && |t| == 2 && |h| == IPV4_HDR && |m| >= 4
    ensures var r := dst + src + t + h + m;
            && r[..6] == dst && r[6..12] == src && r[12..22] == t + h[..8] && r[22] == h[8] && r[23] == h[9]
            && r[26..30] == h[12..16] && r[30..34] == h[16..] && r[34] == m[0] && r[35] == m[1] && r[38..] == m[4..]
  {
  }

  lemma RequestParts(f: Bytes)
    requires |f| >= ETH_HLEN + IPV4_HDR + ICMP_HDR
    ensures var h, m := f[14..34], f[34..];
            && f[12..22] == f[12..14] + h[..8] && h[9] == f[23] && h[16..] == f[30..34] && h[12..16] == f[26..30]
            && m[1] == f[35] && m[4..] == f[38..]
  {
    var h := f[14..34];
    assert h[..8] == f[14..22];
  }

  /** What the balancer answers: an IPv4 frame without options, not a fragment, with an echo request. */
  predicate IsEcho(f: Bytes) {
    && |f| >= ETH_HLEN + IPV4_HDR + ICMP_HDR
    && f[12] == 8 && f[13] == 0 && f[14] % 16 == 5 && f[20] % 64 == 0 && f[21] == 0
    && f[23] == IPPROTO_ICMP && f[34] == ECHO
  }

  /** A request, both of whose checksums verify and whose reply's message does not. */
  lemma EchoReplyFails() returns (f: Bytes)
    ensures IsEcho(f) && Verifies(f[14..34]) && Verifies(f[34..])
    ensures !Verifies(EchoReply(f)[34..])
  {
    var before: Bytes := [0x45, 0, 0, 28, 0, 0, 0, 0, 64, IPPROTO_ICMP];
    var m: Bytes := [ECHO, 0, 0xF8, 0xFF, 0xFE, 0xFF, 0, 0];
    SumPositive(before);
    OverflowingMessage(m);
    hide Sum16, Verifies, EchoReply, Load16, IsEcho;
    var h := FilledHeader(before, Zeros(8));
    f := Zeros(12) + [8, 0] + h + m;
    FrameParts(Zeros(12), h, m);
    EchoReplyVerifies(f);
  }

  /** A header that begins with before and verifies. */
  lemma FilledHeader(before: Bytes, after: Bytes) returns (h: Bytes)
    requires |before| == 10 && |after| == 8 && Sum16(before) > 0
    ensures |h| == IPV4_HDR && h[..10] == before && Verifies(h)
  {
    h := Filled(before, after);
    FilledVerifies(before, after);
    hide Sum16, Canon, Verifies;
  }

  lemma FrameParts(macs: Bytes, h: Bytes, m: Bytes)
    requires |macs| == 12 && |h| == IPV4_HDR && |m| == ICMP_HDR && m[0] == ECHO
    requires h[0] == 0x45 && h[6] == 0 && h[7] == 0 && h[9] == IPPROTO_ICMP
    ensures var f := macs + [8, 0] + h + m;
            IsEcho(f) && f[14..34] == h && f[34..] == m && Load16(f, 36) == Load16(m, 2)
  {
    hide Word;
    var f := macs + [8, 0] + h + m;
    assert f[14] == h[0] && f[20] == h[6] && f[21] == h[7] && f[23] == h[9] && f[34] == m[0];
  }

  lemma OverflowingMessage(m: Bytes)
    requires m == [ECHO, 0, 0xF8, 0xFF, 0xFE, 0xFF, 0, 0]
    ensures Verifies(m) && Load16(m, 2) == 0xFFF8
  {
    SumHead(m);
    FourBytes(0xFE, 0xFF, 0, 0);
    assert m[4..] == [0xFE, 0xFF, 0, 0];
    hide Sum16, Verifies;
    VerifiesIff(m);
  }

  // ----- IPv6

  function Echo6Reply(f: Bytes): (r: Bytes)
    requires |f| >= ETH_HLEN + IPV6_HDR + ICMP_HDR
    ensures |r| == |f|
  {
    f[6..12] + f[..6] + f[12..21] + [DEFAULT_TTL] + f[38..54] + f[22..38] + Retyped(f[54..], ECHO6_REPLY, -1)
  }

  /** send_icmp6_reply. */
  method SendIcmp6Reply(p: Packet) returns (action: Action)
    requires p.Valid()
    modifies p.buf
    ensures var f := old(p.Frame());
            if |f| < ETH_HLEN + IPV6_HDR + ICMP_HDR then action == Drop && p.Frame() == f
            else action == Tx && p.Frame() == Echo6Reply(f)
  {
    hide Retyped;
    if p.dataEnd - p.data < ETH_HLEN + IPV6_HDR + ICMP_HDR {
      return Drop;
    }
    ghost var f := p.Frame();
    Retype(p, 54, ECHO6_REPLY, -1);
    p.Write(21, [DEFAULT_TTL]);
    SwapAddrs(p, 22, 16);
    SwapAddrs(p, 0, 6);
    Echo6ReplyInPlace(f);
    return Tx;
  }

  lemma Echo6ReplyInPlace(f: Bytes)
    requires |f| >= ETH_HLEN + IPV6_HDR + ICMP_HDR
    ensures var g := Splice(f[..54] + Retyped(f[54..], ECHO6_REPLY, -1), 21, [DEFAULT_TTL]);
            SwappedAddrs(SwappedAddrs(g, 22, 16), 0, 6) == Echo6Reply(f)
  {
    hide Retyped, SwappedAddrs;
    var r := Retyped(f[54..], ECHO6_REPLY, -1);
    HopLimitInPlace(f[..54], r);
    AddrsInPlace(f[..6], f[6..12], f[12..21], f[22..38], f[38..54], r);
    assert f[..54][..21] == f[..6] + f[6..12] + f[12..21];
    assert f[..54][22..] == f[22..38] + f[38..54];
  }

  lemma AddrsInPlace(dst: Bytes, src: Bytes, mid: Bytes, a: Bytes, b: Bytes, r: Bytes)
    requires |dst| == 6 && |src| == 6 && |mid| == 9 && |a| == 16 && |b| == 16
    ensures var g := dst + src + mid + [DEFAULT_TTL] + (a + b) + r;
            SwappedAddrs(SwappedAddrs(g, 22, 16), 0, 6) == src + dst + mid + [DEFAULT_TTL] + b + a + r
  {
    hide SwappedAddrs;
    var head := dst + src + mid + [DEFAULT_TTL];
    assert head + (a + b) + r == head + a + b + r;
    SwappedParts(head, a, b, r);
    var tail := mid + [DEFAULT_TTL] + b + a + r;
    assert head + b + a + r == [] + dst + src + tail;
    SwappedParts([], dst, src, tail);
    assert [] + src + dst + tail == src + dst + mid + [DEFAULT_TTL] + b + a + r;
  }

  lemma HopLimitInPlace(f: Bytes, r: Bytes)
    requires |f| == 54
    ensures Splice(f + r, 21, [DEFAULT_TTL]) == f[..21] + [DEFAULT_TTL] + f[22..] + r
  {
    assert f + r == f[..21] + [f[21]] + (f[22..] + r);
    SpliceParts(f[..21], [f[21]], [DEFAULT_TTL], f[22..] + r);
  }

  lemma SwappedParts(head: Bytes, a: Bytes, b: Bytes, tail: Bytes)
    requires |a| == |b|
    ensures SwappedAddrs(head + a + b + tail, |head|, |a|) == head + b + a + tail
  {
    var f := head + a + b + tail;
    assert f[..|head|] == head && f[|head|..|head| + |a|] == a;
    assert f[|head| + |a|..|head| + 2 * |a|] == b && f[|head| + 2 * |a|..] == tail;
  }

  /** Section 8.1 of RFC 8200: the addresses, the payload length and the protocol of a frame, which the
      ICMPv6 checksum also covers. */
  function PseudoHeader(f: Bytes): (r: Bytes)
    requires |f| >= ETH_HLEN + IPV6_HDR
    ensures |r| == IPV6_HDR
  {
    f[22..38] + f[38..54] + ([0, 0] + f[18..20] + [0, 0, 0, NEXT_ICMP6])
  }

  /** Exchanging the addresses leaves the pseudo-header's sum alone. */
  lemma PseudoSum(f: Bytes, g: Bytes)
    requires |f| >= ETH_HLEN + IPV6_HDR && |g| == |f|
    requires g[22..38] == f[38..54] && g[38..54] == f[22..38] && g[18..20] == f[18..20]
    ensures Sum16(PseudoHeader(g)) == Sum16(PseudoHeader(f))
  {
    hide Sum16;
    var a, b, tail := f[22..38], f[38..54], [0, 0] + f[18..20] + [0, 0, 0, NEXT_ICMP6];
    SumConcat(a + b, tail);
    SumConcat(a, b);
    SumConcat(b + a, tail);
    SumConcat(b, a);
  }

  /** The IPv6 reply to a valid request is valid exactly when its checksum was not zero: there the
      borrow is lost. */
  lemma Echo6ReplyVerifiesIff(f: Bytes)
    requires |f| >= ETH_HLEN + IPV6_HDR + ICMP_HDR && f[54] == ECHO6
    requires Verifies(PseudoHeader(f) + f[54..])
    ensures var r := Echo6Reply(f);
            Verifies(PseudoHeader(r) + r[54..]) <==> Load16(f, 56) != 0
  {
    hide Sum16, Verifies, Retyped, Add16, Word, PseudoHeader, Store16;
    var r, m := Echo6Reply(f), f[54..];
    assert r[54..] == Retyped(m, ECHO6_REPLY, -1);
    assert r[22..38] == f[38..54] && r[38..54] == f[22..38] && r[18..20] == f[18..20];
    PseudoSum(f, r);
    StoreSize(Add16(Load16(m, 2), -1));
    StoreSum(Add16(Load16(m, 2), -1));
    RetypedSum(m, ECHO6_REPLY, Store16(Add16(Load16(m, 2), -1)));
    assert Retyped(m, ECHO6_REPLY, -1) == [ECHO6_REPLY, m[1]] + Store16(Add16(Load16(m, 2), -1)) + m[4..] by {
      RetypedIs(m, ECHO6_REPLY, -1);
    }
    SumConcat(PseudoHeader(f), m);
    SumConcat(PseudoHeader(r), r[54..]);
    VerifiesIff(PseudoHeader(f) + m);
    VerifiesIff(PseudoHeader(r) + r[54..]);
    assert Load16(m, 2) == Load16(f, 56);
    BorrowLost(Sum16(PseudoHeader(f) + m), Load16(m, 2));
  }

  /** The IPv6 reply likewise. */
  lemma Echo6ReplyFields(f: Bytes)
    requires |f| >= ETH_HLEN + IPV6_HDR + ICMP_HDR
    ensures var r := Echo6Reply(f);
            && r[..6] == f[6..12] && r[6..12] == f[..6] && r[12..21] == f[12..21] && r[21] == 64
            && r[22..38] == f[38..54] && r[38..54] == f[22..38]
            && r[54] == 129 && r[55] == f[55] && r[58..] == f[58..]
  {
    hide Retyped;
    var m := f[54..];
    RetypedFields(m, ECHO6_REPLY, -1);
    Reply6Layout(f[6..12], f[..6], f[12..21], f[38..54], f[22..38], Retyped(m, ECHO6_REPLY, -1));
    assert m[1] == f[55] && m[4..] == f[58..];
  }

  lemma Reply6Layout(dst: Bytes, src: Bytes, t: Bytes, a: Bytes, b: Bytes, m: Bytes)
    requires |dst| == 6 && |src| == 6 && |t| == 9 && |a| == 16 && |b| == 16 && |m| >= 4
    ensures var r := dst + src + t + [DEFAULT_TTL] + a + b + m;
            && r[..6] == dst && r[6..12] == src && r[12..21] == t && r[21] == DEFAULT_TTL && r[22..38] == a
            && r[38..54] == b && r[54] == m[0] && r[55] == m[1] && r[58..] == m[4..]
  {
  }

  predicate IsEcho6(f: Bytes) {
    && |f| >= ETH_HLEN + IPV6_HDR + ICMP_HDR
    && f[12] == 0x86 && f[13] == 0xDD && f[20] == NEXT_ICMP6 && f[54] == ECHO6
  }

  /** A valid request with checksum zero: the addresses are zero, and the identifier completes the sum. */
  lemma Echo6ReplyFails() returns (f: Bytes)
    ensures IsEcho6(f) && Verifies(PseudoHeader(f) + f[54..])
    ensures var r := Echo6Reply(f); !Verifies(PseudoHeader(r) + r[54..])
  {
    hide Sum16, Verifies, PseudoHeader, Echo6Reply, Load16, IsEcho6;
    var h: Bytes := [0x86, 0xDD, 0x60, 0, 0, 0, 0, 8, NEXT_ICMP6, 64];
    var m: Bytes := [ECHO6, 0, 0, 0, 0x7F, 0xBD, 0, 0];
    f := Zeros(12) + h + Zeros(32) + m;
    Frame6Parts(Zeros(12), h, m);
    RequestSum(m);
    SumConcat(PseudoHeader(f), m);
    VerifiesIff(PseudoHeader(f) + m);
    Echo6ReplyVerifiesIff(f);
  }

  lemma Frame6Parts(macs: Bytes, h: Bytes, m: Bytes)
    requires |macs| == 12 && |h| == 10 && |m| == ICMP_HDR && m[0] == ECHO6
    requires h[0] == 0x86 && h[1] == 0xDD && h[6] == 0 && h[7] == 8 && h[8] == NEXT_ICMP6
    ensures var f := macs + h + Zeros(32) + m;
            && IsEcho6(f) && f[54..] == m && Load16(f, 56) == Load16(m, 2)
            && PseudoHeader(f) == Zeros(32) + ([0, 0, 0, 8] + [0, 0, 0, NEXT_ICMP6])
  {
    hide Word, PseudoHeader;
    var f := macs + h + Zeros(32) + m;
    assert f[12] == h[0] && f[13] == h[1] && f[18] == h[6] && f[19] == h[7] && f[20] == h[8] && f[54] == m[0];
    assert f[22..54] == Zeros(32);
    RequestPseudo(f);
  }

  lemma RequestPseudo(f: Bytes)
    requires |f| >= ETH_HLEN + IPV6_HDR && f[22..54] == Zeros(32) && f[18] == 0 && f[19] == 8
    ensures PseudoHeader(f) == Zeros(32) + ([0, 0, 0, 8] + [0, 0, 0, NEXT_ICMP6])
  {
    assert f[22..38] + f[38..54] == f[22..54];
    assert f[18..20] == [0, 8];
  }

  lemma RequestSum(m: Bytes)
    requires m == [ECHO6, 0, 0, 0, 0x7F, 0xBD, 0, 0]
    ensures Sum16(Zeros(32) + ([0, 0, 0, 8] + [0, 0, 0, NEXT_ICMP6])) + Sum16(m) == ALL_ONES
    ensures Load16(m, 2) == 0
  {
    SumZeros(32);
    SumConcat(Zeros(32), [0, 0, 0, 8] + [0, 0, 0, NEXT_ICMP6]);
    SumConcat([0, 0, 0, 8], [0, 0, 0, NEXT_ICMP6]);
    FourBytes(0, 0, 0, 8);
    FourBytes(0, 0, 0, NEXT_ICMP6);
    FourBytes(0x7F, 0xBD, 0, 0);
    SumHead(m);
    assert m[4..] == [0x7F, 0xBD, 0, 0];
  }

  lemma FourBytes(a: byte, b: byte, c: byte, d: byte)
    ensures Sum16([a, b, c, d]) == Word(a, b) + Word(c, d)
  {
    SumHead([a, b, c, d]);
    assert [a, b, c, d][4..] == [];
  }
}
