/** The Crab SYN rewriter: ebpf-nfs/crab/lb_kern.c. A SYN is redirected to a target and carries its
    original destination in a new TCP option. */
module Crab {
  import opened Checksums
  import opened Packets
  import opened Ipv4
  import opened Options

  const TCP_HDR := 20
  const OPT_SIZE := 8
  const REDIR_OPT_TYPE: byte := 42
  const MAX_OPT_WORDS := 10
  const IPPROTO_TCP: byte := 6

  // ----- what a rewritten SYN looks like

  function FromBig(hi: byte, lo: byte): (r: nat)
    ensures r <= ALL_ONES
  {
    Word(lo, hi)
  }

  /** A sum or difference of 16-bit numbers, in 16 bits. */
  function Wrap16(x: nat): (r: nat)
    requires x < 0x2_0000
    ensures r <= ALL_ONES
  {
    if x < 0x1_0000 then x else x - 0x1_0000
  }

  /** The total length of an IPv4 header. */
  function TotalLength(ip: Bytes): (r: nat)
    requires |ip| == IPV4_HDR
    ensures r <= ALL_ONES
  {
    FromBig(ip[2], ip[3])
  }

  /** The header of the longer packet to the target. */
  function NewIp(ip: Bytes, target: Bytes): (r: Bytes)
    requires |ip| == IPV4_HDR && |target| == 4
    ensures |r| == IPV4_HDR
  {
    Filled(ip[..2] + BigEndian16(Wrap16(TotalLength(ip) + OPT_SIZE)) + ip[4..10], ip[12..16] + target)
  }

  /** The redirection option, padded with two no-operations. */
  function RedirOpt(daddr: Bytes): Bytes {
    [REDIR_OPT_TYPE, 6] + daddr + [1, 1]
  }

  /** Two more words of header, in the upper four bits and no more than there are. */
  function GrownOffset(b: byte): byte {
    if b < 224 then b + 32 else b - 224
  }

  function TcpBefore(tcp: Bytes): (r: Bytes)
    requires |tcp| == TCP_HDR
    ensures |r| == 16
  {
    tcp[..12] + [GrownOffset(tcp[12])] + tcp[13..16]
  }

  function TcpAfter(tcp: Bytes, daddr: Bytes): (r: Bytes)
    requires |tcp| == TCP_HDR && |daddr| == 4
    ensures |r| == 10
  {
    tcp[18..] + RedirOpt(daddr)
  }

  /** Section 3.1 of RFC 793: addresses, protocol and TCP length of the packet with header ip. */
  function PseudoHeader(ip: Bytes): (r: Bytes)
    requires |ip| == IPV4_HDR
    ensures |r| == 12
  {
    ip[12..16] + ip[16..20] + [0, IPPROTO_TCP] + BigEndian16(Wrap16(TotalLength(ip) + 0x1_0000 - IPV4_HDR))
  }

  /** The bytes after the new option that the checksum loop reaches: whole words, at most ten. */
  function Covered(rest: Bytes): (r: Bytes)
    ensures |r| % 4 == 0 && |r| <= 4 * MAX_OPT_WORDS
  {
    var n := |rest| / 4;
    rest[..4 * if n < MAX_OPT_WORDS then n else MAX_OPT_WORDS]
  }

  function TcpCheck(tcp: Bytes, daddr: Bytes, pseudo: Bytes, rest: Bytes): (r: nat)
    requires |tcp| == TCP_HDR && |daddr| == 4
    ensures r <= ALL_ONES
  {
    var zeroed := TcpBefore(tcp) + Store16(0) + TcpAfter(tcp, daddr);
    CanonSum(Sum16(zeroed) + Sum16(Covered(rest)) + Sum16(pseudo), 0);
    ALL_ONES - Canon(Sum16(zeroed) + Sum16(Covered(rest)) + Sum16(pseudo))
  }

  /** The rewritten TCP header with its new option. */
  function NewTcp(tcp: Bytes, daddr: Bytes, pseudo: Bytes, rest: Bytes): (r: Bytes)
    requires |tcp| == TCP_HDR && |daddr| == 4
    ensures |r| == TCP_HDR + OPT_SIZE
  {
    TcpBefore(tcp) + Store16(TcpCheck(tcp, daddr, pseudo, rest)) + TcpAfter(tcp, daddr)
  }

  /** Where the parser may have found the IPv4 and TCP headers of frame f. */
  predicate Parsed(f: Bytes, ipOff: nat, tcpOff: nat) {
    ETH_HLEN <= ipOff && ipOff + IPV4_HDR <= tcpOff && tcpOff + TCP_HDR <= |f| && f[ipOff] > 0
  }

  /** The whole frame: the headers are put back without whatever lay between them. */
  function NewSyn(f: Bytes, ipOff: nat, tcpOff: nat, target: Bytes, mac: Bytes): (r: Bytes)
    requires Parsed(f, ipOff, tcpOff) && |target| == 4 && |mac| == 6
    ensures |r| == |f| + OPT_SIZE
  {
    var ip := NewIp(f[ipOff..ipOff + IPV4_HDR], target);
    var tcp := NewTcp(f[tcpOff..tcpOff + TCP_HDR], f[ipOff + 16..ipOff + IPV4_HDR], PseudoHeader(ip), f[54..]);
    mac + f[..6] + f[12..14] + ip + tcp + f[54..]
  }

  // ----- where everything goes, and back

  /** The rewritten frame, read byte by byte: it goes to the target, from the old source, and its first TCP
      option carries the old destination. */
  lemma NewSynFields(f: Bytes, ipOff: nat, tcpOff: nat, target: Bytes, mac: Bytes)
    requires Parsed(f, ipOff, tcpOff) && |target| == 4 && |mac| == 6
    ensures var g := NewSyn(f, ipOff, tcpOff, target, mac);
            && g[..6] == mac && g[6..12] == f[..6] && g[12..14] == f[12..14]
            && g[14..16] == f[ipOff..ipOff + 2] && g[18..24] == f[ipOff + 4..ipOff + 10]
            && BigWord(g, 16) == Longer(BigWord(f, ipOff + 2))
            && g[26..30] == f[ipOff + 12..ipOff + 16] && g[30..34] == target
            && g[34..46] == f[tcpOff..tcpOff + 12] && g[47..50] == f[tcpOff + 13..tcpOff + 16]
            && TwoMore(f[tcpOff + 12], g[46]) && g[52..54] == f[tcpOff + 18..tcpOff + 20]
            && g[54..56] == [42, 6] && g[56..60] == f[ipOff + 16..ipOff + 20] && g[60..62] == [1, 1]
            && g[62..] == f[54..]
  {
    hide NewIp, NewTcp, PseudoHeader, BigWord, Longer, TwoMore;
    var ip, tcp, daddr := f[ipOff..ipOff + IPV4_HDR], f[tcpOff..tcpOff + TCP_HDR], f[ipOff + 16..ipOff + IPV4_HDR];
    var ip', eth := NewIp(ip, target), mac + f[..6] + f[12..14];
    var tcp' := NewTcp(tcp, daddr, PseudoHeader(ip'), f[54..]);
    NewIpFields(ip, target);
    NewTcpFields(tcp, daddr, PseudoHeader(ip'), f[54..]);
    SynLayout(eth, ip', tcp', f[54..]);
    WordMoves(f, ipOff, ip, 2);
    WordMoves(NewSyn(f, ipOff, tcpOff, target, mac), 14, ip', 2);
    SliceFacts(f, ipOff, ip);
    SliceFacts(f, tcpOff, tcp);
  }

  lemma NewSynTotal(f: Bytes, ipOff: nat, tcpOff: nat, target: Bytes, mac: Bytes)
    requires Parsed(f, ipOff, tcpOff) && |target| == 4 && |mac| == 6
    ensures BigWord(NewSyn(f, ipOff, tcpOff, target, mac), 16) == Longer(BigWord(f, ipOff + 2))
  {
    hide NewIp, NewTcp, PseudoHeader, BigWord, Longer;
    var ip := f[ipOff..ipOff + IPV4_HDR];
    var g, ip' := NewSyn(f, ipOff, tcpOff, target, mac), NewIp(ip, target);
    NewIpFields(ip, target);
    assert g[14..34] == ip';
    WordMoves(f, ipOff, ip, 2);
    WordMoves(g, 14, ip', 2);
  }

  /** A big-endian number in a frame. */
  function BigWord(f: Bytes, i: nat): (r: nat)
    requires i + 2 <= |f|
    ensures r <= ALL_ONES
  {
    256 * (f[i] as int) + f[i + 1]
  }

  /** The upper four bits count two more, modulo 16. */
  predicate TwoMore(was: byte, now: byte) {
    now / 16 == (was / 16 + 2) % 16 && now % 16 == was % 16
  }

  /** Eight more in a 16-bit number. */
  function Longer(len: nat): nat {
    if len + 8 < 0x1_0000 then len + 8 else len + 8 - 0x1_0000
  }

  lemma LongerSmall(len: nat)
    requires len < 0xFFF8
    ensures Longer(len) == len + 8
  {
  }

  lemma WordMoves(f: Bytes, off: nat, h: Bytes, i: nat)
    requires off + |h| <= |f| && f[off..off + |h|] == h && i + 2 <= |h|
    ensures BigWord(f, off + i) == BigWord(h, i)
  {
    assert f[off..off + |h|][i] == h[i] && f[off..off + |h|][i + 1] == h[i + 1];
  }

  lemma SliceFacts(f: Bytes, off: nat, h: Bytes)
    requires off + 20 <= |f| && h == f[off..off + 20]
    ensures h[..2] == f[off..off + 2] && h[4..10] == f[off + 4..off + 10] && h[12..16] == f[off + 12..off + 16]
    ensures h[..12] == f[off..off + 12] && h[12] == f[off + 12] && h[13..16] == f[off + 13..off + 16]
    ensures h[18..20] == f[off + 18..off + 20]
  {
    SubSlice(f, off, h, 4, 10);
    SubSlice(f, off, h, 12, 16);
  }

  lemma SubSlice(f: Bytes, off: nat, h: Bytes, a: nat, b: nat)
    requires off + |h| <= |f| && h == f[off..off + |h|] && a <= b <= |h|
    ensures h[a..b] == f[off + a..off + b]
  {
    forall k | 0 <= k < b - a
      ensures h[a..b][k] == f[off + a..off + b][k]
    {
      assert h[a + k] == f[off + (a + k)];
    }
  }

  lemma NewIpFields(ip: Bytes, target: Bytes)
    requires |ip| == IPV4_HDR && |target| == 4
    ensures var r := NewIp(ip, target);
            && r[..2] == ip[..2] && r[4..10] == ip[4..10] && r[12..16] == ip[12..16] && r[16..20] == target
            && BigWord(r, 2) == Longer(BigWord(ip, 2))
  {
    NewLengthIs(ip);
    hide BigEndian16, TotalLength, Longer;
    HeaderParts(ip, NewLength(ip), target);
    assert NewIp(ip, target) == Filled(ip[..2] + NewLength(ip) + ip[4..10], ip[12..16] + target);
  }

  lemma NewLengthIs(ip: Bytes)
    requires |ip| == IPV4_HDR
    ensures BigWord(NewLength(ip), 0) == Longer(BigWord(ip, 2))
  {
    var len := Wrap16(TotalLength(ip) + OPT_SIZE);
    DivMod256(len);
    DivMod256(Div256(len));
  }

  lemma HeaderParts(ip: Bytes, len: Bytes, target: Bytes)
    requires |ip| == IPV4_HDR && |len| == 2 && |target| == 4
    ensures var r := Filled(ip[..2] + len + ip[4..10], ip[12..16] + target);
            && |r| == IPV4_HDR && r[..2] == ip[..2] && r[4..10] == ip[4..10] && r[12..16] == ip[12..16]
            && r[16..20] == target && BigWord(r, 2) == BigWord(len, 0)
  {
    hide Canon, Sum16;
    var before, after := ip[..2] + len + ip[4..10], ip[12..16] + target;
    CanonSum(Sum16(before + Store16(0) + after), 0);
    var check := Store16(ALL_ONES - Canon(Sum16(before + Store16(0) + after)));
    assert |check| == 2 by { StoreSize(ALL_ONES - Canon(Sum16(before + Store16(0) + after))); }
    assert Filled(before, after) == ip[..2] + len + ip[4..10] + check + ip[12..16] + target;
  }

  lemma NewTcpFields(tcp: Bytes, daddr: Bytes, pseudo: Bytes, rest: Bytes)
    requires |tcp| == TCP_HDR && |daddr| == 4
    ensures var r := NewTcp(tcp, daddr, pseudo, rest);
            && r[..12] == tcp[..12] && r[13..16] == tcp[13..16] && r[18..20] == tcp[18..20]
            && TwoMore(tcp[12], r[12])
            && r[20..22] == [42, 6] && r[22..26] == daddr && r[26..28] == [1, 1]
  {
    hide TcpCheck, LowByte, HighByte;
  }

  lemma SynLayout(eth: Bytes, ip: Bytes, tcp: Bytes, rest: Bytes)
    requires |eth| == ETH_HLEN && |ip| == IPV4_HDR && |tcp| == TCP_HDR + OPT_SIZE
    ensures var g := eth + ip + tcp + rest;
            && g[..14] == eth && g[14..34] == ip && g[34..62] == tcp && g[62..] == rest
            && g[..6] == eth[..6] && g[6..12] == eth[6..12] && g[12..14] == eth[12..14]
            && g[14..16] == ip[..2] && g[18..24] == ip[4..10] && g[26..30] == ip[12..16] && g[30..34] == ip[16..20]
            && g[34..46] == tcp[..12] && g[46] == tcp[12] && g[47..50] == tcp[13..16] && g[52..54] == tcp[18..20]
            && g[54..56] == tcp[20..22] && g[56..60] == tcp[22..26] && g[60..62] == tcp[26..28]
  {
  }

  /** What the target makes of a rewritten SYN: the address in the option becomes the destination again, the
      option goes, and both lengths shrink by it. */
  function Undone(g: Bytes): Bytes
    requires |g| >= ETH_HLEN + IPV4_HDR + TCP_HDR + OPT_SIZE
  {
    g[..16] + Shrunk(BigWord(g, 16)) + g[18..30] + g[56..60]
    + g[34..46] + [ShrunkOffset(g[46])] + g[47..54] + g[62..]
  }

  function Shrunk(len: nat): (r: Bytes)
    ensures |r| == 2
  {
    BigEndian16(if len < 8 then len + 0x1_0000 - 8 else len - 8)
  }

  function ShrunkOffset(b: byte): byte {
    if b < 32 then b + 224 else b - 32
  }

  /** The target gets the SYN as it was sent, in everything but the MAC addresses and the two checksums. */
  lemma SynRoundTrip(f: Bytes, ipOff: nat, tcpOff: nat, target: Bytes, mac: Bytes)
    requires Parsed(f, ipOff, tcpOff) && |target| == 4 && |mac| == 6
    ensures var g := NewSyn(f, ipOff, tcpOff, target, mac);
            var ip, tcp := f[ipOff..ipOff + IPV4_HDR], f[tcpOff..tcpOff + TCP_HDR];
            Undone(g) == mac + f[..6] + f[12..14] + (ip[..10] + g[24..26] + ip[12..])
                         + (tcp[..16] + g[50..52] + tcp[18..]) + f[54..]
  {
    var g := NewSyn(f, ipOff, tcpOff, target, mac);
    NewSynFields(f, ipOff, tcpOff, target, mac);
    hide NewSyn, Shrunk, ShrunkOffset, BigWord, Longer, Undone, TwoMore;
    var ip, tcp := f[ipOff..ipOff + IPV4_HDR], f[tcpOff..tcpOff + TCP_HDR];
    WordBack(f, ipOff + 2);
    OffsetBack(f[tcpOff + 12], g[46]);
    SliceFacts(f, ipOff, ip);
    SliceFacts(f, tcpOff, tcp);
    SubSlice(f, ipOff, ip, 2, 4);
    SubSlice(f, ipOff, ip, 16, 20);
    UndoneParts(g, ip, tcp);
    assert g[..14] == g[..6] + g[6..12] + g[12..14];
  }

  lemma WordBack(f: Bytes, i: nat)
    requires i + 2 <= |f|
    ensures Shrunk(Longer(BigWord(f, i))) == f[i..i + 2]
  {
    BytesBack(f, i);
    hide BigEndian16, BigWord;
  }

  lemma BytesBack(f: Bytes, i: nat)
    requires i + 2 <= |f|
    ensures BigEndian16(BigWord(f, i)) == f[i..i + 2]
  {
    var x := BigWord(f, i);
    DivMod256(x);
    assert Div256(x) == f[i] && LowByte(x) == f[i + 1];
    assert HighByte(x) == LowByte(Div256(x)) == f[i];
    assert f[i..i + 2] == [f[i], f[i + 1]];
  }

  lemma OffsetBack(was: byte, now: byte)
    requires TwoMore(was, now)
    ensures ShrunkOffset(now) == was
  {
  }

  lemma UndoneParts(g: Bytes, ip: Bytes, tcp: Bytes)
    requires |g| >= 62 && |ip| == IPV4_HDR && |tcp| == TCP_HDR
    requires Shrunk(BigWord(g, 16)) == ip[2..4] && ShrunkOffset(g[46]) == tcp[12]
    requires g[14..16] == ip[..2] && g[18..24] == ip[4..10] && g[26..30] == ip[12..16] && g[56..60] == ip[16..20]
    requires g[34..46] == tcp[..12] && g[47..50] == tcp[13..16] && g[52..54] == tcp[18..20]
    ensures Undone(g)
            == g[..14] + (ip[..10] + g[24..26] + ip[12..]) + (tcp[..16] + g[50..52] + tcp[18..]) + g[62..]
  {
    hide Shrunk, ShrunkOffset, BigWord;
    assert g[..16] == g[..14] + g[14..16];
    assert g[18..30] == g[18..24] + g[24..26] + g[26..30] && g[47..54] == g[47..50] + g[50..52] + g[52..54];
    assert ip[..10] == ip[..2] + ip[2..4] + ip[4..10] && ip[12..] == ip[12..16] + ip[16..20];
    assert tcp[..16] == tcp[..12] + [tcp[12]] + tcp[13..16] && tcp[18..] == tcp[18..20];
    Regrouped(g[..14], ip[..2], ip[2..4], ip[4..10], g[24..26], ip[12..16], ip[16..20],
              tcp[..12], [tcp[12]], tcp[13..16], g[50..52], tcp[18..20], g[62..]);
  }

  lemma Regrouped(eth: Bytes, a: Bytes, b: Bytes, c: Bytes, check: Bytes, d: Bytes, e: Bytes,
                  i: Bytes, j: Bytes, k: Bytes, check': Bytes, l: Bytes, rest: Bytes)
    ensures (eth + a) + b + (c + check + d) + e + i + j + (k + check' + l) + rest
            == eth + ((a + b + c) + check + (d + e)) + ((i + j + k) + check' + l) + rest
  {
  }

  // ----- its checksums

  lemma NewIpVerifies(ip: Bytes, target: Bytes)
    requires |ip| == IPV4_HDR && |target| == 4 && ip[0] > 0
    ensures Verifies(NewIp(ip, target))
  {
    hide Verifies, Filled, BigEndian16, TotalLength, Sum16;
    var len := Wrap16(TotalLength(ip) + OPT_SIZE);
    var before := ip[..2] + BigEndian16(len) + ip[4..10];
    BigEndianSize(len);
    SumPositive(before);
    FilledVerifies(before, ip[12..16] + target);
  }

  /** The sum of a segment in its three parts. */
  lemma SegmentSum(tcp: Bytes, daddr: Bytes, check: nat, pseudo: Bytes, payload: Bytes)
    requires |tcp| == TCP_HDR && |daddr| == 4 && check <= ALL_ONES && |pseudo| % 2 == 0
    ensures var zeroed := TcpBefore(tcp) + Store16(0) + TcpAfter(tcp, daddr);
            Sum16(pseudo + (TcpBefore(tcp) + Store16(check) + TcpAfter(tcp, daddr) + payload))
            == Sum16(pseudo) + Sum16(zeroed) + check + Sum16(payload)
  {
    hide Sum16, TcpBefore, TcpAfter, Store16;
    var hdr := TcpBefore(tcp) + Store16(check) + TcpAfter(tcp, daddr);
    FilledSum(TcpBefore(tcp), check, TcpAfter(tcp, daddr));
    FilledSum(TcpBefore(tcp), 0, TcpAfter(tcp, daddr));
    assert |Store16(check)| == 2 by { StoreSize(check); }
    SumConcat(hdr, payload);
    SumConcat(pseudo, hdr + payload);
  }

  /** The rewritten segment, as its receiver sums it over payload, verifies exactly when payload and
      the covered bytes have the same one's complement sum. */
  lemma NewTcpVerifiesIff(tcp: Bytes, daddr: Bytes, pseudo: Bytes, rest: Bytes, payload: Bytes)
    requires |tcp| == TCP_HDR && |daddr| == 4 && |pseudo| % 2 == 0 && Sum16(pseudo) > 0
    ensures Verifies(pseudo + (NewTcp(tcp, daddr, pseudo, rest) + payload))
            <==> Sum16(payload) % ALL_ONES == Sum16(Covered(rest)) % ALL_ONES
  {
    hide Sum16, Verifies, Canon, Covered, Store16, TcpBefore, TcpAfter;
    var check := TcpCheck(tcp, daddr, pseudo, rest);
    var zeroed := TcpBefore(tcp) + Store16(0) + TcpAfter(tcp, daddr);
    SegmentSum(tcp, daddr, check, pseudo, payload);
    ComplementCompletes(Sum16(zeroed) + Sum16(Covered(rest)) + Sum16(pseudo));
    VerifiesIff(pseudo + (NewTcp(tcp, daddr, pseudo, rest) + payload));
    SameResidue(Sum16(pseudo) + Sum16(zeroed) + check, Sum16(Covered(rest)), Sum16(payload));
  }

  lemma SameResidue(base: nat, c: nat, x: nat)
    requires (base + c) % ALL_ONES == 0
    ensures (base + x) % ALL_ONES == 0 <==> x % ALL_ONES == c % ALL_ONES
  {
  }

  /** The protocol number alone keeps a pseudo-header's sum from being zero. */
  lemma PseudoPositive(addrs: Bytes, len: Bytes)
    requires |addrs| % 2 == 0
    ensures Sum16(addrs + [0, IPPROTO_TCP] + len) > 0
  {
    hide Sum16;
    SumConcat(addrs + [0, IPPROTO_TCP], len);
    SumConcat(addrs, [0, IPPROTO_TCP]);
    SumWord(0, IPPROTO_TCP);
  }

  /** The IPv4 header of every rewritten SYN verifies. Its TCP segment, which ends where the total length
      says, verifies exactly when the bytes of the segment after the option and the bytes covered by the
      checksum loop have the same one's complement sum. */
  lemma NewSynVerifiesIff(f: Bytes, ipOff: nat, tcpOff: nat, target: Bytes, mac: Bytes, end: nat)
    requires Parsed(f, ipOff, tcpOff) && |target| == 4 && |mac| == 6 && 62 <= end <= |f| + OPT_SIZE
    ensures var g := NewSyn(f, ipOff, tcpOff, target, mac);
            Verifies(g[14..34])
            && (Verifies(PseudoHeader(g[14..34]) + g[34..end])
                <==> Sum16(f[54..end - OPT_SIZE]) % ALL_ONES == Sum16(Covered(f[54..])) % ALL_ONES)
  {
    hide Verifies, NewIp, NewTcp, Sum16, Covered, BigEndian16, TotalLength;
    var g := NewSyn(f, ipOff, tcpOff, target, mac);
    var ip := NewIp(f[ipOff..ipOff + IPV4_HDR], target);
    PseudoPositive(ip[12..16] + ip[16..20], BigEndian16(Wrap16(TotalLength(ip) + 0x1_0000 - IPV4_HDR)));
    assert Sum16(PseudoHeader(ip)) > 0;
    hide PseudoHeader;
    var tcp, daddr := f[tcpOff..tcpOff + TCP_HDR], f[ipOff + 16..ipOff + IPV4_HDR];
    var payload := f[54..end - OPT_SIZE];
    SegmentParts(mac + f[..6] + f[12..14], ip, NewTcp(tcp, daddr, PseudoHeader(ip), f[54..]), f[54..], end);
    assert f[54..][..end - 62] == payload;
    NewIpVerifies(f[ipOff..ipOff + IPV4_HDR], target);
    NewTcpVerifiesIff(tcp, daddr, PseudoHeader(ip), f[54..], payload);
  }

  lemma SegmentParts(eth: Bytes, ip: Bytes, tcp: Bytes, rest: Bytes, end: nat)
    requires |eth| == ETH_HLEN && |ip| == IPV4_HDR && |tcp| == TCP_HDR + OPT_SIZE && 62 <= end <= 62 + |rest|
    ensures var g := eth + ip + tcp + rest; g[14..34] == ip && g[34..end] == tcp + rest[..end - 62]
  {
  }

  /** The TCP segment of a frame without padding, as its receiver sums it. */
  ghost predicate SegmentVerifies(g: Bytes)
    requires |g| >= 34
  {
    Verifies(PseudoHeader(g[14..34]) + g[34..])
  }

  /** So a SYN whose options and data are at most ten whole words, in a frame without padding, verifies. */
  lemma NewSynVerifies(f: Bytes, ipOff: nat, tcpOff: nat, target: Bytes, mac: Bytes, words: nat)
    requires Parsed(f, ipOff, tcpOff) && |target| == 4 && |mac| == 6
    requires |f| == 54 + 4 * words && words <= MAX_OPT_WORDS
    ensures var g := NewSyn(f, ipOff, tcpOff, target, mac);
            Verifies(g[14..34]) && SegmentVerifies(g)
  {
    hide Verifies, NewSyn, PseudoHeader;
    var g := NewSyn(f, ipOff, tcpOff, target, mac);
    NewSynVerifiesIff(f, ipOff, tcpOff, target, mac, |g|);
    assert f[54..|g| - OPT_SIZE] == f[54..] == Covered(f[54..]);
    assert g[34..|g|] == g[34..];
  }

  /** What the receiver of frame g sums by section 3.1 of RFC 793: both addresses, the protocol, the length of
      what follows the IPv4 header, and that itself. */
  function ReceiverSums(g: Bytes): Bytes
    requires |g| >= 34
  {
    g[26..30] + g[30..34] + [0, 6] + BigEndian16(|g| - 34) + g[34..]
  }

  /** A SYN as it is sent, without IPv4 options or padding and with at most ten whole words after the fixed TCP
      header, is accepted by its receiver after the rewriting: the total length is that of the frame and both
      checksums are right. */
  lemma SynAccepted(f: Bytes, target: Bytes, mac: Bytes, words: nat)
    requires Parsed(f, 14, 34) && |target| == 4 && |mac| == 6
    requires |f| == 54 + 4 * words && words <= 10 && BigWord(f, 16) == |f| - 14
    ensures var g := NewSyn(f, 14, 34, target, mac);
            BigWord(g, 16) == |g| - 14 && Verifies(g[14..34]) && Verifies(ReceiverSums(g))
  {
    hide Verifies, NewSyn, PseudoHeader, ReceiverSums, BigWord;
    var g := NewSyn(f, 14, 34, target, mac);
    NewSynLength(f, target, mac);
    NewSynVerifies(f, 14, 34, target, mac, words);
    PseudoIs(g);
  }

  lemma NewSynLength(f: Bytes, target: Bytes, mac: Bytes)
    requires Parsed(f, 14, 34) && |target| == 4 && |mac| == 6 && |f| <= 94 && BigWord(f, 16) == |f| - 14
    ensures var g := NewSyn(f, 14, 34, target, mac); BigWord(g, 16) == |g| - 14
  {
    hide NewSyn, BigWord, Longer;
    NewSynTotal(f, 14, 34, target, mac);
    LongerSmall(|f| - 14);
  }

  lemma PseudoIs(g: Bytes)
    requires |g| >= 34 && |g| - 14 <= ALL_ONES && BigWord(g, 16) == |g| - 14
    ensures PseudoHeader(g[14..34]) + g[34..] == ReceiverSums(g)
  {
    hide BigEndian16;
    var ip := g[14..34];
    WordMoves(g, 14, ip, 2);
    assert TotalLength(ip) == |g| - 14;
    assert Wrap16(TotalLength(ip) + 0x1_0000 - IPV4_HDR) == |g| - 34;
    SubSlice(g, 14, ip, 12, 16);
    SubSlice(g, 14, ip, 16, 20);
  }

  /** What reaches handle_syn in a plain frame without IPv4 options: IPv4, TCP, a data offset that the
      frame has room for, the SYN flag and no ACK flag. */
  predicate IsSyn(f: Bytes) {
    && |f| >= ETH_HLEN + IPV4_HDR + TCP_HDR
    && f[12] == 8 && f[13] == 0 && f[14] % 16 == 5 && f[23] == IPPROTO_TCP
    && 5 <= f[46] / 16 && 34 + 4 * (f[46] / 16) <= |f|
    && f[47] / 2 % 2 == 1 && f[47] / 16 % 2 == 0
  }

  /** A SYN with the given length and data offset, and tail after its fixed headers. */
  function Syn(len: byte, offset: byte, tail: Bytes): Bytes {
    Zeros(12) + [8, 0, 0x45, 0, 0, len] + Zeros(4) + [64, IPPROTO_TCP] + Zeros(22) + [offset, 2] + Zeros(6) + tail
  }

  lemma SynParts(len: byte, offset: byte, tail: Bytes)
    requires 5 <= offset / 16 && 4 * (offset / 16) <= TCP_HDR + |tail|
    ensures var f := Syn(len, offset, tail);
            |f| == 54 + |tail| && f[46] == offset && f[54..] == tail && Parsed(f, 14, 34) && IsSyn(f)
  {
    var f := Syn(len, offset, tail);
    assert f[14] == 0x45 && f[23] == IPPROTO_TCP && f[46] == offset && f[47] == 2;
  }

  /** A SYN with eleven words after its fixed headers, the last of them not zero. */
  function LongSyn(): Bytes {
    Syn(84, 0x50, Zeros(40) + [1, 0, 0, 0])
  }

  predicate EndsLong(f: Bytes) {
    |f| == 54 + 4 * (MAX_OPT_WORDS + 1) && f[54..] == Zeros(40) + [1, 0, 0, 0]
  }

  lemma LongSynParts()
    ensures IsSyn(LongSyn()) && Parsed(LongSyn(), 14, 34) && EndsLong(LongSyn())
  {
    hide Syn, IsSyn;
    SynParts(84, 0x50, Zeros(40) + [1, 0, 0, 0]);
  }

  /** Every SYN with those words, LongSyn for one, is rewritten to a segment that does not verify. */
  lemma LongSynFails(f: Bytes, ipOff: nat, tcpOff: nat, target: Bytes, mac: Bytes)
    requires Parsed(f, ipOff, tcpOff) && |target| == 4 && |mac| == 6
    requires EndsLong(f)
    ensures var g := NewSyn(f, ipOff, tcpOff, target, mac);
            !SegmentVerifies(g)
  {
    ElevenWords(f[54..]);
    hide Verifies, NewSyn, PseudoHeader, Sum16, Covered, Zeros;
    var g := NewSyn(f, ipOff, tcpOff, target, mac);
    NewSynVerifiesIff(f, ipOff, tcpOff, target, mac, |g|);
    assert f[54..|g| - OPT_SIZE] == f[54..];
    assert g[34..|g|] == g[34..];
  }

  lemma ElevenWords(rest: Bytes)
    requires rest == Zeros(40) + [1, 0, 0, 0]
    ensures Sum16(rest) == 1 && Sum16(Covered(rest)) == 0
  {
    hide Sum16;
    assert Covered(rest) == Zeros(40);
    SumZeros(40);
    SumConcat(Zeros(40), [1, 0, 0, 0]);
    SumConcat([1, 0], [0, 0]);
    assert [1, 0] + [0, 0] == [1, 0, 0, 0];
    SumWord(1, 0);
    SumWord(0, 0);
  }

  // ----- its data offset

  /** The data offset counts the new option exactly when the old one was at most 13; otherwise the two
      words wrap it around to one that no TCP header can have. */
  lemma OffsetGrownIff(f: Bytes, ipOff: nat, tcpOff: nat, target: Bytes, mac: Bytes)
    requires Parsed(f, ipOff, tcpOff) && |target| == 4 && |mac| == 6
    ensures var g, was := NewSyn(f, ipOff, tcpOff, target, mac), f[tcpOff + 12] / 16;
            && g[46] % 16 == f[tcpOff + 12] % 16
            && (g[46] / 16 == was + 2 <==> was <= 13)
            && (was > 13 ==> g[46] / 16 == was - 14 < 5)
  {
    hide NewIp, TcpCheck, Store16, GrownOffset, PseudoHeader;
    assert NewSyn(f, ipOff, tcpOff, target, mac)[46] == GrownOffset(f[tcpOff + 12]);
    hide NewSyn;
    GrownFacts(f[tcpOff + 12]);
  }

  lemma GrownFacts(b: byte)
    ensures var r, was := GrownOffset(b), b / 16;
            r % 16 == b % 16 && (r / 16 == was + 2 <==> was <= 13) && (was > 13 ==> r / 16 == was - 14 < 5)
  {
  }

  /** A SYN with as many options as TCP allows, rewritten to a segment with a data offset of 1. */
  lemma FullSynFails(target: Bytes, mac: Bytes) returns (f: Bytes)
    requires |target| == 4 && |mac| == 6
    ensures IsSyn(f) && Parsed(f, 14, 34) && NewSyn(f, 14, 34, target, mac)[46] / 16 == 1
  {
    hide Syn, IsSyn, NewSyn;
    f := Syn(80, 0xF0, Zeros(40));
    SynParts(80, 0xF0, Zeros(40));
    OffsetGrownIff(f, 14, 34, target, mac);
  }

  // ----- the rewriting in place

  /** Zero the IPv4 checksum, let bpf_csum_diff sum the header, store the complement. */
  method FixIpChecksum(p: Packet)
    requires p.Valid() && ETH_HLEN + IPV4_HDR <= p.dataEnd - p.data
    modifies p.buf
    ensures var f := old(p.Frame());
            p.Frame() == f[..14] + Refreshed(f[14..34]) + f[34..]
  {
    hide Canon, Sum16, CsumDiff, Refreshed;
    ghost var f := p.Frame();
    p.Write(24, [0, 0]);
    var hdr := p.Read(ETH_HLEN, IPV4_HDR);
    ZeroedHeader(f, ETH_HLEN);
    CsumDiffIsSum(hdr, 0);
    p.Write(24, Store16(ALL_ONES - CsumReduceHelper(CsumDiff(hdr, 0))));
    RefreshedInPlace(f, ETH_HLEN);
  }

  /** The running checksum of the words after the option. */
  method SumOptions(p: Packet, seed: nat) returns (csum: nat)
    requires p.Valid() && 62 <= p.dataEnd - p.data && seed < 0x1_0000_0000
    ensures csum < 0x1_0000_0000
    ensures Canon(csum) == Canon(seed + Sum16(Covered(p.Frame()[62..])))
  {
    hide Canon, CsumDiff, Sum16;
    ghost var rest := p.Frame()[62..];
    csum := seed;
    var i := 0;
    assert rest[..0] == [];
    SumNothing();
    while i < MAX_OPT_WORDS && 62 + 4 * (i + 1) <= p.dataEnd - p.data
      invariant 0 <= i <= MAX_OPT_WORDS && 4 * i <= |rest| && csum < 0x1_0000_0000
      invariant Canon(csum) == Canon(seed + Sum16(rest[..4 * i]))
    {
      var word := p.Read(62 + 4 * i, 4);
      CsumDiffIsSum(word, csum);
      assert rest[..4 * (i + 1)] == rest[..4 * i] + word;
      SumConcat(rest[..4 * i], word);
      CanonSum(csum, Sum16(word));
      CanonSum(seed + Sum16(rest[..4 * i]), Sum16(word));
      csum := CsumDiff(word, csum);
      i := i + 1;
    }
  }

  /** The TCP header with its option in place and its checksum zero. */
  method PlaceTcp(p: Packet, tcp: Bytes, daddr: Bytes)
    requires p.Valid() && 62 <= p.dataEnd - p.data && |tcp| == TCP_HDR && |daddr| == 4
    modifies p.buf
    ensures var f := old(p.Frame());
            p.Frame() == f[..34] + (TcpBefore(tcp) + Store16(0) + TcpAfter(tcp, daddr)) + f[62..]
  {
    ghost var f := p.Frame();
    ghost var h := f[34..62];
    assert f == Splice(f, 34, h);
    h := WriteField(p, 34, 0, tcp, f, h);
    h := WriteField(p, 34, 12, [GrownOffset(tcp[12])], f, h);
    h := WriteField(p, 34, 20, RedirOpt(daddr), f, h);
    h := WriteField(p, 34, 16, [0, 0], f, h);
    TcpInPlace(f[34..62], tcp, daddr);
  }

  lemma TcpInPlace(h: Bytes, tcp: Bytes, daddr: Bytes)
    requires |h| == TCP_HDR + OPT_SIZE && |tcp| == TCP_HDR && |daddr| == 4
    ensures Splice(Splice(Splice(Splice(h, 0, tcp), 12, [GrownOffset(tcp[12])]), 20, RedirOpt(daddr)), 16, [0, 0])
            == TcpBefore(tcp) + Store16(0) + TcpAfter(tcp, daddr)
  {
    hide GrownOffset, Splice;
    var opt, grown := RedirOpt(daddr), [GrownOffset(tcp[12])];
    assert h == [] + h[..20] + h[20..];
    SpliceParts([], h[..20], tcp, h[20..]);
    assert [] + tcp + h[20..] == tcp[..12] + [tcp[12]] + (tcp[13..] + h[20..]);
    SpliceParts(tcp[..12], [tcp[12]], grown, tcp[13..] + h[20..]);
    var before := TcpBefore(tcp);
    assert tcp[..12] + grown + (tcp[13..] + h[20..]) == (before + tcp[16..18] + tcp[18..]) + h[20..] + [];
    SpliceParts(before + tcp[16..18] + tcp[18..], h[20..], opt, []);
    assert (before + tcp[16..18] + tcp[18..]) + opt + [] == before + tcp[16..18] + (tcp[18..] + opt);
    SpliceParts(before, tcp[16..18], [0, 0], tcp[18..] + opt);
    assert Store16(0) == [0, 0];
  }

  /** Everything from the TCP header on. */
  method RewriteTcp(p: Packet, tcp: Bytes, daddr: Bytes)
    requires p.Valid() && 62 <= p.dataEnd - p.data && |tcp| == TCP_HDR && |daddr| == 4
    modifies p.buf
    ensures var f := old(p.Frame());
            p.Frame() == f[..34] + NewTcp(tcp, daddr, PseudoHeader(f[14..34]), f[62..]) + f[62..]
  {
    hide Canon, Sum16, CsumDiff, TcpBefore, TcpAfter, PseudoHeader, Covered, Store16;
    ghost var f := p.Frame();
    PlaceTcp(p, tcp, daddr);
    ghost var g := p.Frame();
    ghost var zeroed := TcpBefore(tcp) + Store16(0) + TcpAfter(tcp, daddr);
    assert |Store16(0)| == 2 by { StoreSize(0); }
    assert g[62..] == f[62..] && g[14..34] == f[14..34] && g[34..62] == zeroed;
    var hdr := p.Read(34, 28);
    CsumDiffIsSum(hdr, 0);
    var csum := SumOptions(p, CsumDiff(hdr, 0));
    csum := CsumReduceHelper(csum);
    var ip := p.Read(ETH_HLEN, IPV4_HDR);
    var pseudo := PseudoHeader(ip);
    CsumDiffIsSum(pseudo, csum);
    CheckIsSum(CsumDiff(hdr, 0), Sum16(zeroed), Sum16(Covered(f[62..])), csum, Sum16(pseudo));
    var check := ALL_ONES - CsumReduceHelper(CsumDiff(pseudo, csum));
    assert check == TcpCheck(tcp, daddr, pseudo, f[62..]);
    assert |Store16(check)| == 2 by { StoreSize(check); }
    p.Write(50, Store16(check));
    CheckStored(f, TcpBefore(tcp), Store16(0), TcpAfter(tcp, daddr), Store16(check));
  }

  lemma CheckStored(f: Bytes, before: Bytes, zero: Bytes, after: Bytes, check: Bytes)
    requires |f| >= 62 && |before| == 16 && |zero| == 2 && |after| == 10 && |check| == 2
    ensures Splice(f[..34] + (before + zero + after) + f[62..], 50, check)
            == f[..34] + (before + check + after) + f[62..]
  {
  }

  /** The two reductions and the seeds in between add up. */
  lemma CheckIsSum(first: nat, zeroed: nat, covered: nat, reduced: nat, pseudo: nat)
    requires Canon(first) == Canon(zeroed) && reduced == Canon(first + covered)
    ensures Canon(reduced + pseudo) == Canon(zeroed + covered + pseudo)
  {
    hide Canon;
    CanonSum(first, covered);
    CanonSum(zeroed, covered);
    CanonSum(first + covered, pseudo);
    CanonSum(zeroed + covered, pseudo);
  }

  function NewLength(ip: Bytes): (r: Bytes)
    requires |ip| == IPV4_HDR
    ensures |r| == 2
  {
    BigEndian16(Wrap16(TotalLength(ip) + OPT_SIZE))
  }

  /** The saved headers at the new head of the packet, with the new total length. */
  method CopyHeaders(p: Packet, eth: Bytes, ip: Bytes)
    requires p.Valid() && ETH_HLEN + IPV4_HDR <= p.dataEnd - p.data && |eth| == ETH_HLEN && |ip| == IPV4_HDR
    modifies p.buf
    ensures p.Frame() == eth + (ip[..2] + NewLength(ip) + ip[4..]) + old(p.Frame()[34..])
  {
    hide NewLength;
    ghost var g := p.Frame();
    p.Write(0, eth);
    p.Write(ETH_HLEN, ip);
    p.Write(16, NewLength(ip));
    CopiedInPlace(g, eth, ip, NewLength(ip));
  }

  lemma CopiedInPlace(g: Bytes, eth: Bytes, ip: Bytes, len: Bytes)
    requires |g| >= 34 && |eth| == ETH_HLEN && |ip| == IPV4_HDR && |len| == 2
    ensures Splice(Splice(Splice(g, 0, eth), ETH_HLEN, ip), 16, len) == eth + (ip[..2] + len + ip[4..]) + g[34..]
  {
    hide Splice;
    assert g == [] + g[..14] + (g[14..34] + g[34..]);
    SpliceParts([], g[..14], eth, g[14..34] + g[34..]);
    assert [] + eth + (g[14..34] + g[34..]) == eth + g[14..34] + g[34..];
    SpliceParts(eth, g[14..34], ip, g[34..]);
    assert ip == ip[..2] + ip[2..4] + ip[4..];
    assert eth + ip + g[34..] == (eth + ip[..2]) + ip[2..4] + (ip[4..] + g[34..]);
    SpliceParts(eth + ip[..2], ip[2..4], len, ip[4..] + g[34..]);
    assert (eth + ip[..2]) + len + (ip[4..] + g[34..]) == eth + (ip[..2] + len + ip[4..]) + g[34..];
  }

  /** The target as destination, the MAC addresses that go with it, and the new IPv4 checksum. */
  method Redirect(p: Packet, eth: Bytes, ip: Bytes, target: Bytes, mac: Bytes, ghost tail: Bytes)
    requires p.Valid() && |eth| == ETH_HLEN && |ip| == IPV4_HDR && |target| == 4 && |mac| == 6
    requires p.Frame() == eth + (ip[..2] + NewLength(ip) + ip[4..]) + tail
    modifies p.buf
    ensures p.Frame() == mac + eth[..6] + eth[12..] + NewIp(ip, target) + tail
  {
    hide NewLength, NewIp, Refreshed;
    ghost var pre := ip[..2] + NewLength(ip) + ip[4..16];
    assert ip[4..] == ip[4..16] + ip[16..];
    assert ip[..2] + NewLength(ip) + ip[4..] == pre + ip[16..];
    p.Write(30, target);
    p.Write(6, eth[..6]);
    p.Write(0, mac);
    RedirectInPlace(eth, pre, ip[16..], target, mac, tail);
    FixIpChecksum(p);
    NewIpIsRefreshed(ip, target);
  }

  lemma RedirectInPlace(eth: Bytes, pre: Bytes, daddr: Bytes, target: Bytes, mac: Bytes, tail: Bytes)
    requires |eth| == ETH_HLEN && |pre| == 16 && |daddr| == 4 && |target| == 4 && |mac| == 6
    ensures var h := Splice(Splice(Splice(eth + (pre + daddr) + tail, 30, target), 6, eth[..6]), 0, mac);
            h[..14] == mac + eth[..6] + eth[12..] && h[14..34] == pre + target && h[34..] == tail
  {
    var g := eth + (pre + target) + tail;
    DaddrInPlace(eth, pre, daddr, target, tail);
    NewEthernet(g, eth, mac);
    Parts(eth, pre + target, tail);
    Parts(mac + eth[..6] + eth[12..], pre + target, tail);
  }

  lemma DaddrInPlace(eth: Bytes, pre: Bytes, daddr: Bytes, target: Bytes, tail: Bytes)
    requires |eth| == ETH_HLEN && |pre| == 16 && |daddr| == 4 && |target| == 4
    ensures Splice(eth + (pre + daddr) + tail, 30, target) == eth + (pre + target) + tail
  {
    assert eth + (pre + daddr) + tail == (eth + pre) + daddr + tail;
    assert eth + (pre + target) + tail == (eth + pre) + target + tail;
  }

  lemma Parts(eth: Bytes, ip: Bytes, tail: Bytes)
    requires |eth| == ETH_HLEN && |ip| == IPV4_HDR
    ensures var h := eth + ip + tail;
            h[..14] == eth && h[14..34] == ip && h[34..] == tail && h[14..] == ip + tail
            && eth + (ip + tail) == h
  {
  }

  lemma NewIpIsRefreshed(ip: Bytes, target: Bytes)
    requires |ip| == IPV4_HDR && |target| == 4
    ensures NewIp(ip, target) == Refreshed(ip[..2] + NewLength(ip) + ip[4..16] + target)
  {
    hide Filled, BigEndian16;
    var edited := ip[..2] + NewLength(ip) + ip[4..16] + target;
    assert edited[..10] == ip[..2] + NewLength(ip) + ip[4..10] && edited[12..] == ip[12..16] + target;
  }

  lemma NewEthernet(g: Bytes, eth: Bytes, mac: Bytes)
    requires |eth| == ETH_HLEN && |mac| == 6 && eth <= g
    ensures Splice(Splice(g, 6, eth[..6]), 0, mac) == mac + eth[..6] + eth[12..] + g[ETH_HLEN..]
  {
  }

  /** What is in place after the redirection, and what rewriting the segment then makes of it. */
  lemma Assembled(f: Bytes, ipOff: nat, tcpOff: nat, target: Bytes, mac: Bytes, tail: Bytes)
    requires Parsed(f, ipOff, tcpOff) && |target| == 4 && |mac| == 6
    requires |tail| == |f| - 26 && tail[28..] == f[54..]
    ensures var eth, ip, tcp := f[0..ETH_HLEN], f[ipOff..ipOff + IPV4_HDR], f[tcpOff..tcpOff + TCP_HDR];
            var h := mac + eth[..6] + eth[12..] + NewIp(ip, target) + tail;
            h[..34] + NewTcp(tcp, ip[16..20], PseudoHeader(h[14..34]), h[62..]) + h[62..]
            == NewSyn(f, ipOff, tcpOff, target, mac)
  {
    hide NewTcp, PseudoHeader, NewIp;
    var eth, ip := f[0..ETH_HLEN], f[ipOff..ipOff + IPV4_HDR];
    var front := mac + eth[..6] + eth[12..];
    Parts(front, NewIp(ip, target), tail);
    var h := front + NewIp(ip, target) + tail;
    assert h[62..] == h[34..][28..];
    assert h[..34] == front + NewIp(ip, target);
    assert eth[..6] == f[..6] && eth[12..] == f[12..14] && ip[16..20] == f[ipOff + 16..ipOff + IPV4_HDR];
  }

  /** handle_syn. The bounds checks after the head has moved cannot fail: the packet has grown. */
  method HandleSyn(p: Packet, ipOff: nat, tcpOff: nat, target: Option<Bytes>, macs: map<Bytes, Bytes>)
    returns (action: Action)
    requires p.Valid() && Parsed(p.Frame(), ipOff, tcpOff)
    requires target.Some? ==> |target.value| == 4
    requires forall ip :: ip in macs ==> |macs[ip]| == 6
    modifies p`data, p.buf
    ensures p.Valid()
    ensures action == Aborted <==> old(p.data) < OPT_SIZE || target.None? || target.value !in macs
    ensures action != Aborted ==>
              action == Tx && p.Frame() == NewSyn(old(p.Frame()), ipOff, tcpOff, target.value, macs[target.value])
  {
    hide NewTcp, PseudoHeader, NewIp, NewLength, NewSyn;
    ghost var f := p.Frame();
    var eth := p.Read(0, ETH_HLEN);
    var ip := p.Read(ipOff, IPV4_HDR);
    var tcp := p.Read(tcpOff, TCP_HDR);
    var failed := p.AdjustHead(0 - OPT_SIZE);
    if failed {
      return Aborted;
    }
    ghost var tail := p.Frame()[34..];
    assert tail[28..] == f[54..];
    CopyHeaders(p, eth, ip);
    if target.None? || target.value !in macs {
      return Aborted;
    }
    Redirect(p, eth, ip, target.value, macs[target.value], tail);
    Assembled(f, ipOff, tcpOff, target.value, macs[target.value], tail);
    RewriteTcp(p, tcp, ip[16..20]);
    return Tx;
  }
}
