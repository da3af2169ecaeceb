/** IPv4 header creation and TTL decrement in place: ebpf-nfs/katran/encap_helpers.h,
    csum_helpers.h and balancer_helpers.h. */
module Ipv4 {
  import opened Checksums
  import opened Packets

  const DEFAULT_TTL: byte := 64
  const IPPROTO_IPIP: byte := 4
  const IPPROTO_IPV6: byte := 41
  const IPV4_HDR := 20
  const IPV6_HDR := 40

  /** Big-endian bytes of a 16-bit field. */
  function BigEndian16(x: nat): Bytes {
    [HighByte(x), LowByte(x)]
  }

  /** Section 3.1 of RFC 791, without options. */
  function V4Fields(tos: byte, totLen: nat, id: Bytes, ttl: byte, proto: byte, check: nat,
                    saddr: Bytes, daddr: Bytes): Bytes
  {
    [0x45, tos] + BigEndian16(totLen) + id + [0, 0] + [ttl, proto] + Store16(check) + saddr + daddr
  }

  /** The header with its checksum filled in. */
  function V4Header(tos: byte, totLen: nat, id: Bytes, proto: byte, saddr: Bytes, daddr: Bytes): Bytes {
    V4Fields(tos, totLen, id, DEFAULT_TTL, proto,
             ALL_ONES - Canon(Sum16(V4Fields(tos, totLen, id, DEFAULT_TTL, proto, 0, saddr, daddr))), saddr, daddr)
  }

  ghost predicate AddrSize(saddr: Bytes, daddr: Bytes) {
    |saddr| == 4 && |daddr| == 4
  }

  /** Storing a checksum over a zero word adds it to the sum. */
  lemma FilledSum(before: Bytes, check: nat, after: Bytes)
    requires |before| % 2 == 0 && check <= ALL_ONES
    ensures Sum16(before + Store16(check) + after) == Sum16(before) + check + Sum16(after)
  {
    hide Sum16, Store16, Word;
    StoreSum(check);
    StoreSize(check);
    SumConcat(before + Store16(check), after);
    SumConcat(before, Store16(check));
  }

  /** Data around a checksum word that complements the rest. */
  function Filled(before: Bytes, after: Bytes): Bytes {
    before + Store16(ALL_ONES - Canon(Sum16(before + Store16(0) + after))) + after
  }

  lemma FilledVerifies(before: Bytes, after: Bytes)
    requires |before| % 2 == 0 && Sum16(before) + Sum16(after) > 0
    ensures Verifies(Filled(before, after))
  {
    hide Sum16, Canon, Store16, Verifies;
    var sum := Sum16(before + Store16(0) + after);
    CanonSum(sum, 0);
    FilledSum(before, 0, after);
    FilledSum(before, ALL_ONES - Canon(sum), after);
    ComplementCompletes(sum);
    assert Sum16(Filled(before, after)) == sum + (ALL_ONES - Canon(sum));
    VerifiesIff(Filled(before, after));
  }

  /** Whatever the fields, and whatever the identification left in the buffer, the header that
      create_v4_hdr writes verifies. */
  lemma HeaderVerifies(tos: byte, totLen: nat, id: Bytes, proto: byte, saddr: Bytes, daddr: Bytes)
    requires |id| == 2 && AddrSize(saddr, daddr)
    ensures |V4Header(tos, totLen, id, proto, saddr, daddr)| == IPV4_HDR
    ensures Verifies(V4Header(tos, totLen, id, proto, saddr, daddr))
  {
    var before := [0x45, tos] + BigEndian16(totLen) + id + [0, 0] + [DEFAULT_TTL, proto];
    var after := saddr + daddr;
    assert Sum16(before) > 0 by {
      SumPositive(before);
    }
    assert forall c :: V4Fields(tos, totLen, id, DEFAULT_TTL, proto, c, saddr, daddr) == before + Store16(c) + after;
    FilledVerifies(before, after);
  }

  lemma SumPositive(b: Bytes)
    requires |b| >= 2 && b[0] > 0
    ensures Sum16(b) > 0
  {
  }

  /** ipv4_csum_inline: the ten header words summed from memory, folded and complemented. */
  method Ipv4CsumInline(p: Packet, off: nat) returns (csum: nat)
    requires p.Valid() && off + IPV4_HDR <= p.dataEnd - p.data
    ensures csum == ALL_ONES - Canon(Sum16(p.Frame()[off..off + IPV4_HDR]))
  {
    hide Sum16, Word;
    assert Sum16([]) == 0 by { SumNothing(); }
    var sum := 0;
    ghost var hdr := p.Frame()[off..off + IPV4_HDR];
    assert hdr[0..] == hdr;
    var i := 0;
    while i < IPV4_HDR / 2
      invariant 0 <= i <= IPV4_HDR / 2 && 0 <= sum <= i * ALL_ONES
      invariant sum + Sum16(hdr[2 * i..]) == Sum16(hdr)
    {
      var word := p.Read(off + 2 * i, 2);
      WordAt(p.Frame(), off, IPV4_HDR, 2 * i);
      sum := sum + Word(word[0], word[1]);
      i := i + 1;
    }
    assert hdr[20..] == [];
    csum := CsumFoldHelper(sum);
  }

  /** The word at position at of a region's n bytes, and the rest of the sum. */
  lemma WordAt(f: Bytes, off: nat, n: nat, at: nat)
    requires off + n <= |f| && at + 2 <= n
    ensures var hdr, word := f[off..off + n], f[off + at..off + at + 2];
            Sum16(hdr[at..]) == Word(word[0], word[1]) + Sum16(hdr[at + 2..])
  {
    var tail := f[off..off + n][at..];
    assert tail[0] == f[off + at] && tail[1] == f[off + at + 1];
    assert tail[2..] == f[off..off + n][at + 2..];
  }

  /** create_v4_hdr: every field but the identification is written, the checksum last. */
  method CreateV4Hdr(p: Packet, off: nat, tos: byte, saddr: Bytes, daddr: Bytes, pktBytes: nat, proto: byte)
    requires p.Valid() && off + IPV4_HDR <= p.dataEnd - p.data
    requires AddrSize(saddr, daddr) && pktBytes <= ALL_ONES
    modifies p.buf
    ensures p.buf[..p.data] == old(p.buf[..p.data])
    ensures var id := old(p.Frame()[off + 4..off + 6]);
            var totLen := (pktBytes + IPV4_HDR) % 0x1_0000;
            p.Frame() == Splice(old(p.Frame()), off, V4Header(tos, totLen, id, proto, saddr, daddr))
  {
    ghost var f := p.Frame();
    ghost var id := f[off + 4..off + 6];
    var totLen := (pktBytes + IPV4_HDR) % 0x1_0000;
    ghost var h := f[off..off + IPV4_HDR];
    assert f == Splice(f, off, h);
    h := WriteField(p, off, 0, [0x45], f, h);
    h := WriteField(p, off, 6, [0, 0], f, h);
    h := WriteField(p, off, 9, [proto], f, h);
    h := WriteField(p, off, 10, [0, 0], f, h);
    h := WriteField(p, off, 1, [tos], f, h);
    h := WriteField(p, off, 2, BigEndian16(totLen), f, h);
    h := WriteField(p, off, 16, daddr, f, h);
    h := WriteField(p, off, 12, saddr, f, h);
    h := WriteField(p, off, 8, [DEFAULT_TTL], f, h);
    ghost var zeroed := V4Fields(tos, totLen, id, DEFAULT_TTL, proto, 0, saddr, daddr);
    FieldsInPlace(f[off..off + IPV4_HDR], tos, totLen, proto, saddr, daddr);
    assert f[off..off + IPV4_HDR][4..6] == id;
    assert p.Frame()[off..off + IPV4_HDR] == zeroed;
    var csum := Ipv4CsumInline(p, off);
    h := WriteField(p, off, 10, Store16(csum), f, h);
    CheckInPlace(tos, totLen, id, proto, csum, saddr, daddr);
  }

  /** Store one header field; h tracks the header's bytes. */
  method WriteField(p: Packet, off: nat, at: nat, b: Bytes, ghost f: Bytes, ghost h: Bytes) returns (ghost h': Bytes)
    requires p.Valid() && off + |h| <= p.dataEnd - p.data == |f|
    requires at + |b| <= |h| && p.Frame() == Splice(f, off, h)
    modifies p.buf
    ensures p.buf[..p.data] == old(p.buf[..p.data])
    ensures h' == Splice(h, at, b) && p.Frame() == Splice(f, off, h')
  {
    hide Splice;
    p.Write(off + at, b);
    SpliceInside(f, off, h, at, b);
    h' := Splice(h, at, b);
  }

  /** The stores of create_v4_hdr, in their order, leave the fields of the header. */
  lemma FieldsInPlace(h: Bytes, tos: byte, totLen: nat, proto: byte, saddr: Bytes, daddr: Bytes)
    requires |h| == IPV4_HDR && AddrSize(saddr, daddr)
    ensures var h1 := Splice(Splice(Splice(h, 0, [0x45]), 6, [0, 0]), 9, [proto]);
            var h2 := Splice(Splice(Splice(h1, 10, [0, 0]), 1, [tos]), 2, BigEndian16(totLen));
            Splice(Splice(Splice(h2, 16, daddr), 12, saddr), 8, [DEFAULT_TTL])
            == V4Fields(tos, totLen, h[4..6], DEFAULT_TTL, proto, 0, saddr, daddr)
  {
    hide BigEndian16, Splice;
    var len := BigEndian16(totLen);
    assert |len| == 2 by { BigEndianSize(totLen); }
    assert h == [h[0]] + h[1..6] + h[6..8] + [h[8]] + [h[9]] + h[10..];
    FirstFields([h[0]], h[1..6], h[6..8], [h[8]], [h[9]], h[10..], proto);
    assert h[1..6] == h[1..2] + h[2..4] + h[4..6] && h[10..] == h[10..12] + (h[12..16] + h[16..]);
    Regroup(h[1..2], h[2..4], h[4..6], h[8], proto, h[10..12], h[12..16] + h[16..]);
    MoreFields(h[1..2], h[2..4], h[4..6] + [0, 0, h[8], proto], h[10..12], h[12..16] + h[16..], tos, len);
    RegroupAgain(tos, len, h[4..6], h[8], proto, h[12..16], h[16..]);
    LastFields([0x45, tos] + len + h[4..6] + [0, 0], [h[8]], [proto, 0, 0], h[12..16], h[16..], saddr, daddr);
    FieldsRegrouped(tos, totLen, h[4..6], proto, saddr, daddr);
  }

  lemma Regroup(t: Bytes, l: Bytes, id: Bytes, ttl: byte, proto: byte, check: Bytes, rest: Bytes)
    ensures [0x45] + (t + l + id) + [0, 0] + [ttl] + [proto] + (check + rest)
            == [0x45] + t + l + (id + [0, 0, ttl, proto]) + check + rest
  {
  }

  lemma RegroupAgain(tos: byte, len: Bytes, id: Bytes, ttl: byte, proto: byte, s: Bytes, d: Bytes)
    ensures [0x45] + [tos] + len + (id + [0, 0, ttl, proto]) + [0, 0] + (s + d)
            == ([0x45, tos] + len + id + [0, 0]) + [ttl] + [proto, 0, 0] + s + d
  {
  }

  lemma FieldsRegrouped(tos: byte, totLen: nat, id: Bytes, proto: byte, saddr: Bytes, daddr: Bytes)
    ensures ([0x45, tos] + BigEndian16(totLen) + id + [0, 0]) + [DEFAULT_TTL] + [proto, 0, 0] + saddr + daddr
            == V4Fields(tos, totLen, id, DEFAULT_TTL, proto, 0, saddr, daddr)
  {
    hide BigEndian16;
    assert Store16(0) == [0, 0];
  }

  lemma FirstFields(v: Bytes, a: Bytes, frag: Bytes, ttl: Bytes, p: Bytes, rest: Bytes, proto: byte)
    requires |v| == 1 && |a| == 5 && |frag| == 2 && |ttl| == 1 && |p| == 1
    ensures Splice(Splice(Splice(v + a + frag + ttl + p + rest, 0, [0x45]), 6, [0, 0]), 9, [proto])
            == [0x45] + a + [0, 0] + ttl + [proto] + rest
  {
    hide Splice;
    assert v + a + frag + ttl + p + rest == [] + v + (a + frag + ttl + p + rest);
    SpliceParts([], v, [0x45], a + frag + ttl + p + rest);
    assert [] + [0x45] + (a + frag + ttl + p + rest) == ([0x45] + a) + frag + (ttl + p + rest);
    SpliceParts([0x45] + a, frag, [0, 0], ttl + p + rest);
    assert ([0x45] + a) + [0, 0] + (ttl + p + rest) == ([0x45] + a + [0, 0] + ttl) + p + rest;
    SpliceParts([0x45] + a + [0, 0] + ttl, p, [proto], rest);
  }

  lemma MoreFields(t: Bytes, l: Bytes, mid: Bytes, check: Bytes, rest: Bytes, tos: byte, len: Bytes)
    requires |t| == 1 && |l| == 2 && |mid| == 6 && |check| == 2 && |len| == 2
    ensures Splice(Splice(Splice([0x45] + t + l + mid + check + rest, 10, [0, 0]), 1, [tos]), 2, len)
            == [0x45] + [tos] + len + mid + [0, 0] + rest
  {
    hide Splice;
    SpliceParts([0x45] + t + l + mid, check, [0, 0], rest);
    var tail := l + mid + [0, 0] + rest;
    assert [0x45] + t + l + mid + [0, 0] + rest == [0x45] + t + tail;
    SpliceParts([0x45], t, [tos], tail);
    assert [0x45] + [tos] + tail == ([0x45] + [tos]) + l + (mid + [0, 0] + rest);
    SpliceParts([0x45] + [tos], l, len, mid + [0, 0] + rest);
  }

  lemma LastFields(pre: Bytes, ttl: Bytes, mid: Bytes, s: Bytes, d: Bytes, saddr: Bytes, daddr: Bytes)
    requires |pre| == 8 && |ttl| == 1 && |mid| == 3 && |s| == 4 && |d| == 4 && AddrSize(saddr, daddr)
    ensures Splice(Splice(Splice(pre + ttl + mid + s + d, 16, daddr), 12, saddr), 8, [DEFAULT_TTL])
            == pre + [DEFAULT_TTL] + mid + saddr + daddr
  {
    hide Splice;
    assert pre + ttl + mid + s + d == (pre + ttl + mid + s) + d + [];
    SpliceParts(pre + ttl + mid + s, d, daddr, []);
    assert (pre + ttl + mid + s) + daddr + [] == (pre + ttl + mid) + s + daddr;
    SpliceParts(pre + ttl + mid, s, saddr, daddr);
    assert (pre + ttl + mid) + saddr + daddr == pre + ttl + (mid + saddr + daddr);
    SpliceParts(pre, ttl, [DEFAULT_TTL], mid + saddr + daddr);
  }

  lemma BigEndianSize(x: nat)
    ensures |BigEndian16(x)| == 2
  {
  }

  lemma CheckInPlace(tos: byte, totLen: nat, id: Bytes, proto: byte, csum: nat, saddr: Bytes, daddr: Bytes)
    requires |id| == 2 && AddrSize(saddr, daddr)
    ensures var zeroed := V4Fields(tos, totLen, id, DEFAULT_TTL, proto, 0, saddr, daddr);
            |zeroed| == IPV4_HDR
            && Splice(zeroed, 10, Store16(csum)) == V4Fields(tos, totLen, id, DEFAULT_TTL, proto, csum, saddr, daddr)
  {
  }

  // ----- recomputing a checksum

  /** A header with its checksum filled in again. */
  function Refreshed(h: Bytes): (r: Bytes)
    requires |h| == IPV4_HDR
    ensures |r| == IPV4_HDR
  {
    Filled(h[..10], h[12..])
  }

  lemma ZeroedHeader(f: Bytes, off: nat)
    requires off + IPV4_HDR <= |f|
    ensures Splice(f, off + 10, [0, 0])[off..off + IPV4_HDR]
            == f[off..off + 10] + Store16(0) + f[off + 12..off + IPV4_HDR]
  {
    SpliceSlice(f, off, off + IPV4_HDR, off + 10, [0, 0]);
    var h := f[off..off + IPV4_HDR];
    assert h == h[..10] + h[10..12] + h[12..];
    SpliceParts(h[..10], h[10..12], [0, 0], h[12..]);
    assert h[..10] == f[off..off + 10] && h[12..] == f[off + 12..off + IPV4_HDR];
  }

  lemma RefreshedInPlace(f: Bytes, off: nat)
    requires off + IPV4_HDR <= |f|
    ensures var before, after := f[off..off + 10], f[off + 12..off + IPV4_HDR];
            var check := Store16(ALL_ONES - Canon(Sum16(before + Store16(0) + after)));
            Splice(Splice(f, off + 10, [0, 0]), off + 10, check)
            == f[..off] + Refreshed(f[off..off + IPV4_HDR]) + f[off + IPV4_HDR..]
  {
    hide Canon, Sum16, Splice;
    var h := f[off..off + IPV4_HDR];
    var before, after := f[off..off + 10], f[off + 12..off + IPV4_HDR];
    assert h[..10] == before && h[12..] == after;
    CanonSum(Sum16(before + Store16(0) + after), 0);
    var check := Store16(ALL_ONES - Canon(Sum16(before + Store16(0) + after)));
    var pre, post := f[..off] + before, after + f[off + IPV4_HDR..];
    assert f == pre + f[off + 10..off + 12] + post;
    SpliceParts(pre, f[off + 10..off + 12], [0, 0], post);
    SpliceParts(pre, [0, 0], check, post);
    assert pre + check + post == f[..off] + (before + check + after) + f[off + IPV4_HDR..];
  }

  // ----- decrementing the TTL

  /** The incremental update: one more, with the carry added back. */
  function NextCheck(check: nat): nat {
    (check + 1) % 0x1_0000 + (check + 1) / 0x1_0000
  }

  /** One less in an unsigned byte. */
  function OneLess(b: byte): byte {
    if b == 0 then 255 else b - 1
  }

  function WithTtl(f: Bytes, off: nat): (r: Bytes)
    requires off + IPV4_HDR <= |f|
    ensures |r| == |f|
  {
    Splice(f, off + 8, [OneLess(f[off + 8])])
  }

  /** A frame whose IPv4 header at off has been decremented without expiring. */
  function TtlDecremented(f: Bytes, off: nat): (r: Bytes)
    requires off + IPV4_HDR <= |f|
    ensures |r| == |f|
  {
    Splice(WithTtl(f, off), off + 10, Store16(NextCheck(Load16(f, off + 10))))
  }

  /** Too short to hold the header, or at its last hop. */
  predicate Expires(f: Bytes, off: nat, isV6: bool) {
    if isV6 then off + IPV6_HDR > |f| || f[off + 7] == 1
    else off + IPV4_HDR > |f| || f[off + 8] == 1
  }

  /** The frame left behind, whether or not it is then dropped. */
  function Decremented(f: Bytes, off: nat, isV6: bool): (r: Bytes)
    ensures |r| == |f|
  {
    if isV6 then if off + IPV6_HDR > |f| then f else Splice(f, off + 7, [OneLess(f[off + 7])])
    else if off + IPV4_HDR > |f| then f
    else if f[off + 8] == 1 then WithTtl(f, off) else TtlDecremented(f, off)
  }

  /** decrement_ttl: the TTL wraps from 0 to 255 and is stored before it is tested. */
  method DecrementTtl(p: Packet, off: nat, isV6: bool) returns (action: Action)
    requires p.Valid()
    modifies p.buf
    ensures p.buf[..p.data] == old(p.buf[..p.data])
    ensures p.Frame() == Decremented(old(p.Frame()), off, isV6)
    ensures action == if Expires(old(p.Frame()), off, isV6) then Drop else FurtherProcessing
  {
    if isV6 {
      action := DecrementHopLimit(p, off);
    } else {
      hide TtlDecremented, WithTtl;
      action := DecrementV4(p, off);
    }
  }

  method DecrementHopLimit(p: Packet, off: nat) returns (action: Action)
    requires p.Valid()
    modifies p.buf
    ensures p.buf[..p.data] == old(p.buf[..p.data])
    ensures p.Frame() == Decremented(old(p.Frame()), off, true)
    ensures action == if Expires(old(p.Frame()), off, true) then Drop else FurtherProcessing
  {
    if off + IPV6_HDR > p.dataEnd - p.data {
      return Drop;
    }
    var hops := OneLess(p.buf[p.data + off + 7]);
    p.Write(off + 7, [hops]);
    return if hops == 0 then Drop else FurtherProcessing;
  }

  method DecrementV4(p: Packet, off: nat) returns (action: Action)
    requires p.Valid()
    modifies p.buf
    ensures p.buf[..p.data] == old(p.buf[..p.data])
    ensures var f := old(p.Frame());
            if off + IPV4_HDR > |f| then action == Drop && p.Frame() == f
            else if f[off + 8] == 1 then action == Drop && p.Frame() == WithTtl(f, off)
            else action == FurtherProcessing && p.Frame() == TtlDecremented(f, off)
  {
    if off + IPV4_HDR > p.dataEnd - p.data {
      return Drop;
    }
    hide NextCheck, Store16, Word, Splice;
    ghost var f := p.Frame();
    var field := p.Read(off + 8, 4);
    assert field[0] == f[off + 8] && field[2] == f[off + 10] && field[3] == f[off + 11];
    var ttl := OneLess(field[0]);
    var check := NextCheck(Word(field[2], field[3]));
    StoreSize(check);
    p.Write(off + 8, [ttl]);
    if ttl == 0 {
      return Drop;
    }
    p.Write(off + 10, Store16(check));
    return FurtherProcessing;
  }

  lemma HeaderSum(h: Bytes)
    requires |h| == IPV4_HDR
    ensures Sum16(h) == Sum16(h[..8]) + Word(h[8], h[9]) + Load16(h, 10) + Sum16(h[12..])
  {
    assert h == h[..8] + ([h[8], h[9]] + ([h[10], h[11]] + h[12..]));
    SumConcat(h[..8], [h[8], h[9]] + ([h[10], h[11]] + h[12..]));
    SumConcat([h[8], h[9]], [h[10], h[11]] + h[12..]);
    SumConcat([h[10], h[11]], h[12..]);
    SumWord(h[8], h[9]);
    SumWord(h[10], h[11]);
  }

  lemma DecrementedSum(h: Bytes)
    requires |h| == IPV4_HDR
    ensures var check := Load16(h, 10);
            Sum16(TtlDecremented(h, 0)) == Sum16(h) + (OneLess(h[8]) as int) - (h[8] as int) + NextCheck(check) - check
    ensures Sum16(TtlDecremented(h, 0)) > 0
  {
    hide Sum16, NextCheck, Store16, OneLess, Splice;
    var d, next := TtlDecremented(h, 0), NextCheck(Load16(h, 10));
    NextCheckRange(Load16(h, 10));
    StoreSum(next);
    StoreSize(next);
    HeaderSum(h);
    HeaderSum(d);
    TwoWrites(h, 0, OneLess(h[8]), Store16(next));
    assert d[0..IPV4_HDR] == d && h[0..IPV4_HDR] == h;
  }

  /** The two writes of a decrement, seen in the header's own twenty bytes. */
  lemma TwoWrites(f: Bytes, off: nat, ttl: byte, b: Bytes)
    requires off + IPV4_HDR <= |f| && |b| == 2
    ensures var d := Splice(Splice(f, off + 8, [ttl]), off + 10, b)[off..off + IPV4_HDR];
            var h := f[off..off + IPV4_HDR];
            && d == Splice(Splice(h, 8, [ttl]), 10, b)
            && d[..8] == h[..8] && d[8] == ttl && d[9] == h[9] && d[10] == b[0] && d[11] == b[1] && d[12..] == h[12..]
  {
    hide Splice;
    var h := f[off..off + IPV4_HDR];
    SpliceSlice(f, off, off + IPV4_HDR, off + 8, [ttl]);
    SpliceSlice(Splice(f, off + 8, [ttl]), off, off + IPV4_HDR, off + 10, b);
    assert h == h[..8] + [h[8]] + h[9..];
    SpliceParts(h[..8], [h[8]], [ttl], h[9..]);
    assert h[..8] + [ttl] + h[9..] == (h[..8] + [ttl, h[9]]) + h[10..12] + h[12..];
    SpliceParts(h[..8] + [ttl, h[9]], h[10..12], b, h[12..]);
  }

  lemma NextCheckRange(check: nat)
    requires check <= ALL_ONES
    ensures 0 < NextCheck(check) <= ALL_ONES
  {
  }

  /** A valid header that is not expired by the decrement stays valid exactly when its TTL was not
      already zero. */
  lemma DecrementKeepsValidIff(f: Bytes, off: nat)
    requires off + IPV4_HDR <= |f| && Verifies(f[off..off + IPV4_HDR]) && f[off + 8] != 1
    ensures Verifies(TtlDecremented(f, off)[off..off + IPV4_HDR]) <==> f[off + 8] >= 2
  {
    hide Sum16, Verifies;
    var h := f[off..off + IPV4_HDR];
    StoreSize(NextCheck(Load16(f, off + 10)));
    hide NextCheck, Word, Store16, OneLess, Splice;
    TwoWrites(f, off, OneLess(f[off + 8]), Store16(NextCheck(Load16(f, off + 10))));
    assert TtlDecremented(f, off)[off..off + IPV4_HDR] == TtlDecremented(h, 0);
    hide TtlDecremented;
    DecrementedSum(h);
    VerifiesIff(h);
    VerifiesIff(TtlDecremented(h, 0));
    DecrementedResidue(Sum16(h), h[8], Load16(h, 10));
  }

  lemma DecrementedResidue(sum: nat, ttl: byte, check: nat)
    requires sum > 0 && sum % ALL_ONES == 0 && check <= ALL_ONES && ttl != 1
    ensures (sum + (OneLess(ttl) as int) - (ttl as int) + NextCheck(check) - check) % ALL_ONES == 0 <==> ttl >= 2
  {
    var k := sum / ALL_ONES;
    assert sum == 65535 * k;
    if check == ALL_ONES {
      assert NextCheck(check) == 1;
    } else {
      assert NextCheck(check) == check + 1;
    }
  }

  /** A valid header with no hops left wraps to 255 and no longer verifies. */
  lemma DecrementFails()
    ensures var h := [0x45, 0] + Zeros(8) + [0xBA, 0xFF] + Zeros(8);
            |h| == IPV4_HDR && Verifies(h) && h[8] == 0 && !Verifies(TtlDecremented(h, 0))
  {
    var h: Bytes := [0x45, 0] + Zeros(8) + [0xBA, 0xFF] + Zeros(8);
    SumConcat([0x45, 0] + Zeros(8) + [0xBA, 0xFF], Zeros(8));
    SumConcat([0x45, 0] + Zeros(8), [0xBA, 0xFF]);
    SumConcat([0x45, 0], Zeros(8));
    SumZeros(8);
    SumWord(0x45, 0);
    SumWord(0xBA, 0xFF);
    hide Sum16, Verifies, TtlDecremented;
    VerifiesIff(h);
    assert h[0..IPV4_HDR] == h;
    DecrementKeepsValidIff(h, 0);
    assert TtlDecremented(h, 0)[0..IPV4_HDR] == TtlDecremented(h, 0);
  }

  // ----- hop by hop

  /** Where the hop count of a header at off is. */
  function HopsAt(off: nat, isV6: bool): nat {
    if isV6 then off + 7 else off + 8
  }

  /** Decrementing touches the hop count and, in an IPv4 header, the checksum, and nothing else. */
  lemma DecrementedFields(f: Bytes, off: nat, isV6: bool)
    requires off + (if isV6 then 40 else 20) <= |f|
    ensures var d, at := Decremented(f, off, isV6), HopsAt(off, isV6);
            && d[..at] == f[..at] && d[at] == (if f[at] == 0 then 255 else f[at] - 1)
            && (isV6 ==> d[at + 1..] == f[at + 1..])
            && (!isV6 ==> d[off + 9] == f[off + 9] && d[off + 12..] == f[off + 12..])
  {
    hide NextCheck, Load16;
    var at := HopsAt(off, isV6);
    SpliceElems(f, at, [OneLess(f[at])]);
    if !isV6 && f[at] != 1 {
      var check := Store16(NextCheck(Load16(f, off + 10)));
      assert |check| == 2 by { StoreSize(NextCheck(Load16(f, off + 10))); }
      SpliceElems(WithTtl(f, off), off + 10, check);
    }
    hide Splice, Store16;
  }

  /** The frame after k hops. */
  function AfterHops(f: Bytes, off: nat, isV6: bool, k: nat): (r: Bytes)
    ensures |r| == |f|
  {
    if k == 0 then f else Decremented(AfterHops(f, off, isV6, k - 1), off, isV6)
  }

  /** A packet with hop count n goes exactly n - 1 hops: at the n-th it expires. */
  lemma {:induction false} HopsLeft(f: Bytes, off: nat, isV6: bool, k: nat)
    requires off + (if isV6 then 40 else 20) <= |f| && k < f[HopsAt(off, isV6)]
    ensures AfterHops(f, off, isV6, k)[HopsAt(off, isV6)] == f[HopsAt(off, isV6)] - k
    ensures Expires(AfterHops(f, off, isV6, k), off, isV6) <==> k == f[HopsAt(off, isV6)] - 1
  {
    if k > 0 {
      HopsLeft(f, off, isV6, k - 1);
      DecrementedFields(AfterHops(f, off, isV6, k - 1), off, isV6);
      hide Decremented;
    }
  }
}
