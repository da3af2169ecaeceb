/** A packet in its buffer, as the XDP programs see it: bytes between a movable head and an end. */
module Packets {
  import opened Checksums

  datatype Action = Drop | Pass | Tx | Aborted | FurtherProcessing | Recirculate

  const ETH_HLEN := 14

  /** s with the bytes b written over it at off. */
  function Splice(s: Bytes, off: nat, b: Bytes): (r: Bytes)
    requires off + |b| <= |s|
    ensures |r| == |s|
  {
    s[..off] + b + s[off + |b|..]
  }

  lemma SpliceElems(s: Bytes, off: nat, b: Bytes)
    requires off + |b| <= |s|
    ensures forall k :: 0 <= k < |s| ==> Splice(s, off, b)[k] == if off <= k < off + |b| then b[k - off] else s[k]
  {
  }

  /** A write leaves what lies before it. */
  lemma SpliceHead(s: Bytes, off: nat, b: Bytes, n: nat)
    requires off + |b| <= |s| && n <= off
    ensures Splice(s, off, b)[..n] == s[..n]
  {
    SpliceElems(s, off, b);
  }

  /** Writing over one part of a sequence replaces that part. */
  lemma SpliceParts(pre: Bytes, was: Bytes, b: Bytes, post: Bytes)
    requires |was| == |b|
    ensures Splice(pre + was + post, |pre|, b) == pre + b + post
  {
    var s := pre + was + post;
    assert s[..|pre|] == pre && s[|pre| + |b|..] == post;
  }

  /** Writing inside a slice is writing to the slice. */
  lemma SpliceSlice(s: Bytes, lo: nat, hi: nat, at: nat, b: Bytes)
    requires lo <= at && at + |b| <= hi <= |s|
    ensures Splice(s, at, b)[lo..hi] == Splice(s[lo..hi], at - lo, b)
  {
    SpliceElems(s, at, b);
    SpliceElems(s[lo..hi], at - lo, b);
  }

  /** Writing into what was just written. */
  lemma SpliceInside(f: Bytes, off: nat, h: Bytes, at: nat, b: Bytes)
    requires off + |h| <= |f| && at + |b| <= |h|
    ensures Splice(Splice(f, off, h), off + at, b) == Splice(f, off, Splice(h, at, b))
  {
    SpliceElems(f, off, h);
    SpliceElems(Splice(f, off, h), off + at, b);
    SpliceElems(h, at, b);
    SpliceElems(f, off, Splice(h, at, b));
  }

  class Packet {
    const buf: array<byte>
    var data: nat
    var dataEnd: nat

    constructor (frame: Bytes, headroom: Bytes)
      ensures fresh(buf) && data == |headroom| && Valid()
      ensures Frame() == frame && buf[..data] == headroom
    {
      var all := headroom + frame;
      buf := new byte[|all|](i requires 0 <= i < |all| => all[i]);
      data, dataEnd := |headroom|, |all|;
      new;
      assert buf[..] == all;
    }

    ghost predicate Valid()
      reads this
    {
      data <= dataEnd <= buf.Length
    }

    ghost function Frame(): Bytes
      requires Valid()
      reads this, buf
    {
      buf[data..dataEnd]
    }

    /** Loads and memcpy out of the packet. */
    method Read(off: nat, n: nat) returns (b: Bytes)
      requires Valid() && off + n <= dataEnd - data
      ensures b == Frame()[off..off + n]
    {
      b := buf[data..dataEnd][off..off + n];
    }

    /** Stores and memcpy into the packet. */
    method Write(off: nat, b: Bytes)
      requires Valid() && off + |b| <= dataEnd - data
      modifies buf
      ensures Frame() == Splice(old(Frame()), off, b)
      ensures buf[..data] == old(buf[..data])
    {
      forall i | 0 <= i < |b| {
        buf[data + off + i] := b[i];
      }
      SpliceElems(old(Frame()), off, b);
    }

    /** bpf_xdp_adjust_head: the head may move within the buffer but must leave an Ethernet header. */
    method AdjustHead(delta: int) returns (failed: bool)
      requires Valid()
      modifies this`data
      ensures Valid()
      ensures failed <==> old(data) + delta < 0 || old(data) + delta > dataEnd - ETH_HLEN
      ensures data == if failed then old(data) else old(data) + delta
    {
      failed := data + delta < 0 || data + delta > dataEnd - ETH_HLEN;
      if !failed {
        data := data + delta;
      }
    }
  }
}
