/** The VXLAN forwarder (vxlan/main.c): headers are prepended, written and stripped
    in place in a packet buffer with headroom. */
module Vxlan {
  import opened Wire
  import Checksum

  const ETHER_LEN := 14
  const IP_LEN := 20
  const OUTER_LEN := 50
  const VXLAN_PORT: U16 := 4789
  const VXLAN_VNI := 100

  // ------------------------------------------------------- outer headers

  function Word(v: U16): (r: seq<U8>)
    ensures |r| == 2
  {
    [v / 256, v % 256]
  }

  /** The first 24 bytes: Ethernet header and IPv4 header up to its checksum field. */
  function OuterFront(totalLen: U16): (r: seq<U8>)
    ensures |r| == 24
  {
    [0x08, 0x00, 0x27, 0xab, 0xcd, 0xef] + [0x08, 0x00, 0x27, 0x12, 0x34, 0x56] + Word(ETHER_IPV4)
    + [0x45, 0] + Word(totalLen) + [0, 0, 0, 0, 64, PROTO_UDP]
  }

  /** The last 24 bytes: addresses, UDP header and VXLAN header. */
  function OuterBack(udpLen: U16): (r: seq<U8>)
    ensures |r| == 24
  {
    [10, 0, 0, 1] + [10, 0, 0, 2]
    + Word(12345) + Word(VXLAN_PORT) + Word(udpLen) + [0, 0]
    + [0x08, 0, 0, 0] + [0, 0, VXLAN_VNI, 0]
  }

  /** pkt_len is a 16-bit variable, and so are the length fields. */
  function Truncated(n: nat): U16 {
    n % 0x1_0000
  }

  // ------------------------------------------------------- what the code does

  /** A packet buffer and where the frame lies in it. */
  datatype Frame = Frame(buf: seq<U8>, off: nat, len: nat)
  {
    predicate Valid() { off + len <= |buf| }

    /** decap reads 38 bytes of the buffer whatever the length of the frame. */
    predicate Readable() { Valid() && off + 38 <= |buf| }

    function Data(): seq<U8>
      requires Valid()
    {
      buf[off..off + len]
    }

    predicate IsVxlan()
      requires Readable()
    {
      && WordAt(buf, off + 12) == ETHER_IPV4
      && buf[off + 23] == PROTO_UDP
      && WordAt(buf, off + 36) == VXLAN_PORT
    }
  }

  /** The outer headers with `ck` in the IPv4 checksum field. */
  function Outer(len: nat, ck: U16): (r: seq<U8>)
    ensures |r| == OUTER_LEN
  {
    OuterFront(Truncated(36 + Truncated(len) as int)) + Word(ck)
    + OuterBack(Truncated(16 + Truncated(len) as int))
  }

  /** The outer IPv4 checksum is computed with the stale bytes of its own field. */
  function OuterCksum(f: Frame): U16
    requires f.Valid() && f.off >= OUTER_LEN
  {
    var stale := WordAt(f.buf, f.off - 26);
    Checksum.Ipv4Cksum(Outer(f.len, stale), ETHER_LEN)
  }

  function Encap(f: Frame): (r: Frame)
    requires f.Valid() && f.off >= OUTER_LEN
    ensures r.Valid()
  {
    Frame(f.buf[..f.off - OUTER_LEN] + Outer(f.len, OuterCksum(f)) + f.buf[f.off..],
          f.off - OUTER_LEN, f.len + OUTER_LEN)
  }

  /** rte_pktmbuf_adj strips the outer headers only off a frame that long; its answer
      is ignored. */
  function Decap(f: Frame): (r: Frame)
    requires f.Valid()
    ensures r.Valid()
  {
    if OUTER_LEN <= f.len then f.(off := f.off + OUTER_LEN, len := f.len - OUTER_LEN) else f
  }

  /** One turn of the forwarding loop. */
  function Forward(f: Frame): (r: Frame)
    requires f.Readable() && (!f.IsVxlan() ==> f.off >= OUTER_LEN)
    ensures r.Valid()
  {
    if f.IsVxlan() then Decap(f) else Encap(f)
  }

  // ------------------------------------------------------- the main results

  /** Forwarding twice is the identity on a frame that is not VXLAN: the first pass
      wraps it into a packet the second one accepts and unwraps byte for byte. */
  lemma ForwardTwiceRestores(f: Frame)
    requires f.Readable() && !f.IsVxlan() && f.off >= OUTER_LEN
    ensures Forward(f).Readable() && Forward(f).IsVxlan()
    ensures var r := Forward(Forward(f));
            r.off == f.off && r.len == f.len && r.Data() == f.Data() && r.buf[r.off..] == f.buf[f.off..]
  {
    var e := Encap(f);
    assert e.buf[e.off..e.off + OUTER_LEN] == Outer(f.len, OuterCksum(f));
    OuterIsVxlan(e, f.len, OuterCksum(f));
    assert e.buf[f.off..] == f.buf[f.off..];
    assert Forward(e).Data() == e.buf[f.off..][..f.len];
  }

  lemma OuterIsVxlan(e: Frame, len: nat, ck: U16)
    requires e.Valid() && e.len >= OUTER_LEN && e.buf[e.off..e.off + OUTER_LEN] == Outer(len, ck)
    ensures e.Readable() && e.IsVxlan()
  {
    var o := Outer(len, ck);
    assert e.buf[e.off + 12] == o[12] && e.buf[e.off + 13] == o[13];
    assert e.buf[e.off + 23] == o[23];
    assert e.buf[e.off + 36] == o[36] && e.buf[e.off + 37] == o[37];
  }

  /** What decides whether a frame is stripped, byte by byte: IPv4, UDP and port 4789. The
      outer headers come off if the frame is that long, and nothing else changes. */
  lemma ForwardStripsIff(f: Frame)
    requires f.Readable() && (!f.IsVxlan() ==> f.off >= OUTER_LEN)
    ensures var vxlan := f.buf[f.off + 12] == 0x08 && f.buf[f.off + 13] == 0x00 && f.buf[f.off + 23] == 17
                         && f.buf[f.off + 36] == 0x12 && f.buf[f.off + 37] == 0xB5;
            && (f.IsVxlan() <==> vxlan)
            && (vxlan ==> Forward(f).buf == f.buf
                          && Forward(f).Data() == if f.len >= 50 then f.Data()[50..] else f.Data())
            && (!vxlan ==> |Forward(f).Data()| == f.len + 50 && Forward(f).Data()[50..] == f.Data()
                           && Forward(f).buf[..f.off - 50] == f.buf[..f.off - 50])
  {
    if !f.IsVxlan() {
      EncapData(f);
    } else if f.len >= 50 {
      assert f.Data()[50..] == f.buf[f.off + 50..f.off + f.len];
    }
  }

  lemma EncapData(f: Frame)
    requires f.Valid() && f.off >= OUTER_LEN
    ensures Encap(f).Data() == Outer(f.len, OuterCksum(f)) + f.Data()
    ensures |Encap(f).Data()| == 50 + f.len && Encap(f).Data()[50..] == f.Data()
    ensures Encap(f).Data()[..50] == Outer(f.len, OuterCksum(f))
    ensures |Encap(f).buf| == |f.buf| && Encap(f).buf[..f.off - 50] == f.buf[..f.off - 50]
  {
  }

  /** The outer headers byte by byte, but for the IPv4 checksum: Ethernet addresses, type
      0x0800, IPv4 with TTL 64 and protocol 17 from 10.0.0.1 to 10.0.0.2, UDP from 12345
      to 4789 without checksum, flags and VNI as in section 5 of RFC 7348; the lengths
      modulo 2^16. */
  ghost predicate HeadersFor(h: seq<U8>, len: nat)
    requires |h| == 50
  {
    && h[..6] == [0x08, 0x00, 0x27, 0xab, 0xcd, 0xef] && h[6..12] == [0x08, 0x00, 0x27, 0x12, 0x34, 0x56]
    && h[12..16] == [0x08, 0x00, 0x45, 0x00] && h[18..24] == [0, 0, 0, 0, 64, 17]
    && h[26..34] == [10, 0, 0, 1, 10, 0, 0, 2]
    && h[34..38] == [0x30, 0x39, 0x12, 0xB5] && h[40..42] == [0, 0]
    && h[42..50] == [0x08, 0, 0, 0, 0, 0, 100, 0]
    && WordAt(h, 16) == (36 + len) % 65536 && WordAt(h, 38) == (16 + len) % 65536
  }

  /** The encapsulated frame is the inner one behind those headers. The IPv4 and UDP
      lengths count the bytes that follow exactly when the frame leaves room for 36 more
      in 16 bits. */
  lemma EncapWritesHeaders(f: Frame)
    requires f.Valid() && f.off >= OUTER_LEN
    ensures var d := Encap(f).Data();
            && |d| == 50 + f.len && d[50..] == f.Data() && HeadersFor(d[..50], f.len)
            && (WordAt(d, 16) == |d| - 14 <==> f.len <= 65535 - 36)
            && (f.len <= 65535 - 36 ==> WordAt(d, 38) == |d| - 34)
  {
    EncapData(f);
    OuterBytes(f.len, OuterCksum(f));
    HeadWords(Encap(f).Data(), Outer(f.len, OuterCksum(f)));
    LengthsFit(f.len);
  }

  lemma HeadWords(d: seq<U8>, o: seq<U8>)
    requires |d| >= 50 && d[..50] == o
    ensures WordAt(d, 16) == WordAt(o, 16) && WordAt(d, 38) == WordAt(o, 38)
  {
    assert d[16] == o[16] && d[17] == o[17] && d[38] == o[38] && d[39] == o[39];
  }

  lemma LengthsFit(len: nat)
    ensures (36 + len) % 65536 == 36 + len <==> len <= 65535 - 36
    ensures len <= 65535 - 36 ==> (16 + len) % 65536 == 16 + len
  {
  }

  lemma OuterBytes(len: nat, ck: U16)
    ensures HeadersFor(Outer(len, ck), len)
  {
    var front := OuterFront(Truncated(36 + Truncated(len) as int));
    var back := OuterBack(Truncated(16 + Truncated(len) as int));
    assert Outer(len, ck)[..24] == front && Outer(len, ck)[26..50] == back;
    FrontBytes(Truncated(36 + Truncated(len) as int));
    BackBytes(Truncated(16 + Truncated(len) as int));
    Slices(Outer(len, ck), front, back);
    Lengths(len);
  }

  lemma FrontBytes(totalLen: U16)
    ensures var o := OuterFront(totalLen);
            && o[..6] == [0x08, 0x00, 0x27, 0xab, 0xcd, 0xef] && o[6..12] == [0x08, 0x00, 0x27, 0x12, 0x34, 0x56]
            && o[12..16] == [0x08, 0x00, 0x45, 0x00] && o[18..24] == [0, 0, 0, 0, 64, 17]
            && WordAt(o, 16) == totalLen
  {
    var o := OuterFront(totalLen);
    assert o[16..18] == Word(totalLen);
    assert o[16..18][0] == o[16] && o[16..18][1] == o[17];
  }

  lemma BackBytes(udpLen: U16)
    ensures var o := OuterBack(udpLen);
            && o[..8] == [10, 0, 0, 1, 10, 0, 0, 2] && o[8..12] == [0x30, 0x39, 0x12, 0xB5]
            && WordAt(o, 12) == udpLen && o[14..16] == [0, 0]
            && o[16..24] == [0x08, 0, 0, 0, 0, 0, 100, 0]
  {
    var o := OuterBack(udpLen);
    assert o[12..14] == Word(udpLen);
    assert o[12..14][0] == o[12] && o[12..14][1] == o[13];
  }

  /** Slices of the two halves are slices of the header. */
  lemma Slices(d: seq<U8>, front: seq<U8>, back: seq<U8>)
    requires |d| >= 50 && d[..24] == front && d[26..50] == back
    ensures d[..6] == front[..6] && d[6..12] == front[6..12]
    ensures d[12..16] == front[12..16] && d[18..24] == front[18..24] && WordAt(d, 16) == WordAt(front, 16)
    ensures d[26..34] == back[..8] && d[34..38] == back[8..12] && WordAt(d, 38) == WordAt(back, 12)
    ensures d[40..42] == back[14..16] && d[42..50] == back[16..24]
  {
    assert d[16] == front[16] && d[17] == front[17] && d[38] == back[12] && d[39] == back[13];
  }

  lemma Lengths(len: nat)
    ensures Truncated(36 + Truncated(len) as int) == (36 + len) % 65536
    ensures Truncated(16 + Truncated(len) as int) == (16 + len) % 65536
  {
    ModOfSum(36, len);
    ModOfSum(16, len);
  }

  lemma ModOfSum(a: nat, len: nat)
    ensures (a + len % 65536) % 65536 == (a + len) % 65536
  {
    assert a + len == a + len % 65536 + 65536 * (len / 65536);
  }

  /** The outer IPv4 header verifies exactly when the headroom happened to hold zero
      where its checksum goes, as 0x0000 or 0xFFFF. */
  lemma OuterChecksumIffHeadroomZero(f: Frame)
    requires f.Valid() && f.off >= OUTER_LEN
    ensures Checksum.Verifies(Checksum.WordSum(Encap(f).Data()[14..34]))
            <==> WordAt(f.buf, f.off - 26) in {0, 0xFFFF}
  {
    var stale, ck := WordAt(f.buf, f.off - 26), OuterCksum(f);
    OuterStoresCksum(f.len, stale, ck);
    Checksum.HeaderCksumVerifiesIff(Outer(f.len, stale), 14);
    EncapData(f);
    assert Encap(f).Data()[14..34] == Encap(f).Data()[..50][14..34];
  }

  /** The checksum field is all that `ck` decides. */
  lemma OuterStoresCksum(len: nat, stale: U16, ck: U16)
    ensures Checksum.HeaderLen(Outer(len, stale), ETHER_LEN) == 20
    ensures WordAt(Outer(len, stale), 24) == stale
    ensures Checksum.PutWord(Outer(len, stale), 24, ck) == Outer(len, ck)
  {
    assert Outer(len, stale)[14] == OuterFront(Truncated(36 + Truncated(len) as int))[14] == 0x45;
    StoreBetween(OuterFront(Truncated(36 + Truncated(len) as int)), stale, ck,
                 OuterBack(Truncated(16 + Truncated(len) as int)));
  }

  lemma StoreBetween(front: seq<U8>, v: U16, w: U16, back: seq<U8>)
    ensures WordAt(front + Word(v) + back, |front|) == v
    ensures Checksum.PutWord(front + Word(v) + back, |front|, w) == front + Word(w) + back
  {
  }

  // ------------------------------------------------------------- the code

  function Overwrite(b: seq<U8>, i: nat, bytes: seq<U8>): (r: seq<U8>)
    requires i + |bytes| <= |b|
    ensures |r| == |b|
  {
    b[..i] + bytes + b[i + |bytes|..]
  }

  /** The buffer before the checksum is computed, and after the rest is stored. */
  function Started(b: seq<U8>, p: nat, front: seq<U8>, back: seq<U8>): (r: seq<U8>)
    requires p + OUTER_LEN <= |b| && |front| == |back| == 24
    ensures |r| == |b|
  {
    Overwrite(Overwrite(b, p, front), p + 26, back[..8])
  }

  function Finished(b: seq<U8>, p: nat, ck: seq<U8>, back: seq<U8>): (r: seq<U8>)
    requires p + OUTER_LEN <= |b| && |ck| == 2 && |back| == 24
    ensures |r| == |b|
  {
    Overwrite(Overwrite(b, p + 24, ck), p + 34, back[8..])
  }

  lemma StartedPieces(b: seq<U8>, p: nat, front: seq<U8>, back: seq<U8>)
    requires p + OUTER_LEN <= |b| && |front| == |back| == 24
    ensures Started(b, p, front, back) == b[..p] + front + b[p + 24..p + 26] + back[..8] + b[p + 34..]
    ensures Started(b, p, front, back)[p..p + 34] == front + b[p + 24..p + 26] + back[..8]
  {
    var once := Overwrite(b, p, front);
    assert once[..p + 26] == b[..p] + front + b[p + 24..p + 26];
    assert once[p + 34..] == b[p + 34..];
  }

  /** The stores of encap put the outer header in front of `p + 50` and leave the rest
      of the buffer alone. */
  lemma StoresMakeOuter(b: seq<U8>, p: nat, front: seq<U8>, back: seq<U8>, ck: seq<U8>)
    requires p + OUTER_LEN <= |b| && |front| == |back| == 24 && |ck| == 2
    ensures Finished(Started(b, p, front, back), p, ck, back) == b[..p] + (front + ck + back) + b[p + OUTER_LEN..]
  {
    StartedPieces(b, p, front, back);
    var started := Started(b, p, front, back);
    var once := Overwrite(started, p + 24, ck);
    assert once[..p + 34] == b[..p] + front + ck + back[..8];
    assert once[p + OUTER_LEN..] == b[p + OUTER_LEN..];
    assert back == back[..8] + back[8..];
  }

  lemma SameHeaderSameCksum(b: seq<U8>, p: nat, o: seq<U8>)
    requires p + 34 <= |b| && |o| >= 34 && b[p..p + 34] == o[..34] && o[14] == 0x45
    ensures Checksum.HeaderLen(b, p + 14) == 20 == Checksum.HeaderLen(o, 14)
    ensures Checksum.Ipv4Cksum(b, p + 14) == Checksum.Ipv4Cksum(o, 14)
  {
    assert b[p + 14] == o[14];
    assert b[p + 14..p + 34] == b[p..p + 34][14..34] == o[..34][14..34] == o[14..34];
  }

  /** With everything but the checksum stored up to the addresses, the checksum of the
      header in the buffer is the one `Encap` uses. */
  lemma StartedHeader(f: Frame, b: seq<U8>)
    requires f.Valid() && f.off >= OUTER_LEN
    requires var p := f.off - OUTER_LEN;
             var front := OuterFront(Truncated(36 + Truncated(f.len) as int));
             var back := OuterBack(Truncated(16 + Truncated(f.len) as int));
             b == Started(f.buf, p, front, back)
    ensures var p := f.off - OUTER_LEN;
            && |b| == |f.buf| && p + 14 + Checksum.HeaderLen(b, p + 14) <= |b|
            && Checksum.Ipv4Cksum(b, p + 14) == OuterCksum(f)
  {
    var p := f.off - OUTER_LEN;
    var front := OuterFront(Truncated(36 + Truncated(f.len) as int));
    var back := OuterBack(Truncated(16 + Truncated(f.len) as int));
    var o := Outer(f.len, WordAt(f.buf, p + 24));
    StartedPieces(f.buf, p, front, back);
    assert Word(WordAt(f.buf, p + 24)) == f.buf[p + 24..p + 26];
    assert o[..34] == front + Word(WordAt(f.buf, p + 24)) + back[..8];
    SameHeaderSameCksum(b, p, o);
  }

  class Mbuf {
    const buf: array<U8>
    var dataOff: nat
    var len: nat

    constructor (buf: array<U8>, dataOff: nat, len: nat)
      requires dataOff + len <= buf.Length
      ensures Value() == Frame(buf[..], dataOff, len)
    {
      this.buf, this.dataOff, this.len := buf, dataOff, len;
    }

    ghost function Value(): Frame
      reads this, buf
    {
      Frame(buf[..], dataOff, len)
    }

    method StoreBytes(i: nat, bytes: seq<U8>)
      requires i + |bytes| <= buf.Length
      modifies buf
      ensures buf[..] == Overwrite(old(buf[..]), i, bytes)
    {
      var j := 0;
      while j < |bytes|
        invariant 0 <= j <= |bytes|
        invariant buf[..] == Overwrite(old(buf[..]), i, bytes[..j])
      {
        buf[i + j] := bytes[j];
        j := j + 1;
      }
      assert bytes[..j] == bytes;
    }

    method StoreStart(p: nat, front: seq<U8>, back: seq<U8>)
      requires p + OUTER_LEN <= buf.Length && |front| == |back| == 24
      modifies buf
      ensures buf[..] == Started(old(buf[..]), p, front, back)
    {
      StoreBytes(p, front);
      StoreBytes(p + 26, back[..8]);
    }

    method StoreRest(p: nat, ck: seq<U8>, back: seq<U8>)
      requires p + OUTER_LEN <= buf.Length && |ck| == 2 && |back| == 24
      modifies buf
      ensures buf[..] == Finished(old(buf[..]), p, ck, back)
    {
      StoreBytes(p + 24, ck);
      StoreBytes(p + 34, back[8..]);
    }

    /** The caller provides the headroom; the source does not test for it. */
    method Encapsulate()
      requires Value().Valid() && dataOff >= OUTER_LEN
      modifies this, buf
      ensures Value() == Encap(old(Value()))
    {
      ghost var f := Value();
      var pktLen := Truncated(len);
      var front := OuterFront(Truncated(36 + pktLen as int));
      var back := OuterBack(Truncated(16 + pktLen as int));
      dataOff, len := dataOff - OUTER_LEN, len + OUTER_LEN;
      StoreStart(dataOff, front, back);
      StartedHeader(f, buf[..]);
      var ck := Checksum.Ipv4Cksum(buf[..], dataOff + ETHER_LEN);
      StoreRest(dataOff, Word(ck), back);
      StoresMakeOuter(f.buf, dataOff, front, back, Word(ck));
    }

    /** 0 when the frame was taken for VXLAN. */
    method Decapsulate() returns (ret: int)
      requires Value().Readable()
      modifies this
      ensures ret == if old(Value()).IsVxlan() then 0 else -1
      ensures Value() == if ret == 0 then Decap(old(Value())) else old(Value())
    {
      if WordAt(buf[..], dataOff + 12) != ETHER_IPV4 {
        return -1;
      }
      if buf[dataOff + 23] != PROTO_UDP {
        return -1;
      }
      if WordAt(buf[..], dataOff + 36) != VXLAN_PORT {
        return -1;
      }
      if OUTER_LEN <= len {
        dataOff, len := dataOff + OUTER_LEN, len - OUTER_LEN;
      }
      return 0;
    }

    method ForwardOne()
      requires Value().Readable() && (!Value().IsVxlan() ==> dataOff >= OUTER_LEN)
      modifies this, buf
      ensures Value() == Forward(old(Value()))
    {
      var ret := Decapsulate();
      if ret != 0 {
        Encapsulate();
      }
    }
  }
}
