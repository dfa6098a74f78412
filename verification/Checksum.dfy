/** Address rewriting with checksum recomputation
    (nat_project/version5/static_nat.c:238-257) on the bytes of a packet buffer.

    Checksums are those of section 1 of RFC 1071: the complement of the one's
    complement sum of the 16-bit words, used as section 3.1 of RFC 791, section 3.1
    of RFC 9293 and RFC 768 say. */
module Checksum {
  import opened Wire

  // --------------------------------------------------- one's complement sums

  /** Sum of the big-endian 16-bit words, an odd last byte padded with zero. */
  function WordSum(s: seq<U8>): nat {
    if |s| == 0 then 0
    else if |s| == 1 then (s[0] as int) * 256
    else WordAt(s, 0) + WordSum(s[2..])
  }

  /** End-around carry: fold the overflow back in until 16 bits are left. */
  function Fold(n: nat): (r: U16)
    ensures r % 65535 == n % 65535
    ensures r == 0 <==> n == 0
  {
    if n < 0x1_0000 then n else Fold(n % 0x1_0000 + n / 0x1_0000)
  }

  function Complement(x: U16): U16 {
    65535 - x
  }

  /** A receiver accepts words that sum to all ones. */
  predicate Verifies(sum: nat) {
    Fold(sum) == 0xFFFF
  }

  lemma VerifiesIff(sum: nat)
    ensures Verifies(sum) <==> sum > 0 && sum % 65535 == 0
  {
  }

  // ----------------------------------------------------------- stored words

  function PutWord(s: seq<U8>, i: nat, v: U16): (r: seq<U8>)
    requires i + 2 <= |s|
    ensures |r| == |s| && WordAt(r, i) == v
    ensures forall j :: 0 <= j < |s| && j != i && j != i + 1 ==> r[j] == s[j]
  {
    s[i := v / 256][i + 1 := v % 256]
  }

  /** The words `v / 65536` and `v % 65536`, as an address lies in the header. */
  function PutAddress(s: seq<U8>, i: nat, v: U32): (r: seq<U8>)
    requires i + 4 <= |s|
    ensures |r| == |s|
    ensures WordAt(r, i) == v / 0x1_0000 && WordAt(r, i + 2) == v % 0x1_0000
    ensures forall j :: 0 <= j < |s| && !(i <= j < i + 4) ==> r[j] == s[j]
  {
    PutWord(PutWord(s, i, v / 0x1_0000), i + 2, v % 0x1_0000)
  }

  /** What the sum is: 16-bit words from even offsets, and an odd last byte counted as the
      high byte of a word. */
  lemma {:induction false} WordSumLaws(s: seq<U8>, t: seq<U8>, x: U8, y: U8)
    requires |s| % 2 == 0
    ensures WordSum(s + t) == WordSum(s) + WordSum(t)
    ensures WordSum([]) == 0 && WordSum([x]) == 256 * x && WordSum([x, y]) == 256 * x + y
  {
    if s == [] {
      assert s + t == t;
    } else {
      WordSumLaws(s[2..], t, x, y);
      assert (s + t)[2..] == s[2..] + t;
    }
    assert [x, y][2..] == [];
  }

  lemma {:induction false} WordSumPut(s: seq<U8>, i: nat, v: U16)
    requires i + 2 <= |s| && i % 2 == 0
    ensures WordSum(PutWord(s, i, v)) == WordSum(s) - WordAt(s, i) + v
    decreases i
  {
    var r := PutWord(s, i, v);
    if i == 0 {
      assert r[2..] == s[2..];
    } else {
      WordSumPut(s[2..], i - 2, v);
      assert r[2..] == PutWord(s[2..], i - 2, v);
    }
  }

  lemma {:induction false} WordSumAtLeast(s: seq<U8>, i: nat)
    requires i + 2 <= |s| && i % 2 == 0
    ensures WordSum(s) >= WordAt(s, i)
    decreases i
  {
    if i > 0 {
      WordSumAtLeast(s[2..], i - 2);
    }
  }

  /** Computing a checksum over a field that still holds `stale` and storing it there
      gives words that verify exactly when `stale` was zero, in either of its one's
      complement forms. `extra` is what is summed besides `s` (the pseudo header). */
  lemma StoredChecksumVerifiesIff(s: seq<U8>, i: nat, extra: nat, ck: U16)
    requires i + 2 <= |s| && i % 2 == 0
    requires ck % 65535 == Complement(Fold(extra + WordSum(s))) % 65535
    requires extra + WordSum(s) > WordAt(s, i)
    ensures Verifies(extra + WordSum(PutWord(s, i, ck))) <==> WordAt(s, i) in {0, 0xFFFF}
  {
    WordSumPut(s, i, ck);
    ResidueVerifiesIff(extra + WordSum(s), WordAt(s, i), ck);
  }

  lemma ResidueVerifiesIff(total: nat, stale: U16, ck: U16)
    requires ck % 65535 == Complement(Fold(total)) % 65535 && total > stale
    ensures Verifies(total - stale + ck) <==> stale in {0, 0xFFFF}
  {
    NegatedResidue(total, stale, ck, Fold(total));
    VerifiesIff(total - stale + ck);
    ZeroForms(stale);
  }

  lemma ZeroForms(stale: U16)
    ensures stale % 65535 == 0 <==> stale in {0, 0xFFFF}
  {
  }

  lemma NegatedResidue(total: nat, stale: nat, ck: nat, fold: nat)
    requires fold % 65535 == total % 65535 && fold <= 65535 && stale <= 65535 && total > stale
    requires ck % 65535 == (65535 - fold) % 65535
    ensures total - stale + ck > 0
    ensures (total - stale + ck) % 65535 == 0 <==> stale % 65535 == 0
  {
    var a, b, c := total / 65535, fold / 65535, ck / 65535;
    var d := (65535 - fold) / 65535;
    assert total == a * 65535 + total % 65535 && fold == b * 65535 + fold % 65535;
    assert ck == c * 65535 + ck % 65535;
    assert 65535 - fold == d * 65535 + (65535 - fold) % 65535;
    var k := a + c - b - d + 1;
    assert total - stale + ck == k * 65535 - stale;
    if stale % 65535 == 0 {
      assert total - stale + ck == (k - stale / 65535) * 65535;
    } else {
      assert stale < 65535 && total - stale + ck == (k - 1) * 65535 + (65535 - stale);
    }
  }

  // ----------------------------------------------------------- IPv4 packets

  /** Header length by the IHL field, for a header at offset `ip`. */
  function HeaderLen(s: seq<U8>, ip: nat): nat
    requires ip < |s|
  {
    (s[ip] % 16) * 4
  }

  function TotalLen(s: seq<U8>, ip: nat): U16
    requires ip + 4 <= |s|
  {
    WordAt(s, ip + 2)
  }

  function Proto(s: seq<U8>, ip: nat): U8
    requires ip + 10 <= |s|
  {
    s[ip + 9]
  }

  /** Where the transport checksum of TCP and UDP lies, right after a 20-byte header. */
  function L4Field(proto: U8): nat {
    if proto == PROTO_TCP then 36 else 26
  }

  predicate Covered(s: seq<U8>, ip: nat) {
    && ip + 20 <= |s| && ip + HeaderLen(s, ip) <= |s|
    && ip + 20 + TotalLen(s, ip) <= |s| + HeaderLen(s, ip)
    && (Proto(s, ip) in {PROTO_TCP, PROTO_UDP} ==> ip + L4Field(Proto(s, ip)) + 2 <= |s|)
  }

  /** rte_ipv4_cksum. */
  function Ipv4Cksum(s: seq<U8>, ip: nat): U16
    requires ip < |s| && ip + HeaderLen(s, ip) <= |s|
  {
    Complement(Fold(WordSum(s[ip..ip + HeaderLen(s, ip)])))
  }

  function PseudoSum(s: seq<U8>, ip: nat, len: nat): nat
    requires ip + 20 <= |s|
  {
    WordAt(s, ip + 12) + WordAt(s, ip + 14) + WordAt(s, ip + 16) + WordAt(s, ip + 18) + Proto(s, ip) + len
  }

  /** The transport segment, as the library delimits it from a pointer 20 bytes in. */
  function Segment(s: seq<U8>, ip: nat): seq<U8>
    requires Covered(s, ip)
  {
    if TotalLen(s, ip) < HeaderLen(s, ip) then []
    else s[ip + 20..ip + 20 + TotalLen(s, ip) - HeaderLen(s, ip)]
  }

  function L4Sum(s: seq<U8>, ip: nat): nat
    requires Covered(s, ip)
  {
    PseudoSum(s, ip, |Segment(s, ip)|) + WordSum(Segment(s, ip))
  }

  /** rte_ipv4_udptcp_cksum: 0 for a length that cannot be; a UDP checksum that comes
      out as zero is sent as all ones. */
  function UdpTcpCksum(s: seq<U8>, ip: nat): U16
    requires Covered(s, ip)
  {
    if TotalLen(s, ip) < HeaderLen(s, ip) then 0
    else
      var c := Complement(Fold(L4Sum(s, ip)));
      if c == 0 && Proto(s, ip) == PROTO_UDP then 0xFFFF else c
  }

  // ------------------------------------------------------------ the rewrite

  function AddressField(isSrc: bool): nat {
    if isSrc then 12 else 16
  }

  function WithHeaderCksum(s: seq<U8>, ip: nat): (r: seq<U8>)
    requires Covered(s, ip)
    ensures |r| == |s|
  {
    var zeroed := PutWord(s, ip + 10, 0);
    PutWord(zeroed, ip + 10, Ipv4Cksum(zeroed, ip))
  }

  function WithL4Cksum(s: seq<U8>, ip: nat): (r: seq<U8>)
    requires Covered(s, ip)
    ensures |r| == |s|
  {
    if Proto(s, ip) !in {PROTO_TCP, PROTO_UDP} then s
    else
      var f := ip + L4Field(Proto(s, ip));
      var zeroed := PutWord(s, f, 0);
      PutWord(zeroed, f, UdpTcpCksum(zeroed, ip))
  }

  function Rewritten(s: seq<U8>, ip: nat, addr: U32, isSrc: bool): (r: seq<U8>)
    requires Covered(s, ip)
    ensures |r| == |s|
  {
    WithL4Cksum(WithHeaderCksum(PutAddress(s, ip + AddressField(isSrc), addr), ip), ip)
  }

  method StoreWord(a: array<U8>, i: nat, v: U16)
    requires i + 2 <= a.Length
    modifies a
    ensures a[..] == PutWord(old(a[..]), i, v)
  {
    a[i] := v / 256;
    a[i + 1] := v % 256;
  }

  method StoreHeaderCksum(a: array<U8>, ip: nat)
    requires Covered(a[..], ip)
    modifies a
    ensures a[..] == WithHeaderCksum(old(a[..]), ip)
  {
    StoreWord(a, ip + 10, 0);
    StoreWord(a, ip + 10, Ipv4Cksum(a[..], ip));
  }

  method StoreL4Cksum(a: array<U8>, ip: nat)
    requires Covered(a[..], ip)
    modifies a
    ensures a[..] == WithL4Cksum(old(a[..]), ip)
  {
    if a[ip + 9] == PROTO_TCP {
      StoreWord(a, ip + 36, 0);
      StoreWord(a, ip + 36, UdpTcpCksum(a[..], ip));
    } else if a[ip + 9] == PROTO_UDP {
      StoreWord(a, ip + 26, 0);
      StoreWord(a, ip + 26, UdpTcpCksum(a[..], ip));
    }
  }

  method RewriteAndRecalc(a: array<U8>, ip: nat, addr: U32, isSrc: bool)
    requires Covered(a[..], ip)
    modifies a
    ensures a[..] == Rewritten(old(a[..]), ip, addr, isSrc)
  {
    var field := if isSrc then ip + 12 else ip + 16;
    StoreWord(a, field, addr / 0x1_0000);
    StoreWord(a, field + 2, addr % 0x1_0000);
    StoreHeaderCksum(a, ip);
    StoreL4Cksum(a, ip);
  }

  // ------------------------------------------------------ the main results

  predicate InField(j: int, from: nat, len: nat) {
    from <= j < from + len
  }

  /** Only the chosen address and the checksum fields change: bytes 12 to 15 or 16 to 19
      of the header, bytes 10 and 11, and 16 and 17 of a TCP or 6 and 7 of a UDP header. */
  lemma OnlyAddressAndChecksumsChange(s: seq<U8>, ip: nat, addr: U32, isSrc: bool, j: nat)
    requires Covered(s, ip) && j < |s|
    ensures var r, field := Rewritten(s, ip, addr, isSrc), if isSrc then ip + 12 else ip + 16;
            && WordAt(r, field) == addr / 65536 && WordAt(r, field + 2) == addr % 65536
            && (!InField(j, field, 4) && !InField(j, ip + 10, 2)
                && (s[ip + 9] == 6 ==> !InField(j, ip + 20 + 16, 2))
                && (s[ip + 9] == 17 ==> !InField(j, ip + 20 + 6, 2))
                ==> r[j] == s[j])
  {
  }

  /** After the rewrite of a packet without options, the header checksum verifies. */
  lemma HeaderVerifies(s: seq<U8>, ip: nat, addr: U32, isSrc: bool)
    requires Covered(s, ip) && HeaderLen(s, ip) == 20
    ensures Verifies(WordSum(Rewritten(s, ip, addr, isSrc)[ip..ip + 20]))
  {
    var t := PutAddress(s, ip + AddressField(isSrc), addr);
    var zeroed := PutWord(t, ip + 10, 0);
    var h := zeroed[ip..ip + 20];
    HeaderCksumVerifiesIff(zeroed, ip);
    var done := WithHeaderCksum(t, ip);
    assert Rewritten(s, ip, addr, isSrc)[ip..ip + 20] == done[ip..ip + 20];
  }

  /** Storing the header checksum computed over the header as it stands gives a header
      that verifies exactly when the field held zero, as 0x0000 or 0xFFFF. This is
      what becomes of version 6 and of vxlan_encap, which do not clear it first. */
  lemma HeaderCksumVerifiesIff(s: seq<U8>, ip: nat)
    requires ip + 20 <= |s| && HeaderLen(s, ip) == 20
    ensures Verifies(WordSum(PutWord(s, ip + 10, Ipv4Cksum(s, ip))[ip..ip + 20]))
            <==> WordAt(s, ip + 10) in {0, 0xFFFF}
  {
    var h := s[ip..ip + 20];
    var ck := Ipv4Cksum(s, ip);
    assert PutWord(s, ip + 10, ck)[ip..ip + 20] == PutWord(h, 10, ck);
    assert WordAt(h, 10) == WordAt(s, ip + 10);
    FirstWordBesides(h, 10);
    StoredChecksumVerifiesIff(h, 10, 0, ck);
  }

  lemma FirstWordBesides(h: seq<U8>, i: nat)
    requires i + 2 <= |h| && i % 2 == 0 && i > 0 && h[0] > 0
    ensures WordSum(h) > WordAt(h, i)
  {
    WordSumAtLeast(h[2..], i - 2);
    assert WordAt(h[2..], i - 2) == WordAt(h, i);
  }

  /** The datagram is long enough to hold the transport checksum. */
  predicate HoldsL4(s: seq<U8>, ip: nat) {
    && Covered(s, ip) && HeaderLen(s, ip) == 20
    && Proto(s, ip) in {PROTO_TCP, PROTO_UDP}
    && L4Field(Proto(s, ip)) + 2 <= TotalLen(s, ip)
  }

  /** The same for the transport checksum of TCP and UDP. */
  lemma L4CksumVerifiesIff(s: seq<U8>, ip: nat)
    requires HoldsL4(s, ip)
    ensures Verifies(L4Sum(PutWord(s, ip + L4Field(Proto(s, ip)), UdpTcpCksum(s, ip)), ip))
            <==> WordAt(s, ip + L4Field(Proto(s, ip))) in {0, 0xFFFF}
  {
    var f := L4Field(Proto(s, ip));
    var seg, ck := Segment(s, ip), UdpTcpCksum(s, ip);
    SegmentPut(s, ip, ck);
    WordSumAtLeast(seg, f - 20);
    StoredChecksumVerifiesIff(seg, f - 20, PseudoSum(s, ip, |seg|), ck);
  }

  /** Storing the transport checksum stores into the segment and nothing else. */
  lemma SegmentPut(s: seq<U8>, ip: nat, ck: U16)
    requires HoldsL4(s, ip)
    ensures var f := L4Field(Proto(s, ip));
            var r := PutWord(s, ip + f, ck);
            && Covered(r, ip) && Proto(r, ip) == Proto(s, ip)
            && Segment(r, ip) == PutWord(Segment(s, ip), f - 20, ck)
            && WordAt(Segment(s, ip), f - 20) == WordAt(s, ip + f)
            && PseudoSum(r, ip, |Segment(r, ip)|) == PseudoSum(s, ip, |Segment(s, ip)|)
  {
  }

  /** The bytes a transport checksum covers: the pseudo header of section 3.1 of RFC 9293
      and of RFC 768, and the segment. */
  function PseudoPacket(s: seq<U8>, ip: nat): seq<U8>
    requires HoldsL4(s, ip)
  {
    var len := TotalLen(s, ip) - 20;
    s[ip + 12..ip + 20] + [0, s[ip + 9], len / 256, len % 256] + s[ip + 20..ip + TotalLen(s, ip)]
  }

  lemma L4SumIsPseudoPacketSum(s: seq<U8>, ip: nat)
    requires HoldsL4(s, ip)
    ensures L4Sum(s, ip) == WordSum(PseudoPacket(s, ip))
  {
    assert Segment(s, ip) == s[ip + 20..ip + TotalLen(s, ip)];
    PseudoPacketSum(s[ip + 12..ip + 20], Proto(s, ip), TotalLen(s, ip) - 20, Segment(s, ip));
  }

  lemma PseudoPacketSum(addresses: seq<U8>, proto: U8, len: U16, segment: seq<U8>)
    requires |addresses| == 8
    ensures WordSum(addresses + [0, proto, len / 256, len % 256] + segment) ==
              WordAt(addresses, 0) + WordAt(addresses, 2) + WordAt(addresses, 4) + WordAt(addresses, 6)
              + proto + len + WordSum(segment)
  {
    var rest := [0, proto, len / 256, len % 256];
    AddressesSum(addresses);
    WordSumLaws(addresses, rest, 0, proto);
    WordSumLaws([0, proto], [len / 256, len % 256], len / 256, len % 256);
    WordSumLaws([], [], 0, proto);
    assert [0, proto] + [len / 256, len % 256] == rest;
    WordSumLaws(addresses + rest, segment, 0, 0);
  }

  lemma AddressesSum(a: seq<U8>)
    requires |a| == 8
    ensures WordSum(a) == WordAt(a, 0) + WordAt(a, 2) + WordAt(a, 4) + WordAt(a, 6)
  {
    WordSumLaws(a[..2], a[2..], a[0], a[1]);
    WordSumLaws(a[2..4], a[4..], a[2], a[3]);
    WordSumLaws(a[4..6], a[6..], a[4], a[5]);
    WordSumLaws([], [], a[6], a[7]);
    assert a[..2] == [a[0], a[1]] && a[2..4] == [a[2], a[3]] && a[4..6] == [a[4], a[5]] && a[6..] == [a[6], a[7]];
    assert a[..2] + a[2..] == a && a[2..4] + a[4..] == a[2..] && a[4..6] + a[6..] == a[4..];
  }

  /** After the rewrite of a TCP or UDP packet without options, its transport checksum
      verifies: the pseudo header and the segment sum to all ones. A UDP checksum is
      never sent as zero, which would mean none. */
  lemma TransportVerifies(s: seq<U8>, ip: nat, addr: U32, isSrc: bool)
    requires HoldsL4(s, ip)
    ensures var r := Rewritten(s, ip, addr, isSrc);
            && HoldsL4(r, ip) && Verifies(WordSum(PseudoPacket(r, ip))) && Verifies(L4Sum(r, ip))
            && (s[ip + 9] == 17 ==> WordAt(r, ip + 26) != 0)
  {
    HeaderKeepsLayout(s, ip, addr, isSrc);
    L4CksumVerifies(WithHeaderCksum(PutAddress(s, ip + AddressField(isSrc), addr), ip), ip);
    L4SumIsPseudoPacketSum(Rewritten(s, ip, addr, isSrc), ip);
  }

  /** A datagram that claims to be shorter than its header gets 0 for a TCP or UDP checksum. */
  lemma ImpossibleLengthGivesZero(s: seq<U8>, ip: nat, addr: U32, isSrc: bool)
    requires Covered(s, ip) && TotalLen(s, ip) < HeaderLen(s, ip)
    ensures var r := Rewritten(s, ip, addr, isSrc);
            && (s[ip + 9] == 6 ==> WordAt(r, ip + 36) == 0)
            && (s[ip + 9] == 17 ==> WordAt(r, ip + 26) == 0)
  {
  }

  lemma HeaderKeepsLayout(s: seq<U8>, ip: nat, addr: U32, isSrc: bool)
    requires HoldsL4(s, ip)
    ensures HoldsL4(WithHeaderCksum(PutAddress(s, ip + AddressField(isSrc), addr), ip), ip)
  {
  }

  lemma L4CksumVerifies(s: seq<U8>, ip: nat)
    requires HoldsL4(s, ip)
    ensures HoldsL4(WithL4Cksum(s, ip), ip) && Verifies(L4Sum(WithL4Cksum(s, ip), ip))
    ensures Proto(s, ip) == PROTO_UDP ==> WordAt(WithL4Cksum(s, ip), ip + 26) != 0
  {
    L4CksumVerifiesIff(PutWord(s, ip + L4Field(Proto(s, ip)), 0), ip);
  }

  /** A header checksum recomputed verifies, and the transport sum does not cover it. */
  lemma HeaderCksumVerifies(s: seq<U8>, ip: nat)
    requires HoldsL4(s, ip)
    ensures HoldsL4(WithHeaderCksum(s, ip), ip) && L4Sum(WithHeaderCksum(s, ip), ip) == L4Sum(s, ip)
    ensures Verifies(WordSum(WithHeaderCksum(s, ip)[ip..ip + 20]))
  {
    assert Segment(WithHeaderCksum(s, ip), ip) == Segment(s, ip);
    HeaderCksumVerifiesIff(PutWord(s, ip + 10, 0), ip);
  }

  // -------------------------------------------------- TCP and UDP in frames

  /** The IPv4 header follows the Ethernet header. */
  const IP := 14

  /** A TCP or UDP frame whose datagram lies in the buffer. */
  predicate Translatable(f: seq<U8>) {
    && Covered(f, IP) && IP + 24 <= |f|
    && WordAt(f, 12) == ETHER_IPV4 && Proto(f, IP) in {PROTO_TCP, PROTO_UDP}
  }

  function PortField(isSrc: bool): nat {
    if isSrc then 20 else 22
  }

  function AddressAt(f: seq<U8>, i: nat): U32
    requires i + 4 <= |f|
  {
    WordAt(f, i) * 0x1_0000 + WordAt(f, i + 2)
  }

  /** A new address and port; the checksums are left as they are. */
  function WithEndpoint(f: seq<U8>, isSrc: bool, addr: U32, port: U16): (r: seq<U8>)
    requires Translatable(f)
    ensures |r| == |f| && Translatable(r) && Proto(r, IP) == Proto(f, IP)
  {
    PutWord(PutAddress(f, IP + AddressField(isSrc), addr), IP + PortField(isSrc), port)
  }
}
